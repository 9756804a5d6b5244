# Tethys query gateway, modelled in Dafny

Tethys answers questions about ARGO ocean-float data in plain language. A
language model writes a SQL statement. A sanitizer decides whether the
statement may run against the Postgres `profiles` table. The result is then
summarized. This project models the boundary between the model's free text
and the database:

- the four hand-copied `generate_sql` tails, which cut a candidate statement
  out of a completion;
- the three `sanitize_sql` variants;
- `RAG_Engine`'s `retrieve_context`, `generate_sql`, `execute_sql` and
  `summarize_results`;
- the dashboard's column lookup, plot choice, submit button and request
  block.

Modules:

| module | file | models |
|---|---|---|
| `Base` | base.dfy | `Option` and `Result` |
| `PyStr` | pystr.dfy | Python `str` semantics used by the code: `strip`, `in`, `find`, `split`, `join`, `upper`/`lower`, and `re.search(r"\bW\b", s, re.IGNORECASE)` |
| `Guard` | guard.dfy | steps shared by the sanitizers: the sqlparse seam, the forbidden-word scan, the entry keyword, the FROM allow-list fold, the `" LIMIT 1000"` suffix |
| `Fences` | fences.dfy | removal of "```sql" / "```" fences (the whole tail in main_app.py and LLM.py) |
| `MainApp` | main_app.dfy | main_app.py's `sanitize_sql`, and a corrected single-statement variant |
| `StreamlitApp` | streamlit_app.dfy | streamlit_app.py's extraction tail and `sanitize_sql`, and a corrected limit placement |
| `RagEngine` | rag_engine.dfy | rag_engine.py's `RAG_Engine` methods |
| `StreamApp` | stream_app.dfy | stream_app.py's `safe_column`, plot choice, submit and request block |
| `Variants` | variants.dfy | how the sanitizer and extraction variants relate |

How the foreign parts are represented:

- sqlparse is a `SqlParse` value with two fields:
  - `format` stands for `sqlparse.format(sql, keyword_case='upper', strip_comments=True)`;
  - `firstStatementTokens` stands for the top-level tokens of `sqlparse.parse(text)[0]`.
- Each token records `is_keyword`, whether `ttype is None`, and `value`.
- The embedder with the Chroma collection, the chat completion and `pd.read_sql` are function fields of `Services`.
- An exception a collaborator raises is an `Err`.
- Every collaborator call is recorded in order in a `Call` trace. This makes statements like "the database is never reached before sanitizing succeeds" provable.

## Model

| member | source | states |
|---|---|---|
| PyStr.SearchWord | Tethys/engine/main_app.py:73 | the regex search for `\bW\b` ignoring case succeeds exactly when `W` occurs at some index, case-folded, with a word boundary on both sides |
| PyStr.Before | Tethys/engine/main_app.py:63 | `s.split(sep)[0]` is a prefix of `s` that holds no `sep`, and the first `sep` of `s` starts right after it; without a `sep` it is all of `s` |
| PyStr.SplitSecond | Tethys/engine/main_app.py:61 | `s.split(sep)[1]` is the text after the first `sep` up to the next `sep`, which starts right after it, or to the end when there is no next `sep`; it holds no `sep` |
| PyStr.SplitSecondSpan | Tethys/engine/main_app.py:61 | `s.split(sep)[1]` is the slice of `s` between the end of the first `sep` and the start of the next one, or the end of `s` |
| PyStr.Trim | Tethys/engine/main_app.py:70 | `strip()` returns an infix of the text with no whitespace at either edge, and only whitespace is dropped |
| PyStr.TrimEmptyIffBlank | Tethys/Frontend/stream_app.py:80 | a stripped text is empty exactly when every character is whitespace |
| PyStr.SplitJoin | Tethys/engine/rag_engine.py:98 | splitting a line-break join of line-free pieces gives the pieces back in order |
| PyStr.JoinSplit | Tethys/Frontend/streamlit_app.py:84-91 | joining the lines of a split gives the text back |
| Guard.FirstForbidden | Tethys/engine/main_app.py:71-74 | no rejection exactly when no listed word occurs as a whole word; otherwise the reported word occurs, and every word before it in the list is absent (list order, not text order) |
| Guard.SemicolonNeedsWordNeighbours | Tethys/engine/main_app.py:71-73 | `\b;\b` matches at `i` exactly when `s[i]` is `;` with a word character on both sides |
| Guard.LoneSemicolonBeforeSpacePasses | Tethys/engine/main_app.py:71-74 | a `;` followed by a non-word character never triggers the `";"` entry |
| Guard.EmbeddedWordNotMatched | Tethys/engine/main_app.py:73 | a keyword glued to a word character on either side (`created_at`, `DROPPED`) is not matched |
| Guard.AddLimit | Tethys/engine/main_app.py:85-87 | the result always says LIMIT; it is the text unchanged exactly when the upper-cased text already contains `LIMIT`, otherwise the text plus `" LIMIT 1000"` |
| Guard.AddLimitIdempotent | Tethys/engine/main_app.py:85-87 | applying the limit step to its own output changes nothing |
| Guard.TableScanSpec | Tethys/engine/main_app.py:77-84 | the token loop, started in the state the earlier tokens leave it in, finds nothing exactly when every checked target from there on is allowed; otherwise it names the first bad checked target |
| Guard.FirstDisallowedTable | Tethys/engine/main_app.py:77-84 | the FROM check passes exactly when every group that follows a FROM keyword, with no group in between, lower-cases to `profiles`; otherwise it names the first one that does not |
| MainApp.SanitizeSql | Tethys/engine/main_app.py:69-87 | an accepted statement is the normalized text with the limit step applied; every rejection is one of the three kinds the code raises |
| MainApp.SanitizeSqlAccepts | Tethys/engine/main_app.py:69-87 | accepted exactly when none of the ten entries occurs as a whole word, the text opens with the word SELECT, and every checked FROM target is allowed; an accepted text says LIMIT |
| MainApp.RejectedWord | Tethys/engine/main_app.py:71-74 | a keyword rejection names the earliest entry of the ten-entry list that occurs as a whole word (list order, not text order) |
| MainApp.RejectedEntry | Tethys/engine/main_app.py:71-76 | a "Only SELECT" rejection comes only after the keyword scan passed, on a text that does not open with the word SELECT |
| MainApp.RejectedTable | Tethys/engine/main_app.py:71-83 | a table rejection comes only after both earlier checks passed, and names the first checked FROM target that is not allowed |
| MainApp.AliasedTableRejected | Tethys/engine/main_app.py:81-83 | the aliased group `profiles p` after FROM is refused by name |
| MainApp.JoinedTableUnchecked | Tethys/engine/main_app.py:77-84 | in `FROM profiles JOIN users`, only `profiles` is checked, and the scan passes |
| MainApp.StackedStatementsPass | Tethys/engine/main_app.py:71-74 | `SELECT * FROM profiles LIMIT 5; SELECT * FROM users` passes unchanged whenever sqlparse's formatting leaves it as it is and sqlparse's first statement names only allowed tables; the corrected sanitizer rejects it |
| MainApp.SanitizeSqlSingleStatement | Tethys/engine/main_app.py:69-87 | the corrected sanitizer accepts exactly when `SanitizeSql` accepts and no `;` is left once the final terminator is dropped; it passes every `SanitizeSql` rejection through, rejects a stacked statement as multiple statements, never returns a `;`, always says LIMIT, and agrees with `SanitizeSql` on every text without a `;` |
| Fences.DropSqlTag | Tethys/engine/LLM.py:65-66 | with "```sql" present, the result is the stripped text that starts right after its first occurrence and runs up to the next "```sql" or to the end; without it the text is kept |
| Fences.CutAtFence | Tethys/engine/LLM.py:67-68 | with a "```" present, the result is the stripped text before its first occurrence; a fence-free input is kept untrimmed; the result holds no "```" |
| Fences.StripFences | Tethys/engine/LLM.py:62-70 | the result is the stripped text before the first "```" of what the tag step left, or that text itself when it has no fence; no "```" survives; with "```sql" the result comes from the text after its first occurrence; with no fence at all the completion is returned unchanged, not even trimmed |
| Fences.CutOfTrim | Tethys/engine/LLM.py:65-68 | cutting the stripped tag piece at its first "```" and stripping keeps what cutting the unstripped piece and stripping keeps: the strip never moves the first fence |
| Fences.TaggedReplyStrips | Tethys/engine/LLM.py:62-70 | for every reply holding "```sql", the extracted SQL is the text between the first "```sql" and the next "```sql" (or the end), cut before its first "```", stripped |
| Fences.UntaggedLeadingFenceGivesEmpty | Tethys/engine/LLM.py:67-68 | a reply that opens with an untagged fence extracts to the empty string |
| Variants.SemicolonTailSurvivesFenceStep | Tethys/engine/LLM.py:65-70 | the fence step does no `;` truncation: a fence-free stripped reply keeps the text after its `;`, which rag_engine.py's tail would cut |
| StreamlitApp.KeepUntilMarker | Tethys/Frontend/streamlit_app.py:84-90 | the kept lines are a prefix of the lines, none opens with `[` after stripping, and the scan stops only at such a line |
| StreamlitApp.FirstMarker | Tethys/Frontend/streamlit_app.py:86-90 | the loop stops at the first line from `i` on that opens with `[` after stripping, or runs off the end; no line it passes is a marker |
| StreamlitApp.KeptLinesHaveNoMarker | Tethys/Frontend/streamlit_app.py:83-91 | the re-joined text splits back into exactly the kept lines, so no retained line opens with `[` |
| StreamlitApp.CutAfterSemicolon | Tethys/Frontend/streamlit_app.py:94-95 | the result is a prefix of the text; if a `;` is present the result holds exactly one `;`, as its last character; otherwise the text is kept |
| StreamlitApp.KeptTextHasNoFence | Tethys/Frontend/streamlit_app.py:83-91 | the line cut and strip introduce no fence |
| StreamlitApp.ExtractSql | Tethys/Frontend/streamlit_app.py:74-95 | the extracted statement holds no "```", and any `;` in it is its only one and its last character |
| StreamlitApp.ExampleExtractsSelectOne | Tethys/Frontend/streamlit_app.py:78-95 | the reply "```sql", `SELECT 1;`, "```", `[explanation]` (one per line) extracts to exactly `SELECT 1;` |
| StreamlitApp.SanitizeSql | Tethys/Frontend/streamlit_app.py:99-109 | accepted exactly when none of the nine words occurs as a whole word and the text opens with the word SELECT or WITH; the result is the normalized text with the limit step applied; a forbidden word is reported before the entry check, and a rejection names the earliest listed word present, or says only SELECT or WITH is allowed |
| StreamlitApp.LimitLandsAfterTerminator | Tethys/Frontend/streamlit_app.py:107-108 | a statement with one final `;` and no LIMIT gets the clause after the `;`, so it is no longer terminated once |
| StreamlitApp.SelectOneGetsLimitAfterSemicolon | Tethys/Frontend/streamlit_app.py:107-108 | `SELECT 1;` becomes `SELECT 1; LIMIT 1000` |
| StreamlitApp.AddLimitBeforeTerminator | Tethys/Frontend/streamlit_app.py:107-108 | the corrected limit step always says LIMIT; it keeps a terminated statement terminated once, with the LIMIT before the `;`, and equals the plain suffix on text without `;` |
| StreamlitApp.SanitizeSqlLimitInside | Tethys/Frontend/streamlit_app.py:99-109 | the corrected sanitizer accepts and rejects exactly as `SanitizeSql` does, and keeps a terminated statement terminated once |
| StreamlitApp.ExtractThenSanitizeKeepsTerminator | Tethys/Frontend/streamlit_app.py:94-108 | with the correction, an extracted statement whose normalized form still ends in its only `;` keeps that single `;` at the end once it passes the sanitizer |
| StreamlitApp.ExtractedTerminatorSurvives | Tethys/Frontend/streamlit_app.py:94-108 | an extracted statement holding a `;` ends in that one `;`, so when formatting leaves it unchanged the corrected sanitizer passes it on still ending in its only `;` |
| StreamlitApp.UnchangedFormatKeepsTerminator | Tethys/Frontend/streamlit_app.py:100 | the strip after formatting keeps a statement ending in its only `;` that way when the formatting leaves that statement unchanged |
| RagEngine.RetrieveContext | Tethys/engine/rag_engine.py:89-99 | one search call; the context is the documents joined by line breaks in the order returned, so splitting it at line breaks gives them back when none holds a line break; a failing search propagates |
| RagEngine.TrimBeforeSemicolon | Tethys/engine/rag_engine.py:116 | the result is the stripped text before the first `;` of the input (all of it, stripped, when there is none); it holds no `;`, no fence the input lacked, and is drawn from the input |
| RagEngine.ExtractSql | Tethys/engine/rag_engine.py:108-116 | when the fence step leaves a `;`, the result is the stripped text before its first `;` plus one `;`; otherwise it is the text as that step left it; no "```" survives, and a `;` in the result is its only one and its last character |
| RagEngine.GenerateSql | Tethys/engine/rag_engine.py:101-118 | exactly one completion call over the question and context; its content, extracted, is the statement; a failing call propagates |
| RagEngine.SanitizeSql | Tethys/engine/rag_engine.py:120-129 | accepted exactly when none of the nine words occurs as a whole word and the text opens with the word SELECT; the accepted text is the normalized text with no limit added; a forbidden word is reported before the entry check, and a rejection names the earliest listed word present |
| RagEngine.WithQueriesRejected | Tethys/engine/rag_engine.py:127-128 | a WITH query is refused, with "Only SELECT queries are allowed." when no forbidden word is present |
| RagEngine.ExecuteSql | Tethys/engine/rag_engine.py:131-142 | a rejection or a database error alike gives `None`; the database is called once, with the sanitized text, and only if sanitizing succeeded |
| RagEngine.SummarizeResults | Tethys/engine/rag_engine.py:144-155 | an empty frame gives "The query returned no results." with no call; otherwise exactly one completion call over the question and the first five rows, whose stripped content is the summary |
| StreamApp.SafeColumn | Tethys/Frontend/stream_app.py:33-38 | `None` exactly when no candidate is a column; otherwise the first candidate in list order that is a column |
| StreamApp.ChoosePlot | Tethys/Frontend/stream_app.py:48-70 | an empty frame gets no plot; a latitude and a longitude column give a map, which takes priority; otherwise pressure and temperature columns give a profile; otherwise the raw-data notice; each column drawn is the first name of its candidate list, in list order, that is a column |
| StreamApp.Submit | Tethys/Frontend/stream_app.py:79-85 | a whitespace-only question leaves the session unchanged; any other question sets the processing flag and stores the question and `k` |
| StreamApp.ExecuteAndSummarize | Tethys/Frontend/stream_app.py:174-187 | the stored SQL is the generated statement; at most two calls, a query first and then only a summary prompt; only a run with the summary call can fail; a rejected statement makes no call and reports success with no frame, and a database error also ends in success with no frame; the stored frame is what `execute_sql` returned; with fewer than two calls the summary is "Query executed successfully."; two calls are made exactly when that frame is present and non-empty |
| StreamApp.SummarizeFrame | Tethys/Frontend/stream_app.py:177-180 | a non-empty frame adds exactly the summary prompt over the question and the frame's head; the step fails exactly when that call fails, and otherwise the summary is its stripped reply; anything else keeps the default summary with no call |
| StreamApp.ExecuteSummaryOutcome | Tethys/Frontend/stream_app.py:177-180 | when steps 3 and 4 make two calls, the second is the summary prompt over the question and the head of the frame `execute_sql` returned; the run fails exactly when that call fails, and otherwise stores its stripped reply as the summary |
| StreamApp.ExecuteQueriesFirst | Tethys/Frontend/stream_app.py:174-175 | an accepted statement is queried first, in its sanitized form |
| StreamApp.ExecuteSummarizesRows | Tethys/Frontend/stream_app.py:177-180 | in a successful run the summary prompt follows exactly when the stored frame is present and non-empty |
| StreamApp.ExecuteCalls | Tethys/Frontend/stream_app.py:174-180 | a query can only be the first call of steps 3 and 4 and carries the sanitized statement; a summary prompt is sent exactly when there are two calls |
| StreamApp.FromContext | Tethys/Frontend/stream_app.py:170-187 | steps 2 to 4 send the SQL prompt first; a stored result carries the statement extracted from that prompt's reply, which must have succeeded |
| StreamApp.FromContextStages | Tethys/Frontend/stream_app.py:170-175 | once the SQL prompt is answered, the rest of the run is executing and summarizing the extracted statement, after the one completion call |
| StreamApp.Pipeline | Tethys/Frontend/stream_app.py:166-187 | the search comes first; the SQL prompt is built from the joined documents; a stored result's SQL is the extraction of that prompt's reply; a failed search ends the run after one call |
| StreamApp.PipelineStages | Tethys/Frontend/stream_app.py:168-175 | a run that gets a statement is the search, the SQL prompt, then executing and summarizing that statement |
| StreamApp.PipelineStopsEarly | Tethys/Frontend/stream_app.py:167-191 | a run whose retrieval or generation fails raises after at most those two calls, with no query and no summary |
| StreamApp.QueriesAreSanitized | Tethys/Frontend/stream_app.py:172-175 | any database call is the third call and carries what `_sanitize_sql` returned for the generated statement |
| StreamApp.SummaryOnlyForRows | Tethys/Frontend/stream_app.py:178-180 | in a successful run the summarizer is called exactly when the result is present and non-empty; otherwise the summary is the default sentence |
| StreamApp.RejectedStatementReportsSuccess | Tethys/Frontend/stream_app.py:175-187 | a statement the sanitizer refuses ends the run successfully after two calls, with no frame and "Query executed successfully." |
| StreamApp.DatabaseErrorReportsSuccess | Tethys/Frontend/stream_app.py:175-187 | a statement the database refuses ends the run successfully after three calls, the third the sanitized query, with no frame and "Query executed successfully." |
| StreamApp.PipelineFailsExactly | Tethys/Frontend/stream_app.py:167-191 | a run fails exactly when retrieval or generation fails or the fourth call, the summary prompt, fails; a rejected statement or a database error never fails it |
| StreamApp.Process | Tethys/Frontend/stream_app.py:162-194 | with the flag unset nothing happens; otherwise the pipeline runs on the stored question and `k`, an exception leaves `last_result` empty, a success is stored, and the flag is reset either way |
| StreamApp.ProcessClearsResultExactly | Tethys/Frontend/stream_app.py:162-194 | `last_result` ends up `None` exactly when retrieval or generation failed or the summary call failed |
| Variants.MainListExtendsShared | Tethys/engine/main_app.py:71 | main_app's list rejects exactly what the shared nine-word list rejects, plus a whole-word `;` |
| Variants.MainAcceptsWithinRag | Tethys/engine/main_app.py:69-87 | whatever main_app.py accepts, rag_engine.py accepts too, and main_app's result is rag_engine's with the limit step applied |
| Variants.RagAcceptsWithinStreamlit | Tethys/engine/rag_engine.py:120-129 | whatever rag_engine.py accepts, streamlit_app.py accepts too, with the limit step applied |
| Variants.WithSplitsTheVariants | Tethys/Frontend/streamlit_app.py:105-106 | a WITH query free of forbidden words is accepted by streamlit_app.py and refused as not a SELECT by rag_engine.py and main_app.py |
| Variants.SingleStatementWithinStreamlit | Tethys/engine/main_app.py:69-87 | the corrected main_app sanitizer accepts only what streamlit_app.py accepts |

Behaviours of the code a reader of a SQL gateway may not expect:

- main_app.py and rag_engine.py accept only SELECT, not WITH.
- Only streamlit_app.py accepts WITH.
- Only main_app.py has a table allow-list, and it checks the first group after each FROM only. JOIN targets are not checked.
- Two stacked statements are not rejected. In main_app.py they pass as shown above. The rag_engine.py and streamlit_app.py sanitizers do not look for a `;`, but their extraction tails keep only the text up to the first `;`, so a second statement is dropped before the sanitizer sees it (`RagEngine.ExtractSql`, `StreamlitApp.CutAfterSemicolon`).
- The dashboard does not fail a request whose statement the sanitizer refuses. `execute_sql` turns the refusal into `None`, and the run reports "Query executed successfully." (`RejectedStatementReportsSuccess`).
- A database error is reported as success too. `execute_sql` catches it and returns `None`, so the run stores no frame and "Query executed successfully." (`DatabaseErrorReportsSuccess`).

## Left out

- Case folding and word characters are ASCII only. Python's `re` with IGNORECASE and `\w` on `str` also fold and accept non-ASCII letters and digits. Whitespace is the full `str.isspace` set.
- sqlparse's formatting and tokenizing are inputs (the `SqlParse` value), not modelled. Every sanitizer property is stated over the normalized text and the given tokens.
- The extraction keeps a `;` that sits inside a trailing `--` comment (`SELECT 1 --; x` gives `SELECT 1 --;`), and sqlparse's comment stripping then drops that `;` with the comment. Because sqlparse is not modelled, `StreamlitApp.ExtractThenSanitizeKeepsTerminator` takes as given that the normalized statement still ends in its only `;`.
- The prompt templates' wording is not modelled. A prompt is the question plus its context, or the question plus the head rows.
- How `df.head().to_string()` renders is not modelled. The summary prompt carries the rows themselves.
- Embedding, the Chroma query, the chat completion, SQLAlchemy and `pd.read_sql` are function parameters. This covers network, model calls and database I/O.
- `print` logging and the `k=3` default are left out. Neither affects the results.
- The dashboard's overview map and sampling (stream_app.py:99-152), Streamlit rendering, Plotly charts and `get_db_metadata` are UI only.
- streamlit_app.py's `visualize`, `run_sql_fetch`, `get_data_summary` and chat UI are not part of this model. Only its extraction tail and sanitizer are.
- main_app.py's interactive loop and `run_sql_fetch` are console I/O around `sanitize_sql`.
- The retrieval call in LLM.py and main_app.py's `generate_sql`, and the prompt they build, are left out. Only the fence tail is modelled.
- The ingestion scripts, vectordb.py, retrieval.py and scrape.py are file, network and index I/O outside the gateway.
- Streamlit caching (`st.cache_data`, `st.cache_resource`) is not modelled.
- RagEngine.RetrieveContext: the round trip is stated only for documents without line breaks. A document that holds one cannot be recovered from the joined text.

## Findings

| source | as written | input that shows it | evidently intended | confidence | as-written member | corrected member |
|---|---|---|---|---|---|---|
| Tethys/engine/main_app.py:71-74 | the `";"` entry, wrapped in `\b`, matches only a `;` with word characters on both sides, and the table check reads only sqlparse's first statement | `SELECT * FROM profiles LIMIT 5; SELECT * FROM users` is accepted unchanged | a single statement: a `;` anywhere but at the end rejects | high (proved; not executed) | MainApp.StackedStatementsPass | MainApp.SanitizeSqlSingleStatement |
| Tethys/Frontend/streamlit_app.py:107-108 | the limit suffix is appended after the `;` that the extraction tail keeps | the reply `SELECT 1;` is sent as `SELECT 1; LIMIT 1000` | the clause goes inside the statement, before its terminator | high (proved; not executed) | StreamlitApp.LimitLandsAfterTerminator | StreamlitApp.AddLimitBeforeTerminator |
