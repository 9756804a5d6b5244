/** rag_engine.py: the `RAG_Engine` the dashboard drives. Its collaborators
    (the sentence embedder with the Chroma collection, the chat-completion
    client, the database) are the fields of a `Services` value, and every
    call the engine makes to them is recorded in order. */
module RagEngine {
  import opened Base
  import opened PyStr
  import opened Guard
  import opened Fences

  /** One result row: the cell texts, in column order. */
  type Row = seq<string>

  /** A pandas DataFrame: its column labels and its rows. */
  datatype Frame = Frame(columns: seq<string>, rows: seq<Row>)

  /** `df.empty`: no rows or no columns. */
  predicate Empty(df: Frame) {
    |df.columns| == 0 || |df.rows| == 0
  }

  /** `df.head()`: the first five rows, or all when there are fewer. */
  function Head(df: Frame): (h: seq<Row>)
    ensures h <= df.rows
    ensures |h| == if |df.rows| < 5 then |df.rows| else 5
  {
    if |df.rows| < 5 then df.rows else df.rows[..5]
  }

  /** What the engine sends to the model: the SQL prompt over the question
      and the retrieved context, or the summary prompt over the question and
      the head of the result. The template wording is not modelled. */
  datatype Prompt =
    | SqlPrompt(question: string, context: string)
    | SummaryPrompt(question: string, head: seq<Row>)

  /** One call into a collaborator. */
  datatype Call =
    | Search(question: string, k: int)
    | Complete(prompt: Prompt)
    | Query(sql: string)

  /** The engine's collaborators. `search` is the embedding plus the
      collection query, giving `results["documents"][0]`; `complete` is the
      chat completion's message content; `query` is `pd.read_sql`. An `Err`
      stands for the exception the call raises. */
  datatype Services = Services(
    lib: SqlParse,
    search: (string, int) -> Result<seq<string>, string>,
    complete: Prompt -> Result<string, string>,
    query: string -> Result<Frame, string>)

  /** A result (an `Err` is an exception propagating out) together with the
      calls made on the way. */
  datatype Traced<+T> = Traced(result: Result<T, string>, calls: seq<Call>)

  /** `execute_sql` never raises: the frame, or `None`. */
  datatype Executed = Executed(frame: Option<Frame>, calls: seq<Call>)

  const NoResults: string := "The query returned no results."

  // ---------------------------------------------------------------------------
  // retrieve_context
  // ---------------------------------------------------------------------------

  /** `retrieve_context`: one search, whose documents are joined with line
      breaks in the order returned; splitting the context at line breaks
      gives the documents back when none holds a line break. */
  function RetrieveContext(svc: Services, question: string, k: int): (r: Traced<string>)
    ensures r.calls == [Search(question, k)]
    ensures r.result.Ok? <==> svc.search(question, k).Ok?
    ensures r.result.Ok? ==>
              var docs := svc.search(question, k).value;
              && (|docs| == 0 ==> r.result.value == "")
              && (|docs| > 0 && (forall d :: 0 <= d < |docs| ==> '\n' !in docs[d]) ==>
                    Split(r.result.value, '\n') == docs)
  {
    match svc.search(question, k)
    case Err(e) => Traced(Err(e), [Search(question, k)])
    case Ok(docs) =>
      assert |docs| > 0 && (forall d :: 0 <= d < |docs| ==> '\n' !in docs[d]) ==>
               Split(Join(docs, '\n'), '\n') == docs by {
        if |docs| > 0 && (forall d :: 0 <= d < |docs| ==> '\n' !in docs[d]) {
          SplitJoin(docs, '\n');
        }
      }
      Traced(Ok(Join(docs, '\n')), [Search(question, k)])
  }

  // ---------------------------------------------------------------------------
  // generate_sql
  // ---------------------------------------------------------------------------

  /** The stripped text before the first `;` of `s`, followed by one `;`. */
  ghost predicate CutAtSemicolon(s: string, r: string) {
    exists i :: 0 <= i < |s| && s[i] == ';' && ';' !in s[..i] && r == Trim(s[..i]) + ";"
  }

  /** The tail of `generate_sql`: strip the reply, remove the fences, and
      when a `;` remains keep the stripped text before the first one plus a
      single `;`. No fence survives, a `;` in the result is its only one and
      its last character, and text without `;` is left as the fence step
      made it. */
  function ExtractSql(reply: string): (r: string)
    ensures !Contains(r, Fence)
    ensures ';' in r ==> TerminatedOnce(r)
    ensures ';' in StripFences(Trim(reply)) ==> CutAtSemicolon(StripFences(Trim(reply)), r)
    ensures ';' !in StripFences(Trim(reply)) ==> r == StripFences(Trim(reply))
  {
    var s := StripFences(Trim(reply));
    if ';' in s then
      var head := TrimBeforeSemicolon(s);
      AppendKeepsAbsent(head, Fence, ';');
      assert (head + ";")[..|head|] == head;
      head + ";"
    else
      s
  }

  /** `s.split(';')[0].strip()`: the stripped text before the first `;`, or
      all of `s` stripped when it has none; it has neither a `;` nor a fence
      that `s` lacks. */
  function TrimBeforeSemicolon(s: string): (head: string)
    requires !Contains(s, Fence)
    ensures ';' !in head
    ensures !Contains(head, Fence)
    ensures Contains(s, head)
    ensures ';' in s ==> CutAtSemicolon(s, head + ";")
    ensures ';' !in s ==> head == Trim(s)
  {
    var b := Before(s, ";");
    ContainsPrefix(s, |b|);
    assert s[..|b|] == b;
    TrimContained(b);
    ContainsTransitive(s, b, Trim(b));
    AbsentFromInfix(s, Trim(b), Fence);
    AbsentFromInfix(b, Trim(b), ";");
    ContainsChar(Trim(b), ';');
    ContainsChar(s, ';');
    if ';' in s then
      FirstSemicolonCut(s);
      Trim(b)
    else
      Trim(b)
  }

  /** The text before the first `;` ends right before a `;` and holds none. */
  lemma FirstSemicolonCut(s: string)
    requires ';' in s
    ensures CutAtSemicolon(s, Trim(Before(s, ";")) + ";")
  {
    var b := Before(s, ";");
    ContainsChar(s, ';');
    ContainsChar(b, ';');
    assert s[|b|..|b| + 1][0] == s[|b|];
    assert s[..|b|] == b;
  }

  /** `generate_sql`: exactly one completion call over the SQL prompt; its
      content, extracted, is the candidate statement. */
  function GenerateSql(svc: Services, question: string, context: string): (r: Traced<string>)
    ensures r.calls == [Complete(SqlPrompt(question, context))]
    ensures r.result.Ok? <==> svc.complete(SqlPrompt(question, context)).Ok?
    ensures r.result.Ok? ==> r.result.value == ExtractSql(svc.complete(SqlPrompt(question, context)).value)
    ensures r.result.Ok? ==> !Contains(r.result.value, Fence)
  {
    var p := SqlPrompt(question, context);
    match svc.complete(p)
    case Err(e) => Traced(Err(e), [Complete(p)])
    case Ok(content) => Traced(Ok(ExtractSql(content)), [Complete(p)])
  }

  // ---------------------------------------------------------------------------
  // _sanitize_sql and execute_sql
  // ---------------------------------------------------------------------------

  /** `_sanitize_sql`: the nine-word scan and the SELECT entry check. It adds
      no limit: what it accepts is the normalized text itself. */
  function SanitizeSql(lib: SqlParse, sql: string): (r: Result<string, Rejection>)
    ensures r.Ok? <==> NoneOccurs(Forbidden, Normalize(lib, sql)) && StartsWithKeyword(Normalize(lib, sql), "SELECT")
    ensures r.Ok? ==> r.value == Normalize(lib, sql)
    ensures r.Err? && r.error.ForbiddenKeyword? ==>
              exists j :: 0 <= j < |Forbidden| && Forbidden[j] == r.error.word
                          && HasWord(Normalize(lib, sql), r.error.word)
                          && NoneOccurs(Forbidden[..j], Normalize(lib, sql))
    ensures r.Err? ==> r.error.ForbiddenKeyword? || r.error.OnlySelect?
    ensures !NoneOccurs(Forbidden, Normalize(lib, sql)) ==> r.Err? && r.error.ForbiddenKeyword?
  {
    var parsed := Normalize(lib, sql);
    match FirstForbidden(Forbidden, parsed)
    case Some(f) => Err(ForbiddenKeyword(f))
    case None =>
      if !StartsWithKeyword(parsed, "SELECT") then Err(OnlySelect)
      else Ok(parsed)
  }

  /** A text opening with the word WITH cannot open with the word SELECT. */
  lemma WithIsNotSelect(p: string)
    requires StartsWithKeyword(p, "WITH")
    ensures !StartsWithKeyword(p, "SELECT")
  {
    var t := TrimLeft(p);
    assert Lower(t[0]) == Lower('W');
  }

  /** A `WITH` query is refused, and when it holds no forbidden word the
      refusal reads "Only SELECT queries are allowed.". */
  lemma WithQueriesRejected(lib: SqlParse, sql: string)
    requires StartsWithKeyword(Normalize(lib, sql), "WITH")
    ensures SanitizeSql(lib, sql).Err?
    ensures NoneOccurs(Forbidden, Normalize(lib, sql)) ==>
              Message(SanitizeSql(lib, sql).error) == "Only SELECT queries are allowed."
  {
    WithIsNotSelect(Normalize(lib, sql));
  }

  /** `execute_sql`: sanitize, then read. Every failure, a rejection or a
      database error alike, becomes `None`; the database sees only the
      sanitized text, and only after sanitizing succeeded. */
  function ExecuteSql(svc: Services, sql: string): (r: Executed)
    ensures SanitizeSql(svc.lib, sql).Err? ==> r.frame.None? && r.calls == []
    ensures SanitizeSql(svc.lib, sql).Ok? ==> r.calls == [Query(SanitizeSql(svc.lib, sql).value)]
    ensures r.frame.Some? <==> SanitizeSql(svc.lib, sql).Ok? && svc.query(SanitizeSql(svc.lib, sql).value).Ok?
    ensures r.frame.Some? ==> svc.query(SanitizeSql(svc.lib, sql).value) == Ok(r.frame.value)
  {
    match SanitizeSql(svc.lib, sql)
    case Err(_) => Executed(None, [])
    case Ok(safe) =>
      match svc.query(safe)
      case Err(_) => Executed(None, [Query(safe)])
      case Ok(df) => Executed(Some(df), [Query(safe)])
  }

  // ---------------------------------------------------------------------------
  // summarize_results
  // ---------------------------------------------------------------------------

  /** `summarize_results`: an empty frame gets the fixed sentence and no
      model call; otherwise exactly one completion call over the question
      and the frame's head, whose stripped content is the summary. */
  function SummarizeResults(svc: Services, question: string, df: Frame): (r: Traced<string>)
    ensures Empty(df) ==> r == Traced(Ok(NoResults), [])
    ensures !Empty(df) ==> r.calls == [Complete(SummaryPrompt(question, Head(df)))]
    ensures !Empty(df) ==> (r.result.Ok? <==> svc.complete(SummaryPrompt(question, Head(df))).Ok?)
    ensures !Empty(df) && r.result.Ok? ==>
              r.result.value == Trim(svc.complete(SummaryPrompt(question, Head(df))).value)
  {
    if Empty(df) then Traced(Ok(NoResults), [])
    else
      var p := SummaryPrompt(question, Head(df));
      match svc.complete(p)
      case Err(e) => Traced(Err(e), [Complete(p)])
      case Ok(content) => Traced(Ok(Trim(content)), [Complete(p)])
  }
}
