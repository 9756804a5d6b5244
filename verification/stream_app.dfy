/** stream_app.py: the dashboard over `RAG_Engine`. Modelled are the column
    lookup, the choice of plot, the submit button and the request block that
    runs the engine's four stages while the processing flag is set. */
module StreamApp {
  import opened Base
  import opened PyStr
  import opened RagEngine

  // ---------------------------------------------------------------------------
  // safe_column and the plot choice of `visualize`
  // ---------------------------------------------------------------------------

  /** `safe_column`: the first candidate, in list order, that is one of the
      columns, or `None` when there is none. */
  function SafeColumn(columns: seq<string>, candidates: seq<string>): (r: Option<string>)
    ensures r.None? <==> forall i :: 0 <= i < |candidates| ==> candidates[i] !in columns
    ensures r.Some? ==> r.value in columns
    ensures r.Some? ==> exists i :: 0 <= i < |candidates| && candidates[i] == r.value
                                    && forall j :: 0 <= j < i ==> candidates[j] !in columns
  {
    if |candidates| == 0 then None
    else if candidates[0] in columns then Some(candidates[0])
    else
      var r := SafeColumn(columns, candidates[1..]);
      assert forall i :: 0 < i < |candidates| ==> candidates[i] == candidates[1..][i - 1];
      assert r.Some? ==> exists i :: 0 <= i < |candidates| && candidates[i] == r.value
                                     && forall j :: 0 <= j < i ==> candidates[j] !in columns by {
        if r.Some? {
          var i :| 0 <= i < |candidates[1..]| && candidates[1..][i] == r.value
                   && forall j :: 0 <= j < i ==> candidates[1..][j] !in columns;
          assert candidates[i + 1] == r.value;
        }
      }
      r
  }

  /** `c` is the first name of the list, in list order, that is a column. */
  ghost predicate FirstPresent(columns: seq<string>, names: seq<string>, c: string) {
    exists i :: 0 <= i < |names| && names[i] == c && c in columns
                && forall j :: 0 <= j < i ==> names[j] !in columns
  }

  /** Whether some name of the list is a column. */
  predicate HasAny(columns: seq<string>, names: seq<string>) {
    exists i :: 0 <= i < |names| && names[i] in columns
  }

  const LatitudeNames: seq<string> := ["latitude", "LATITUDE"]
  const LongitudeNames: seq<string> := ["longitude", "LONGITUDE"]
  const TemperatureNames: seq<string> := ["temperature", "TEMP"]
  const PressureNames: seq<string> := ["pressure", "PRES"]

  /** What `visualize` draws. `RawData` only shows a notice: the frame
      itself is displayed by the caller, not here. */
  datatype Plot =
    | NoData
    | MapPlot(latitude: string, longitude: string)
    | ProfilePlot(pressure: string, temperature: string)
    | RawData

  /** The plot decision of `visualize`. The column names found are never
      empty, so Python's truthiness test on them is a presence test. */
  function ChoosePlot(df: Frame): (p: Plot)
    ensures p.NoData? <==> Empty(df)
    ensures p.MapPlot? <==>
              !Empty(df) && HasAny(df.columns, LatitudeNames) && HasAny(df.columns, LongitudeNames)
    ensures p.ProfilePlot? <==>
              && !Empty(df) && !(HasAny(df.columns, LatitudeNames) && HasAny(df.columns, LongitudeNames))
              && HasAny(df.columns, PressureNames) && HasAny(df.columns, TemperatureNames)
    ensures p.MapPlot? ==> p.latitude in df.columns && p.longitude in df.columns
    ensures p.ProfilePlot? ==> p.pressure in df.columns && p.temperature in df.columns
    ensures p.MapPlot? ==> && FirstPresent(df.columns, LatitudeNames, p.latitude)
                           && FirstPresent(df.columns, LongitudeNames, p.longitude)
    ensures p.ProfilePlot? ==> && FirstPresent(df.columns, PressureNames, p.pressure)
                               && FirstPresent(df.columns, TemperatureNames, p.temperature)
  {
    if Empty(df) then NoData
    else
      var lat := SafeColumn(df.columns, LatitudeNames);
      var lon := SafeColumn(df.columns, LongitudeNames);
      var temp := SafeColumn(df.columns, TemperatureNames);
      var pres := SafeColumn(df.columns, PressureNames);
      if lat.Some? && lon.Some? then MapPlot(lat.value, lon.value)
      else if pres.Some? && temp.Some? then ProfilePlot(pres.value, temp.value)
      else RawData
  }

  // ---------------------------------------------------------------------------
  // Session state, the submit button and the request block
  // ---------------------------------------------------------------------------

  /** What `last_result` holds: the summary, the generated SQL, the frame. */
  datatype Display = Display(summary: string, sql: string, frame: Option<Frame>)

  /** The session entries the request flow reads and writes. `lastResult`
      is `None` when the entry is absent or set to `None`. */
  datatype Session = Session(processing: bool, userQuery: string, k: int, lastResult: Option<Display>)

  const DefaultSummary: string := "Query executed successfully."

  /** The Submit button: a question with a non-blank character starts a
      request, storing the question as typed and the slider's `k`; a blank
      question only shows a warning and leaves the session as it was. */
  function Submit(s: Session, question: string, slider: int): (r: Session)
    ensures (forall i :: 0 <= i < |question| ==> IsSpace(question[i])) ==> r == s
    ensures (exists i :: 0 <= i < |question| && !IsSpace(question[i])) ==>
              r.processing && r.userQuery == question && r.k == slider && r.lastResult == s.lastResult
  {
    TrimEmptyIffBlank(question);
    if Trim(question) != "" then s.(processing := true, userQuery := question, k := slider)
    else s
  }

  /** Whether a summary prompt was sent. */
  predicate SummaryCalled(calls: seq<Call>) {
    exists i :: 0 <= i < |calls| && calls[i].Complete? && calls[i].prompt.SummaryPrompt?
  }

  /** Steps 3 and 4 of the `try` block for a generated statement: execute
      it, and summarize only a non-empty frame. A rejected statement makes
      no call; otherwise the first call is the query with the sanitized
      statement, and a second call, if any, is the summary prompt, sent
      exactly when a non-empty frame came back. Only the summary call can
      fail the run: a database error, like a rejection, ends it successfully
      with no frame and the default summary. `ExecuteSummaryOutcome` states
      what the summary call is and what it decides. */
  function ExecuteAndSummarize(svc: Services, question: string, sql: string): (r: Traced<Display>)
    ensures r.result.Ok? ==> r.result.value.sql == sql
    ensures |r.calls| <= 2
    ensures |r.calls| >= 1 ==> r.calls[0].Query?
    ensures |r.calls| == 2 ==> r.calls[1].Complete? && r.calls[1].prompt.SummaryPrompt?
    ensures RagEngine.SanitizeSql(svc.lib, sql).Err? ==> r == Traced(Ok(Display(DefaultSummary, sql, None)), [])
    ensures r.result.Ok? && |r.calls| < 2 ==> r.result.value.summary == DefaultSummary
    ensures r.result.Ok? ==> r.result.value.frame == ExecuteSql(svc, sql).frame
    ensures |r.calls| == 2 <==> ExecuteSql(svc, sql).frame.Some? && !Empty(ExecuteSql(svc, sql).frame.value)
    ensures r.result.Err? ==> |r.calls| == 2
  {
    SummarizeFrame(svc, question, sql, ExecuteSql(svc, sql))
  }

  /** The summary step of `ExecuteAndSummarize`: the second call is the
      summary prompt over the question and the head of the frame
      `execute_sql` returned; the run fails exactly when that call fails,
      and otherwise stores its stripped reply as the summary. */
  lemma ExecuteSummaryOutcome(svc: Services, question: string, sql: string)
    ensures var r := ExecuteAndSummarize(svc, question, sql);
            |r.calls| == 2 ==>
              && ExecuteSql(svc, sql).frame.Some?
              && r.calls[1] == Complete(SummaryPrompt(question, Head(ExecuteSql(svc, sql).frame.value)))
              && (r.result.Err? <==> svc.complete(r.calls[1].prompt).Err?)
              && (r.result.Ok? ==> r.result.value.summary == Trim(svc.complete(r.calls[1].prompt).value))
  {
    var ex := ExecuteSql(svc, sql);
    var r := SummarizeFrame(svc, question, sql, ex);
    assert ExecuteAndSummarize(svc, question, sql) == r;
    if |r.calls| == 2 {
      assert ex.frame.Some? && !Empty(ex.frame.value);
      assert r.calls[1] == Complete(SummaryPrompt(question, Head(ex.frame.value)));
    }
  }

  /** Step 4 on what `execute_sql` returned: a non-empty frame adds the
      summary prompt to the calls, anything else keeps the default summary. */
  function SummarizeFrame(svc: Services, question: string, sql: string, ex: Executed): (r: Traced<Display>)
    ensures r.result.Ok? ==> r.result.value.sql == sql && r.result.value.frame == ex.frame
    ensures ex.frame.Some? && !Empty(ex.frame.value) ==>
              r.calls == ex.calls + [Complete(SummaryPrompt(question, Head(ex.frame.value)))]
    ensures !(ex.frame.Some? && !Empty(ex.frame.value)) ==>
              r == Traced(Ok(Display(DefaultSummary, sql, ex.frame)), ex.calls)
    ensures ex.frame.Some? && !Empty(ex.frame.value) ==>
              (r.result.Err? <==> svc.complete(SummaryPrompt(question, Head(ex.frame.value))).Err?)
    ensures ex.frame.Some? && !Empty(ex.frame.value) && r.result.Ok? ==>
              r.result.value.summary == Trim(svc.complete(SummaryPrompt(question, Head(ex.frame.value))).value)
  {
    if ex.frame.Some? && !Empty(ex.frame.value) then
      var sum := SummarizeResults(svc, question, ex.frame.value);
      var calls := ex.calls + sum.calls;
      match sum.result
      case Err(e) => Traced(Err(e), calls)
      case Ok(summary) => Traced(Ok(Display(summary, sql, ex.frame)), calls)
    else
      Traced(Ok(Display(DefaultSummary, sql, ex.frame)), ex.calls)
  }

  /** A database error ends steps 3 and 4 successfully after the one query,
      with no frame and the default summary. */
  lemma ExecuteDatabaseError(svc: Services, question: string, sql: string)
    requires var safe := RagEngine.SanitizeSql(svc.lib, sql);
             safe.Ok? && svc.query(safe.value).Err?
    ensures ExecuteAndSummarize(svc, question, sql)
              == Traced(Ok(Display(DefaultSummary, sql, None)), [Query(RagEngine.SanitizeSql(svc.lib, sql).value)])
  {
    var safe := RagEngine.SanitizeSql(svc.lib, sql).value;
    assert ExecuteSql(svc, sql) == Executed(None, [Query(safe)]);
  }

  /** An accepted statement is queried first, in its sanitized form. */
  lemma ExecuteQueriesFirst(svc: Services, question: string, sql: string)
    ensures var r := ExecuteAndSummarize(svc, question, sql);
            RagEngine.SanitizeSql(svc.lib, sql).Ok? ==>
              |r.calls| >= 1 && r.calls[0] == Query(RagEngine.SanitizeSql(svc.lib, sql).value)
  {
  }

  /** The summary prompt follows exactly when a non-empty frame came back. */
  lemma ExecuteSummarizesRows(svc: Services, question: string, sql: string)
    ensures var r := ExecuteAndSummarize(svc, question, sql);
            r.result.Ok? ==>
              (|r.calls| == 2 <==> r.result.value.frame.Some? && !Empty(r.result.value.frame.value))
  {
  }

  /** The calls of `ExecuteAndSummarize`: a query can only be the first
      call and carries the sanitized statement, and a summary prompt was
      sent exactly when there are two calls. */
  lemma ExecuteCalls(svc: Services, question: string, sql: string)
    ensures var calls := ExecuteAndSummarize(svc, question, sql).calls;
            forall i :: 0 <= i < |calls| && calls[i].Query? ==>
              i == 0 && RagEngine.SanitizeSql(svc.lib, sql) == Ok(calls[i].sql)
    ensures var calls := ExecuteAndSummarize(svc, question, sql).calls;
            SummaryCalled(calls) <==> |calls| == 2
  {
    var calls := ExecuteAndSummarize(svc, question, sql).calls;
    ExecuteQueriesFirst(svc, question, sql);
    ExecuteSummarizesRows(svc, question, sql);
    CallsShape(calls);
    if |calls| > 0 {
      assert RagEngine.SanitizeSql(svc.lib, sql).Ok?;
    }
  }

  /** A query followed by at most a summary prompt. */
  lemma CallsShape(calls: seq<Call>)
    requires |calls| <= 2
    requires |calls| >= 1 ==> calls[0].Query?
    requires |calls| == 2 ==> calls[1].Complete? && calls[1].prompt.SummaryPrompt?
    ensures forall i :: 0 <= i < |calls| && calls[i].Query? ==> i == 0
    ensures SummaryCalled(calls) <==> |calls| == 2
  {
  }

  /** The `try` block: retrieve, generate, then execute and summarize; each
      stage consumes the previous one's output, and an exception from any
      stage ends the run. */
  function Pipeline(svc: Services, question: string, k: int): (r: Traced<Display>)
    ensures |r.calls| >= 1 && r.calls[0] == Search(question, k)
    ensures svc.search(question, k).Err? ==> r.result.Err? && |r.calls| == 1
    ensures |r.calls| >= 2 ==>
              && svc.search(question, k).Ok?
              && r.calls[1] == Complete(SqlPrompt(question, Join(svc.search(question, k).value, '\n')))
    ensures r.result.Ok? ==>
              && |r.calls| >= 2
              && svc.complete(r.calls[1].prompt).Ok?
              && r.result.value.sql == RagEngine.ExtractSql(svc.complete(r.calls[1].prompt).value)
  {
    var ctx := RetrieveContext(svc, question, k);
    match ctx.result
    case Err(e) => Traced(Err(e), ctx.calls)
    case Ok(context) =>
      var rest := FromContext(svc, question, context);
      Traced(rest.result, ctx.calls + rest.calls)
  }

  /** Steps 2 to 4 on a retrieved context: the SQL prompt comes first, and a
      stored result carries the statement extracted from its reply. */
  function FromContext(svc: Services, question: string, context: string): (r: Traced<Display>)
    ensures |r.calls| >= 1 && r.calls[0] == Complete(SqlPrompt(question, context))
    ensures r.result.Ok? ==>
              && svc.complete(SqlPrompt(question, context)).Ok?
              && r.result.value.sql == RagEngine.ExtractSql(svc.complete(SqlPrompt(question, context)).value)
  {
    var gen := GenerateSql(svc, question, context);
    match gen.result
    case Err(e) => Traced(Err(e), gen.calls)
    case Ok(sql) =>
      var fin := ExecuteAndSummarize(svc, question, sql);
      Traced(fin.result, gen.calls + fin.calls)
  }

  /** The SQL prompt the pipeline sends once retrieval succeeded. */
  function SqlPromptFor(svc: Services, question: string, k: int): Prompt
    requires svc.search(question, k).Ok?
  {
    SqlPrompt(question, Join(svc.search(question, k).value, '\n'))
  }

  /** The statement the first two stages produce, if they both succeed. */
  function Generated(svc: Services, question: string, k: int): Option<string> {
    if svc.search(question, k).Ok? && svc.complete(SqlPromptFor(svc, question, k)).Ok? then
      Some(RagEngine.ExtractSql(svc.complete(SqlPromptFor(svc, question, k)).value))
    else None
  }

  /** Neither a query nor a summary prompt. */
  predicate EarlyCall(c: Call) {
    c.Search? || (c.Complete? && c.prompt.SqlPrompt?)
  }

  /** A run that gets a statement consists of the search, the SQL prompt,
      then whatever executing and summarizing that statement does. */
  lemma PipelineStages(svc: Services, question: string, k: int)
    requires svc.search(question, k).Ok? && svc.complete(SqlPromptFor(svc, question, k)).Ok?
    ensures var fin := ExecuteAndSummarize(svc, question, Generated(svc, question, k).value);
            Pipeline(svc, question, k)
              == Traced(fin.result, [Search(question, k), Complete(SqlPromptFor(svc, question, k))] + fin.calls)
  {
    var context := Join(svc.search(question, k).value, '\n');
    var p := SqlPrompt(question, context);
    assert p == SqlPromptFor(svc, question, k);
    var sql := RagEngine.ExtractSql(svc.complete(p).value);
    assert Generated(svc, question, k).value == sql;
    var fin := ExecuteAndSummarize(svc, question, sql);
    var rest := FromContext(svc, question, context);
    FromContextStages(svc, question, context);
    assert rest == Traced(fin.result, [Complete(p)] + fin.calls);
    var ctx := RetrieveContext(svc, question, k);
    assert ctx == Traced(Ok(context), [Search(question, k)]);
    assert Pipeline(svc, question, k) == Traced(rest.result, ctx.calls + rest.calls);
    PrependTwo(Search(question, k), Complete(p), fin.calls);
  }

  lemma PrependTwo(a: Call, b: Call, rest: seq<Call>)
    ensures [a] + ([b] + rest) == [a, b] + rest
  {
  }

  /** Once the SQL prompt is answered, the rest of the run is executing and
      summarizing the extracted statement. */
  lemma FromContextStages(svc: Services, question: string, context: string)
    requires svc.complete(SqlPrompt(question, context)).Ok?
    ensures var sql := RagEngine.ExtractSql(svc.complete(SqlPrompt(question, context)).value);
            var fin := ExecuteAndSummarize(svc, question, sql);
            FromContext(svc, question, context)
              == Traced(fin.result, [Complete(SqlPrompt(question, context))] + fin.calls)
  {
    var gen := GenerateSql(svc, question, context);
    assert gen.result == Ok(RagEngine.ExtractSql(svc.complete(SqlPrompt(question, context)).value));
  }

  /** A run that gets no statement fails after at most the search and the
      SQL prompt. */
  lemma PipelineStopsEarly(svc: Services, question: string, k: int)
    requires Generated(svc, question, k).None?
    ensures Pipeline(svc, question, k).result.Err?
    ensures var calls := Pipeline(svc, question, k).calls;
            |calls| <= 2 && forall i :: 0 <= i < |calls| ==> EarlyCall(calls[i])
  {
    var ctx := RetrieveContext(svc, question, k);
    if svc.search(question, k).Ok? {
      var context := Join(svc.search(question, k).value, '\n');
      assert ctx.result == Ok(context);
      var gen := GenerateSql(svc, question, context);
      assert Pipeline(svc, question, k).calls == ctx.calls + gen.calls;
    }
  }

  /** Behind two calls that are not queries, a trace whose only possible
      query is its first call puts that query third. */
  lemma QueriesAfterTwo(a: Call, b: Call, rest: seq<Call>)
    requires !a.Query? && !b.Query?
    requires forall i :: 0 <= i < |rest| && rest[i].Query? ==> i == 0
    ensures forall i :: 0 <= i < |[a, b] + rest| && ([a, b] + rest)[i].Query? ==>
              i == 2 && ([a, b] + rest)[i] == rest[0]
  {
    var calls := [a, b] + rest;
    forall i | 0 <= i < |calls| && calls[i].Query?
      ensures i == 2 && calls[i] == rest[0]
    {
      assert calls[i] == rest[i - 2];
    }
  }

  /** The database is only ever sent the sanitized form of the generated
      statement: a query call is the third call, right after the SQL
      prompt, and carries what `_sanitize_sql` returned for that reply. */
  lemma QueriesAreSanitized(svc: Services, question: string, k: int)
    ensures var calls := Pipeline(svc, question, k).calls;
            forall i :: 0 <= i < |calls| && calls[i].Query? ==>
              && i == 2
              && svc.complete(calls[1].prompt).Ok?
              && RagEngine.SanitizeSql(svc.lib, RagEngine.ExtractSql(svc.complete(calls[1].prompt).value))
                 == Ok(calls[i].sql)
  {
    if Generated(svc, question, k).None? {
      PipelineStopsEarly(svc, question, k);
    } else {
      PipelineStages(svc, question, k);
      var p := SqlPromptFor(svc, question, k);
      var sql := Generated(svc, question, k).value;
      assert sql == RagEngine.ExtractSql(svc.complete(p).value);
      var fin := ExecuteAndSummarize(svc, question, sql);
      ExecuteCalls(svc, question, sql);
      var calls := Pipeline(svc, question, k).calls;
      assert calls == [Search(question, k), Complete(p)] + fin.calls;
      QueriesAfterTwo(Search(question, k), Complete(p), fin.calls);
      assert calls[1].prompt == p;
      forall i | 0 <= i < |calls| && calls[i].Query?
        ensures i == 2 && RagEngine.SanitizeSql(svc.lib, sql) == Ok(calls[i].sql)
      {
        assert calls[i] == fin.calls[0];
      }
    }
  }

  /** Whether a summary prompt was sent; the first two calls never are one. */
  lemma SummaryCalledAfterTwo(a: Call, b: Call, rest: seq<Call>)
    requires !b.Complete? || b.prompt.SqlPrompt?
    requires !a.Complete?
    ensures SummaryCalled([a, b] + rest) <==> SummaryCalled(rest)
  {
    var calls := [a, b] + rest;
    if SummaryCalled(calls) {
      var i :| 0 <= i < |calls| && calls[i].Complete? && calls[i].prompt.SummaryPrompt?;
      assert calls[i] == rest[i - 2];
    }
    if SummaryCalled(rest) {
      var i :| 0 <= i < |rest| && rest[i].Complete? && rest[i].prompt.SummaryPrompt?;
      assert calls[i + 2] == rest[i];
    }
  }

  /** The summarizer runs exactly when the executed statement produced a
      non-empty frame; without it the summary is the default sentence. */
  lemma SummaryOnlyForRows(svc: Services, question: string, k: int)
    ensures var r := Pipeline(svc, question, k);
            r.result.Ok? ==>
              && (SummaryCalled(r.calls) <==> r.result.value.frame.Some? && !Empty(r.result.value.frame.value))
              && (!SummaryCalled(r.calls) ==> r.result.value.summary == DefaultSummary)
  {
    if Generated(svc, question, k).None? {
      PipelineStopsEarly(svc, question, k);
    } else {
      PipelineStages(svc, question, k);
      var sql := Generated(svc, question, k).value;
      var fin := ExecuteAndSummarize(svc, question, sql);
      ExecuteCalls(svc, question, sql);
      ExecuteSummarizesRows(svc, question, sql);
      SummaryCalledAfterTwo(Search(question, k), Complete(SqlPromptFor(svc, question, k)), fin.calls);
    }
  }

  /** A statement the sanitizer rejects is not an error for the dashboard:
      the run succeeds without touching the database, with no frame and the
      default "Query executed successfully." summary. */
  lemma RejectedStatementReportsSuccess(svc: Services, question: string, k: int)
    requires svc.search(question, k).Ok?
    requires svc.complete(SqlPrompt(question, Join(svc.search(question, k).value, '\n'))).Ok?
    requires var reply := svc.complete(SqlPrompt(question, Join(svc.search(question, k).value, '\n'))).value;
             RagEngine.SanitizeSql(svc.lib, RagEngine.ExtractSql(reply)).Err?
    ensures var reply := svc.complete(SqlPrompt(question, Join(svc.search(question, k).value, '\n'))).value;
            Pipeline(svc, question, k).result == Ok(Display(DefaultSummary, RagEngine.ExtractSql(reply), None))
    ensures |Pipeline(svc, question, k).calls| == 2
  {
  }

  /** A database error is not an error for the dashboard either: the
      sanitized statement is sent, and the run succeeds with no frame and the
      default "Query executed successfully." summary. */
  lemma DatabaseErrorReportsSuccess(svc: Services, question: string, k: int)
    requires Generated(svc, question, k).Some?
    requires var safe := RagEngine.SanitizeSql(svc.lib, Generated(svc, question, k).value);
             safe.Ok? && svc.query(safe.value).Err?
    ensures var sql := Generated(svc, question, k).value;
            Pipeline(svc, question, k)
              == Traced(Ok(Display(DefaultSummary, sql, None)),
                        [Search(question, k), Complete(SqlPromptFor(svc, question, k)),
                         Query(RagEngine.SanitizeSql(svc.lib, sql).value)])
  {
    var sql := Generated(svc, question, k).value;
    PipelineStages(svc, question, k);
    ExecuteDatabaseError(svc, question, sql);
  }

  /** The fourth call of a run is a completion call, and it failed. */
  predicate SummaryFailed(svc: Services, calls: seq<Call>) {
    |calls| == 4 && calls[3].Complete? && svc.complete(calls[3].prompt).Err?
  }

  /** A run fails exactly when retrieval or generation fails, or when the
      summary prompt, the fourth call, fails; a rejected statement or a
      database error never fails it. */
  lemma PipelineFailsExactly(svc: Services, question: string, k: int)
    ensures var r := Pipeline(svc, question, k);
            r.result.Err? <==> Generated(svc, question, k).None? || SummaryFailed(svc, r.calls)
    ensures var r := Pipeline(svc, question, k);
            |r.calls| == 4 ==> r.calls[3].Complete? && r.calls[3].prompt.SummaryPrompt?
  {
    if Generated(svc, question, k).None? {
      PipelineStopsEarly(svc, question, k);
    } else {
      PipelineStages(svc, question, k);
      var sql := Generated(svc, question, k).value;
      var fin := ExecuteAndSummarize(svc, question, sql);
      ExecuteSummaryOutcome(svc, question, sql);
      var calls := Pipeline(svc, question, k).calls;
      assert calls == [Search(question, k), Complete(SqlPromptFor(svc, question, k))] + fin.calls;
      assert |calls| == 4 ==> calls[3] == fin.calls[1];
    }
  }

  /** `last_result` ends up `None` exactly when the run raised: retrieval or
      generation failed, or the summary call failed. */
  lemma ProcessClearsResultExactly(svc: Services, s: Session)
    requires s.processing
    ensures var calls := Process(svc, s).1;
            Process(svc, s).0.lastResult.None? <==>
              Generated(svc, s.userQuery, s.k).None? || SummaryFailed(svc, calls)
  {
    PipelineFailsExactly(svc, s.userQuery, s.k);
  }

  /** One pass of the request block. A session that is not processing is
      left alone. Otherwise the pipeline runs on the stored question and
      `k`; a success is stored, an exception clears `last_result`, and the
      processing flag is reset either way. */
  function Process(svc: Services, s: Session): (r: (Session, seq<Call>))
    ensures !s.processing ==> r == (s, [])
    ensures s.processing ==> !r.0.processing && r.0.userQuery == s.userQuery && r.0.k == s.k
    ensures s.processing ==> r.1 == Pipeline(svc, s.userQuery, s.k).calls
    ensures s.processing ==>
              (r.0.lastResult.None? <==> Pipeline(svc, s.userQuery, s.k).result.Err?)
    ensures s.processing && r.0.lastResult.Some? ==>
              Pipeline(svc, s.userQuery, s.k).result == Ok(r.0.lastResult.value)
  {
    if !s.processing then (s, [])
    else
      var run := Pipeline(svc, s.userQuery, s.k);
      var last := match run.result
                  case Ok(d) => Some(d)
                  case Err(_) => None;
      (s.(processing := false, lastResult := last), run.calls)
  }
}
