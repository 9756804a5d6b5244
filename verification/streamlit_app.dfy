/** streamlit_app.py: the chat front end's own extraction (fence, explanation
    lines, first `;`) and its sanitizer, which admits `WITH` queries, has no
    table allow-list and appends the row limit. */
module StreamlitApp {
  import opened Base
  import opened PyStr
  import opened Guard
  import opened Fences

  // ---------------------------------------------------------------------------
  // Extraction: the tail of `generate_sql`
  // ---------------------------------------------------------------------------

  /** `line.strip().startswith('[')`: a line that opens an explanation. */
  predicate IsMarker(line: string) {
    var t := Trim(line);
    |t| > 0 && t[0] == '['
  }

  /** The `for line in lines` loop: lines are kept until the first marker
      line, which is dropped together with everything after it. */
  function KeepUntilMarker(lines: seq<string>): (kept: seq<string>)
    ensures kept <= lines
    ensures forall k :: 0 <= k < |kept| ==> !IsMarker(kept[k])
    ensures |kept| < |lines| ==> IsMarker(lines[|kept|])
  {
    lines[..FirstMarker(lines, 0)]
  }

  /** The index of the first marker line at or after `i`, or `|lines|`. */
  function FirstMarker(lines: seq<string>, i: nat): (n: nat)
    requires i <= |lines|
    ensures i <= n <= |lines|
    ensures forall k :: i <= k < n ==> !IsMarker(lines[k])
    ensures n < |lines| ==> IsMarker(lines[n])
    decreases |lines| - i
  {
    if i == |lines| || IsMarker(lines[i]) then i else FirstMarker(lines, i + 1)
  }

  /** `if ';' in s: s = s.split(';')[0] + ';'`: the prefix of `s` that ends
      at its first `;`, with no blank stripped before the `;`. */
  function CutAfterSemicolon(s: string): (r: string)
    ensures r <= s
    ensures ';' in s ==> TerminatedOnce(r)
    ensures ';' !in s ==> r == s
  {
    if ';' in s then
      ContainsChar(s, ';');
      var b := Before(s, ";");
      ContainsChar(b, ';');
      assert s[|b|] == s[|b|..|b| + 1][0] == ';';
      assert (b + ";")[..|b|] == b;
      b + ";"
    else
      s
  }

  /** The explanation-free text the line scan keeps. */
  function KeptText(s: string): string {
    Trim(Join(KeepUntilMarker(Split(s, '\n')), '\n'))
  }

  /** The tail of `generate_sql`: strip the reply, remove the fences, keep
      the lines before the first explanation marker, strip again and cut
      after the first `;`. No fence survives, and a `;` in the result is its
      only one and its last character. */
  function ExtractSql(reply: string): (r: string)
    ensures !Contains(r, Fence)
    ensures ';' in r ==> TerminatedOnce(r)
  {
    var s := StripFences(Trim(reply));
    var t := KeptText(s);
    KeptTextHasNoFence(s);
    CutKeepsNoFence(t);
    CutAfterSemicolon(t)
  }

  lemma CutKeepsNoFence(t: string)
    requires !Contains(t, Fence)
    ensures !Contains(CutAfterSemicolon(t), Fence)
  {
    var r := CutAfterSemicolon(t);
    ContainsPrefix(t, |r|);
    assert t[..|r|] == r;
    AbsentFromInfix(t, r, Fence);
  }

  /** The line scan only ever removes text, so it cannot create a fence. */
  lemma KeptTextHasNoFence(s: string)
    requires !Contains(s, Fence)
    ensures !Contains(KeptText(s), Fence)
  {
    var parts := Split(s, '\n');
    var kept := KeepUntilMarker(parts);
    var j := Join(kept, '\n');
    JoinPrefix(kept, parts, '\n');
    JoinSplit(s, '\n');
    ContainsPrefix(s, |j|);
    assert s[..|j|] == j;
    AbsentFromInfix(s, j, Fence);
    TrimContained(j);
    AbsentFromInfix(j, Trim(j), Fence);
  }

  /** No line of the retained text opens an explanation. */
  lemma {:induction false} KeptLinesHaveNoMarker(s: string)
    ensures var kept := Join(KeepUntilMarker(Split(s, '\n')), '\n');
            forall k :: 0 <= k < |Split(kept, '\n')| ==> !IsMarker(Split(kept, '\n')[k])
  {
    var parts := Split(s, '\n');
    var kept := KeepUntilMarker(parts);
    if |kept| == 0 {
      assert Split("", '\n') == [""];
      assert Trim("") == "";
    } else {
      forall k | 0 <= k < |kept|
        ensures '\n' !in kept[k]
      {
        assert kept[k] == parts[k];
      }
      SplitJoin(kept, '\n');
    }
  }

  // ---------------------------------------------------------------------------
  // Sanitizer
  // ---------------------------------------------------------------------------

  /** `^\s*(SELECT|WITH)\b`, ignoring case. */
  predicate StartsWithSelectOrWith(p: string) {
    StartsWithKeyword(p, "SELECT") || StartsWithKeyword(p, "WITH")
  }

  /** `sanitize_sql` of streamlit_app.py: the nine-word scan (no `";"`
      entry), the SELECT-or-WITH entry check, then the limit suffix. */
  function SanitizeSql(lib: SqlParse, sql: string): (r: Result<string, Rejection>)
    ensures r.Ok? <==> NoneOccurs(Forbidden, Normalize(lib, sql)) && StartsWithSelectOrWith(Normalize(lib, sql))
    ensures r.Ok? ==> r.value == AddLimit(Normalize(lib, sql))
    ensures r.Err? && r.error.ForbiddenKeyword? ==>
              exists j :: 0 <= j < |Forbidden| && Forbidden[j] == r.error.word
                          && HasWord(Normalize(lib, sql), r.error.word)
                          && NoneOccurs(Forbidden[..j], Normalize(lib, sql))
    ensures r.Err? ==> r.error.ForbiddenKeyword? || r.error.OnlySelectOrWith?
    ensures !NoneOccurs(Forbidden, Normalize(lib, sql)) ==> r.Err? && r.error.ForbiddenKeyword?
  {
    var parsed := Normalize(lib, sql);
    match FirstForbidden(Forbidden, parsed)
    case Some(f) => Err(ForbiddenKeyword(f))
    case None =>
      if !StartsWithSelectOrWith(parsed) then Err(OnlySelectOrWith)
      else Ok(AddLimit(parsed))
  }

  /** The suffix is appended after a terminator: a terminated statement
      without LIMIT comes back with text after its `;`, so it is no longer
      terminated once. */
  lemma LimitLandsAfterTerminator(p: string)
    requires TerminatedOnce(p) && !Contains(UpperStr(p), "LIMIT")
    ensures var r := AddLimit(p);
            ';' in r && r[|r| - 1] != ';' && !TerminatedOnce(r)
  {
    var r := AddLimit(p);
    assert r == p + LimitSuffix;
    assert r[|p| - 1] == ';';
  }

  /** The extracted `SELECT 1;` becomes `SELECT 1; LIMIT 1000`. */
  lemma SelectOneGetsLimitAfterSemicolon()
    ensures AddLimit("SELECT 1;") == "SELECT 1; LIMIT 1000"
  {
    SelectOneSaysNoLimit();
    assert AddLimit("SELECT 1;") == "SELECT 1;" + LimitSuffix;
  }

  lemma SelectOneSaysNoLimit()
    ensures !Contains(UpperStr("SELECT 1;"), "LIMIT")
  {
    UpperAbsent("SELECT 1;", 'I');
    AbsentCharBlocks(UpperStr("SELECT 1;"), "LIMIT", 1);
  }

  /** The corrected limit step: on a terminated statement the clause goes
      before the `;`. The result always carries LIMIT, stays terminated
      once when the input was, keeps the statement's body, and agrees with
      the plain suffix on text without `;`. */
  function AddLimitBeforeTerminator(p: string): (r: string)
    ensures Contains(UpperStr(r), "LIMIT")
    ensures TerminatedOnce(p) ==> TerminatedOnce(r) && DropTerminator(p) <= r
                                  && Contains(UpperStr(r[..|r| - 1]), "LIMIT")
    ensures ';' !in p ==> r == AddLimit(p)
  {
    if TerminatedOnce(p) then
      LimitInside(p);
      AddLimit(DropTerminator(p)) + ";"
    else
      AddLimit(p)
  }

  /** The limited body followed by the terminator is terminated once, keeps
      the body, and says LIMIT before its `;`. */
  lemma LimitInside(p: string)
    requires TerminatedOnce(p)
    ensures var r := AddLimit(DropTerminator(p)) + ";";
            && TerminatedOnce(r) && DropTerminator(p) <= r
            && Contains(UpperStr(r[..|r| - 1]), "LIMIT") && Contains(UpperStr(r), "LIMIT")
  {
    var body := DropTerminator(p);
    DropTerminatorLeavesNone(p);
    var limited := AddLimit(body);
    LimitAddsNoSemicolon(body);
    var r := limited + ";";
    assert r[..|r| - 1] == limited;
    UpperKeepsLimit(limited, ";");
  }

  /** Text appended after a LIMIT leaves it in the upper-cased whole. */
  lemma UpperKeepsLimit(a: string, b: string)
    requires Contains(UpperStr(a), "LIMIT")
    ensures Contains(UpperStr(a + b), "LIMIT")
  {
    UpperStrAppend(a, b);
    ContainsPrefix(UpperStr(a + b), |a|);
    assert UpperStr(a + b)[..|a|] == UpperStr(a);
    ContainsTransitive(UpperStr(a + b), UpperStr(a), "LIMIT");
  }

  /** The corrected sanitizer: the same checks, with the limit placed
      inside a terminated statement. */
  function SanitizeSqlLimitInside(lib: SqlParse, sql: string): (r: Result<string, Rejection>)
    ensures r.Ok? <==> SanitizeSql(lib, sql).Ok?
    ensures r.Err? ==> r == SanitizeSql(lib, sql)
    ensures r.Ok? && TerminatedOnce(Normalize(lib, sql)) ==> TerminatedOnce(r.value)
    ensures r.Ok? ==> Contains(UpperStr(r.value), "LIMIT")
  {
    match SanitizeSql(lib, sql)
    case Err(e) => Err(e)
    case Ok(_) => Ok(AddLimitBeforeTerminator(Normalize(lib, sql)))
  }

  /** A formatter that leaves a once-terminated statement alone keeps it
      once-terminated after the strip. sqlparse's comment stripping does not
      always: the `;` of `SELECT 1 --;` goes with the comment. */
  lemma UnchangedFormatKeepsTerminator(lib: SqlParse, t: string)
    requires TerminatedOnce(t) && lib.format(t) == t
    ensures TerminatedOnce(Normalize(lib, t))
  {
    TrimTerminated(t);
  }

  /** With the correction, extraction and sanitizing compose: an extracted
      statement whose normalized form still ends in its only `;` keeps that
      single terminator at the end once it passes. */
  lemma ExtractThenSanitizeKeepsTerminator(lib: SqlParse, reply: string)
    requires TerminatedOnce(Normalize(lib, ExtractSql(reply)))
    ensures SanitizeSqlLimitInside(lib, ExtractSql(reply)).Ok? ==>
              TerminatedOnce(SanitizeSqlLimitInside(lib, ExtractSql(reply)).value)
  {
    var e := ExtractSql(reply);
    assert TerminatedOnce(Normalize(lib, e));
  }

  /** The premise above, drawn from the extraction itself: an extracted
      statement holding a `;` is once-terminated, so a formatter that
      leaves it alone lets the corrected sanitizer keep it that way. */
  lemma ExtractedTerminatorSurvives(lib: SqlParse, reply: string)
    requires ';' in ExtractSql(reply) && lib.format(ExtractSql(reply)) == ExtractSql(reply)
    ensures SanitizeSqlLimitInside(lib, ExtractSql(reply)).Ok? ==>
              TerminatedOnce(SanitizeSqlLimitInside(lib, ExtractSql(reply)).value)
  {
    UnchangedFormatKeepsTerminator(lib, ExtractSql(reply));
    ExtractThenSanitizeKeepsTerminator(lib, reply);
  }

  /** Stripping a terminated statement leaves it as it was at the end. */
  lemma TrimTerminated(e: string)
    requires TerminatedOnce(e)
    ensures TerminatedOnce(Trim(e))
  {
    var t := Trim(e);
    TrimAt(e);
    TrimKeepsLast(e);
    assert t[..|t| - 1] == e[Lead(e)..|e| - 1];
  }

  /** A text ending in a non-blank strips to a suffix of itself. */
  lemma TrimKeepsLast(e: string)
    requires |e| > 0 && !IsSpace(e[|e| - 1])
    ensures Lead(e) + |Trim(e)| == |e| && Trim(e) == e[Lead(e)..]
  {
    TrimAt(e);
  }

  // ---------------------------------------------------------------------------
  // A worked reply
  // ---------------------------------------------------------------------------

  /** A tagged fence around `SELECT 1;`, then an explanation line. */
  const ExampleReply: string := SqlFence + ExampleBody
  /** What follows the tag. */
  const ExampleBody: string := "\n" + ExampleInner
  /** The tag's part, stripped. */
  const ExampleInner: string := SelectOne + "\n" + Fence + "\n[explanation]"
  const SelectOne: string := "SELECT 1;"

  lemma ExampleReplyIsStripped()
    ensures Trim(ExampleReply) == ExampleReply
  {
    assert ExampleReply[0] == '`';
    assert ExampleReply[|ExampleReply| - 1] == ']';
    TrimNoEdgeBlank(ExampleReply);
  }

  lemma ExampleTagSplits()
    ensures Contains(ExampleReply, SqlFence) && After(ExampleReply, SqlFence) == ExampleBody
  {
    assert ExampleReply[..6] == SqlFence;
    assert OccursAt(ExampleReply, SqlFence, 0);
    SplitAtFirst(ExampleReply, SqlFence, 0);
    assert ExampleReply[6..] == ExampleBody;
  }

  lemma ExampleBodyHasNoTag()
    ensures !Contains(ExampleBody, SqlFence)
  {
    assert 'q' !in ExampleInner;
    assert 'q' !in ExampleBody;
    AbsentCharBlocks(ExampleBody, SqlFence, 4);
  }

  lemma ExampleBodyStrips()
    ensures Trim(ExampleBody) == ExampleInner
  {
    assert ExampleInner[0] == 'S';
    assert ExampleInner[|ExampleInner| - 1] == ']';
    TrimNoEdgeBlank(ExampleInner);
    assert ExampleBody[1..] == ExampleInner;
    assert IsSpace(ExampleBody[0]);
    assert TrimLeft(ExampleBody) == TrimLeft(ExampleInner);
  }

  lemma ExampleDropsTag()
    ensures DropSqlTag(ExampleReply) == ExampleInner
  {
    ExampleTagSplits();
    ExampleBodyHasNoTag();
    ExampleBodyStrips();
  }

  lemma ExampleInnerCuts()
    ensures Contains(ExampleInner, Fence) && Before(ExampleInner, Fence) == SelectOne + "\n"
  {
    var a := ExampleInner;
    assert a[10..13] == Fence;
    assert OccursAt(a, Fence, 10);
    forall j | 0 <= j < 10
      ensures !OccursAt(a, Fence, j)
    {
      assert a[j..j + 3][0] == a[j];
      assert a[j] != '`';
    }
    SplitAtFirst(a, Fence, 10);
    assert a[..10] == SelectOne + "\n";
  }

  lemma SelectOneLineStrips()
    ensures Trim(SelectOne + "\n") == SelectOne && Trim(SelectOne) == SelectOne
  {
    var t := SelectOne + "\n";
    assert t[0] == 'S';
    assert !IsSpace(t[0]);
    assert TrimLeft(t) == t;
    assert t[..|t| - 1] == SelectOne;
    assert TrimRight(t) == TrimRight(SelectOne);
    TrimNoEdgeBlank(SelectOne);
  }

  /** The fence step turns the example into `SELECT 1;`. */
  lemma ExampleFencesStrip()
    ensures StripFences(Trim(ExampleReply)) == SelectOne
  {
    ExampleReplyIsStripped();
    ExampleDropsTag();
    ExampleInnerCuts();
    SelectOneLineStrips();
  }

  /** The line scan keeps the one-line `SELECT 1;` whole. */
  lemma SelectOneIsKept()
    ensures KeptText(SelectOne) == SelectOne
  {
    assert '\n' !in SelectOne;
    SplitNoSeparator(SelectOne, '\n');
    SelectOneNoMarker();
    assert FirstMarker([SelectOne], 0) == 1;
    assert KeepUntilMarker([SelectOne]) == [SelectOne];
    assert Join([SelectOne], '\n') == SelectOne;
    SelectOneLineStrips();
  }

  /** `SELECT 1;` opens with no `[`, so it is no marker line. */
  lemma SelectOneNoMarker()
    ensures !IsMarker(SelectOne)
  {
    SelectOneLineStrips();
    assert SelectOne[0] == 'S';
  }

  /** Cutting after the first `;` keeps `SELECT 1;` whole. */
  lemma SelectOneSurvivesCut()
    ensures CutAfterSemicolon(SelectOne) == SelectOne
  {
    var s := SelectOne;
    assert s[8..9] == ";";
    forall j | 0 <= j < 8
      ensures !OccursAt(s, ";", j)
    {
      assert s[j..j + 1][0] == s[j];
    }
    SplitAtFirst(s, ";", 8);
    assert ';' in s by {
      assert s[8] == ';';
    }
    assert s[..8] + ";" == s;
  }

  /** A fenced reply followed by an explanation line: the fenced
      `SELECT 1;` extracts to exactly `SELECT 1;`. */
  lemma ExampleExtractsSelectOne()
    ensures ExtractSql(ExampleReply) == SelectOne
  {
    ExampleFencesStrip();
    SelectOneIsKept();
    SelectOneSurvivesCut();
  }
}
