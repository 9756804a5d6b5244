/** The building blocks the three `sanitize_sql` variants share: the sqlparse
    seam, the forbidden-word scan, the entry-keyword test, the FROM-target
    allow-list fold and the `LIMIT 1000` suffix. */
module Guard {
  import opened Base
  import opened PyStr

  /** The write, DDL and privilege keywords, in the order the sanitizers try them. */
  const Forbidden: seq<string> :=
    ["INSERT", "UPDATE", "DELETE", "DROP", "ALTER", "CREATE", "TRUNCATE", "GRANT", "REVOKE"]

  const LimitSuffix: string := " LIMIT 1000"

  /** `ALLOWED_TABLES` of main_app.py. */
  const AllowedTables: set<string> := {"profiles"}

  /** One top-level token of a parsed statement: `is_keyword`, whether its
      `ttype` is `None` (a grouped node: Identifier, Parenthesis, ...), and
      its `value`. */
  datatype Token = Token(isKeyword: bool, isGroup: bool, value: string)

  /** The foreign sqlparse library as the gateway uses it:
      `format(sql, keyword_case='upper', strip_comments=True)` and the
      top-level tokens of `parse(text)[0]`, the first statement only. */
  datatype SqlParse = SqlParse(format: string -> string, firstStatementTokens: string -> seq<Token>)

  /** The `ValueError`s a sanitizer raises. `MultipleStatements` is raised
      only by the corrected main_app variant. */
  datatype Rejection =
    | ForbiddenKeyword(word: string)
    | OnlySelect
    | OnlySelectOrWith
    | TableNotAllowed(table: string)
    | MultipleStatements

  /** The text of the raised `ValueError`. */
  function Message(e: Rejection): string {
    match e
    case ForbiddenKeyword(w) => "Forbidden SQL keyword found: " + w
    case OnlySelect => "Only SELECT queries are allowed."
    case OnlySelectOrWith => "Only SELECT or WITH queries are allowed."
    case TableNotAllowed(t) => "Table '" + t + "' is not allowed."
    case MultipleStatements => "Only one SQL statement is allowed."
  }

  /** `sqlparse.format(sql, ...).strip()`: the text every check inspects. */
  function Normalize(lib: SqlParse, sql: string): string {
    Trim(lib.format(sql))
  }

  // ---------------------------------------------------------------------------
  // Forbidden-word scan
  // ---------------------------------------------------------------------------

  predicate NoneOccurs(words: seq<string>, s: string) {
    forall j :: 0 <= j < |words| ==> !HasWord(s, words[j])
  }

  /** The `for f in forbidden: if re.search(...): raise` loop: the first word,
      in list order, that occurs in `s` as a whole word ignoring case. */
  function FirstForbidden(words: seq<string>, s: string): (r: Option<string>)
    ensures r.None? <==> NoneOccurs(words, s)
    ensures r.Some? ==> exists j :: 0 <= j < |words| && words[j] == r.value
                                    && HasWord(s, r.value) && NoneOccurs(words[..j], s)
  {
    if |words| == 0 then None
    else if SearchWord(s, words[0]) then
      assert NoneOccurs(words[..0], s);
      Some(words[0])
    else
      var r := FirstForbidden(words[1..], s);
      assert r.None? ==> NoneOccurs(words, s) by {
        if r.None? {
          forall j | 0 <= j < |words| ensures !HasWord(s, words[j]) {
            if j > 0 { assert words[j] == words[1..][j - 1]; }
          }
        }
      }
      assert r.Some? ==> exists j :: 0 <= j < |words| && words[j] == r.value
                                     && HasWord(s, r.value) && NoneOccurs(words[..j], s) by {
        if r.Some? {
          var j :| 0 <= j < |words[1..]| && words[1..][j] == r.value
                   && HasWord(s, r.value) && NoneOccurs(words[1..][..j], s);
          assert words[j + 1] == r.value;
          var pre := words[..j + 1];
          forall k | 0 <= k < |pre| ensures !HasWord(s, pre[k]) {
            if k > 0 { assert pre[k] == words[1..][..j][k - 1]; }
          }
        }
      }
      r
  }

  /** The `";"` entry of main_app's list, bracketed by `\b`, matches only a
      semicolon with a word character on both sides. */
  lemma SemicolonNeedsWordNeighbours(s: string, i: int)
    ensures WordAt(s, ";", i) <==>
            0 < i && i + 1 < |s| && s[i] == ';' && IsWordChar(s[i - 1]) && IsWordChar(s[i + 1])
  {
    if 0 <= i < |s| {
      assert s[i..i + 1][0] == s[i];
    }
  }

  /** A keyword none of whose case variants of some letter appears in `s`
      cannot occur in `s`. */
  lemma AbsentLetterBlocksWord(s: string, w: string, m: nat, lo: char)
    requires m < |w| && Lower(w[m]) == lo && 'a' <= lo <= 'z'
    requires lo !in s && Upper(lo) !in s
    ensures !HasWord(s, w)
  {
  }

  /** A text whose only semicolon is followed by a non-word character never
      trips the `\b;\b` entry, whatever surrounds it. */
  lemma LoneSemicolonBeforeSpacePasses(a: string, b: string)
    requires ';' !in a && ';' !in b && |b| > 0 && !IsWordChar(b[0])
    ensures !HasWord(a + ";" + b, ";")
  {
    var s := a + ";" + b;
    forall i | 0 <= i <= |s| - 1
      ensures !WordAt(s, ";", i)
    {
      SemicolonNeedsWordNeighbours(s, i);
      if i < |a| {
        assert s[i] == a[i];
      } else if i > |a| {
        assert s[i] == b[i - |a| - 1];
      } else {
        assert s[i + 1] == b[0];
      }
    }
  }

  /** A keyword glued to a word character on either side (`created_at`,
      `DROPPED`) is not a whole-word match. */
  lemma EmbeddedWordNotMatched(s: string, w: string, i: int)
    requires |w| > 0 && forall k :: 0 <= k < |w| ==> IsWordChar(w[k])
    requires 0 <= i && i + |w| <= |s|
    requires (0 < i && IsWordChar(s[i - 1])) || (i + |w| < |s| && IsWordChar(s[i + |w|]))
    ensures !WordAt(s, w, i)
  {
    if EqualsIgnoreCase(s[i..i + |w|], w) {
      assert Lower(s[i]) == Lower(w[0]);
      assert Lower(s[i + |w| - 1]) == Lower(w[|w| - 1]);
      assert s[i] == s[i..i + |w|][0];
      assert s[i + |w| - 1] == s[i..i + |w|][|w| - 1];
    }
  }

  // ---------------------------------------------------------------------------
  // Entry keyword
  // ---------------------------------------------------------------------------

  /** `re.search(r"^\s*KW\b", s, flags=re.IGNORECASE)` for a keyword `kw`:
      after the leading whitespace, `kw` ignoring case, then a word boundary. */
  predicate StartsWithKeyword(s: string, kw: string) {
    var t := TrimLeft(s);
    |kw| <= |t| && EqualsIgnoreCase(t[..|kw|], kw) && Boundary(t, |kw|)
  }

  // ---------------------------------------------------------------------------
  // LIMIT suffix
  // ---------------------------------------------------------------------------

  /** `if "LIMIT" not in parsed.upper(): parsed += " LIMIT 1000"` */
  function AddLimit(s: string): (r: string)
    ensures Contains(UpperStr(r), "LIMIT")
    ensures r == s || r == s + LimitSuffix
    ensures r == s <==> Contains(UpperStr(s), "LIMIT")
  {
    if Contains(UpperStr(s), "LIMIT") then s
    else
      SuffixSaysLimit(s);
      s + LimitSuffix
  }

  /** The appended clause itself puts LIMIT into the upper-cased text. */
  lemma SuffixSaysLimit(s: string)
    ensures Contains(UpperStr(s + LimitSuffix), "LIMIT")
  {
    var t := s + LimitSuffix;
    var u := UpperStr(t);
    forall k | 0 <= k < 5
      ensures u[|s| + 1 + k] == "LIMIT"[k]
    {
      assert t[|s| + 1 + k] == LimitSuffix[1 + k];
    }
    assert u[|s| + 1..|s| + 6] == "LIMIT";
    assert OccursAt(u, "LIMIT", |s| + 1);
  }

  /** A statement with exactly one `;`, as its last character. */
  predicate TerminatedOnce(s: string) {
    |s| > 0 && s[|s| - 1] == ';' && ';' !in s[..|s| - 1]
  }

  /** The statement with one trailing `;` and the blanks before it removed;
      a text not ending in `;` is kept whole. */
  function DropTerminator(p: string): (body: string)
    ensures body <= p
    ensures |p| > 0 && p[|p| - 1] == ';' ==>
              |body| < |p| && forall i :: |body| <= i < |p| - 1 ==> IsSpace(p[i])
    ensures !(|p| > 0 && p[|p| - 1] == ';') ==> body == p
  {
    if |p| > 0 && p[|p| - 1] == ';' then TrimRight(p[..|p| - 1]) else p
  }

  /** A terminated statement loses its only `;` to `DropTerminator`. */
  lemma DropTerminatorLeavesNone(p: string)
    requires TerminatedOnce(p)
    ensures ';' !in DropTerminator(p)
  {
    var body := DropTerminator(p);
    assert body == p[..|p| - 1][..|body|];
  }

  lemma LimitAddsNoSemicolon(body: string)
    requires ';' !in body
    ensures ';' !in AddLimit(body)
  {
    assert ';' !in LimitSuffix;
  }

  /** The limit step changes nothing the second time. */
  lemma AddLimitIdempotent(s: string)
    ensures AddLimit(AddLimit(s)) == AddLimit(s)
  {
  }

  // ---------------------------------------------------------------------------
  // FROM-target allow-list (main_app.py)
  // ---------------------------------------------------------------------------

  predicate IsFromKeyword(t: Token) {
    t.isKeyword && UpperStr(t.value) == "FROM"
  }

  /** A token the armed loop inspects: a group that is not itself `FROM`. */
  predicate IsTarget(t: Token) {
    !IsFromKeyword(t) && t.isGroup
  }

  predicate TableAllowed(name: string) {
    LowerStr(name) in AllowedTables
  }

  predicate NoTargetBetween(toks: seq<Token>, a: int, j: int)
    requires 0 <= a <= j <= |toks|
  {
    forall k :: a < k < j ==> !IsTarget(toks[k])
  }

  /** The loop's `from_clause` flag on reaching token `j`: a `FROM` occurs
      before `j` and no target lies between it and `j`. */
  ghost predicate ArmedAt(toks: seq<Token>, j: int) {
    exists a :: 0 <= a < j <= |toks| && IsFromKeyword(toks[a]) && NoTargetBetween(toks, a, j)
  }

  /** Token `j` is the first group after some `FROM`: the one the loop checks. */
  ghost predicate Checked(toks: seq<Token>, j: int) {
    0 <= j < |toks| && IsTarget(toks[j]) && ArmedAt(toks, j)
  }

  /** Every checked target at or after `i` is allowed. */
  ghost predicate AllowedFrom(toks: seq<Token>, i: int) {
    forall j :: i <= j && Checked(toks, j) ==> TableAllowed(toks[j].value)
  }

  ghost predicate AllTargetsAllowed(toks: seq<Token>) {
    AllowedFrom(toks, 0)
  }

  /** Token `j` is the first checked target at or after `i` that is not allowed. */
  ghost predicate FirstBadFrom(toks: seq<Token>, i: int, j: int) {
    i <= j && Checked(toks, j) && !TableAllowed(toks[j].value)
    && forall j' :: i <= j' < j && Checked(toks, j') ==> TableAllowed(toks[j'].value)
  }

  /** The loop of main_app.py from token `i` on, with flag `armed`. */
  function TableScan(toks: seq<Token>, i: nat, armed: bool): Option<string>
    requires i <= |toks|
    decreases |toks| - i
  {
    if i == |toks| then None
    else if IsFromKeyword(toks[i]) then TableScan(toks, i + 1, true)
    else if armed && toks[i].isGroup then
      if TableAllowed(toks[i].value) then TableScan(toks, i + 1, false) else Some(toks[i].value)
    else TableScan(toks, i + 1, armed)
  }

  lemma ArmedStep(toks: seq<Token>, i: int)
    requires 0 <= i < |toks|
    ensures ArmedAt(toks, i + 1) <==>
            IsFromKeyword(toks[i]) || (!IsTarget(toks[i]) && ArmedAt(toks, i))
  {
    if IsFromKeyword(toks[i]) {
      assert NoTargetBetween(toks, i, i + 1);
    } else if ArmedAt(toks, i + 1) {
      var a :| 0 <= a < i + 1 <= |toks| && IsFromKeyword(toks[a]) && NoTargetBetween(toks, a, i + 1);
      assert NoTargetBetween(toks, a, i);
    } else if !IsTarget(toks[i]) && ArmedAt(toks, i) {
      var a :| 0 <= a < i <= |toks| && IsFromKeyword(toks[a]) && NoTargetBetween(toks, a, i);
      assert NoTargetBetween(toks, a, i + 1);
      assert false;
    }
  }

  /** A token that is not checked, or checked and allowed, changes neither
      whether the rest is allowed nor which target is the first bad one. */
  lemma PassStep(toks: seq<Token>, i: int)
    requires 0 <= i < |toks|
    requires !Checked(toks, i) || TableAllowed(toks[i].value)
    ensures AllowedFrom(toks, i) <==> AllowedFrom(toks, i + 1)
    ensures forall j :: FirstBadFrom(toks, i + 1, j) ==> FirstBadFrom(toks, i, j)
  {
  }

  /** The loop, started at `i` in the state the tokens before `i` put it in,
      rejects exactly the first checked target outside the allow-list. */
  lemma {:induction false} TableScanSpec(toks: seq<Token>, i: nat, armed: bool)
    requires i <= |toks| && armed == ArmedAt(toks, i)
    ensures TableScan(toks, i, armed).None? <==> AllowedFrom(toks, i)
    ensures TableScan(toks, i, armed).Some? ==>
            exists j :: FirstBadFrom(toks, i, j) && TableScan(toks, i, armed).value == toks[j].value
    decreases |toks| - i
  {
    if i < |toks| {
      ArmedStep(toks, i);
      var r := TableScan(toks, i, armed);
      if IsFromKeyword(toks[i]) || !(armed && toks[i].isGroup) {
        var armed' := IsFromKeyword(toks[i]) || armed;
        assert r == TableScan(toks, i + 1, armed');
        TableScanSpec(toks, i + 1, armed');
        assert !Checked(toks, i);
        PassStep(toks, i);
      } else if TableAllowed(toks[i].value) {
        assert r == TableScan(toks, i + 1, false);
        TableScanSpec(toks, i + 1, false);
        PassStep(toks, i);
      } else {
        assert Checked(toks, i);
        assert FirstBadFrom(toks, i, i);
      }
    }
  }

  /** The FROM check of main_app.py over a whole statement: the first checked
      target outside the allow-list, if any. */
  function FirstDisallowedTable(toks: seq<Token>): (r: Option<string>)
    ensures r.None? <==> AllTargetsAllowed(toks)
    ensures r.Some? ==> exists j :: FirstBadFrom(toks, 0, j) && r.value == toks[j].value
  {
    TableScanSpec(toks, 0, false);
    TableScan(toks, 0, false)
  }
}
