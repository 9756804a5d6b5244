/** main_app.py: the command-line pipeline's sanitizer, the only variant with
    the `";"` entry and the FROM-target allow-list. Its `generate_sql` tail is
    `Fences.StripFences`. */
module MainApp {
  import opened Base
  import opened PyStr
  import opened Guard

  /** main_app's list: the nine keywords, then `";"`. */
  const MainForbidden: seq<string> := Forbidden + [";"]

  /** `sanitize_sql` of main_app.py: forbidden scan, SELECT entry, FROM
      targets, then the LIMIT suffix, each failure raising at once. What it
      accepts and what each rejection names are stated by `SanitizeSqlAccepts`,
      `RejectedWord`, `RejectedEntry` and `RejectedTable`. */
  function SanitizeSql(lib: SqlParse, sql: string): (r: Result<string, Rejection>)
    ensures r.Ok? ==> r.value == AddLimit(Normalize(lib, sql))
    ensures r.Err? ==> r.error.ForbiddenKeyword? || r.error.OnlySelect? || r.error.TableNotAllowed?
  {
    var parsed := Normalize(lib, sql);
    match FirstForbidden(MainForbidden, parsed)
    case Some(f) => Err(ForbiddenKeyword(f))
    case None =>
      if !StartsWithKeyword(parsed, "SELECT") then Err(OnlySelect)
      else
        match FirstDisallowedTable(lib.firstStatementTokens(parsed))
        case Some(t) => Err(TableNotAllowed(t))
        case None => Ok(AddLimit(parsed))
  }

  /** The three checks main_app.py applies to the normalized text `p`. */
  ghost predicate PassesChecks(lib: SqlParse, p: string) {
    && NoneOccurs(MainForbidden, p)
    && StartsWithKeyword(p, "SELECT")
    && AllTargetsAllowed(lib.firstStatementTokens(p))
  }

  /** Accepted exactly when no listed word occurs as a whole word (inside
      quotes too), the text opens with the word SELECT, and every checked
      FROM target is `profiles`; the accepted text carries a LIMIT. */
  lemma SanitizeSqlAccepts(lib: SqlParse, sql: string)
    ensures SanitizeSql(lib, sql).Ok? <==> PassesChecks(lib, Normalize(lib, sql))
    ensures SanitizeSql(lib, sql).Ok? ==> Contains(UpperStr(SanitizeSql(lib, sql).value), "LIMIT")
  {
  }

  /** Each rejection comes from the first failing check in source order and
      names what failed. A keyword rejection names the earliest listed word
      that occurs (list order, not text order). */
  lemma RejectedWord(lib: SqlParse, sql: string)
    ensures var p := Normalize(lib, sql);
            var r := SanitizeSql(lib, sql);
            r.Err? && r.error.ForbiddenKeyword? ==>
              exists j :: 0 <= j < |MainForbidden| && MainForbidden[j] == r.error.word
                          && HasWord(p, r.error.word) && NoneOccurs(MainForbidden[..j], p)
  {
  }

  /** An entry rejection means the keyword scan passed and the text does not
      open with the word SELECT. */
  lemma RejectedEntry(lib: SqlParse, sql: string)
    ensures var p := Normalize(lib, sql);
            var r := SanitizeSql(lib, sql);
            r.Err? && r.error.OnlySelect? ==> NoneOccurs(MainForbidden, p) && !StartsWithKeyword(p, "SELECT")
  {
  }

  /** A table rejection means both earlier checks passed, and it names the
      first checked FROM target outside the allow-list. */
  lemma RejectedTable(lib: SqlParse, sql: string)
    ensures var p := Normalize(lib, sql);
            var r := SanitizeSql(lib, sql);
            r.Err? && r.error.TableNotAllowed? ==>
              && NoneOccurs(MainForbidden, p) && StartsWithKeyword(p, "SELECT")
              && exists j :: FirstBadFrom(lib.firstStatementTokens(p), 0, j)
                             && r.error.table == lib.firstStatementTokens(p)[j].value
  {
    var p := Normalize(lib, sql);
    var r := SanitizeSql(lib, sql);
    if r.Err? && r.error.TableNotAllowed? {
      assert FirstForbidden(MainForbidden, p).None?;
      assert StartsWithKeyword(p, "SELECT");
      assert FirstDisallowedTable(lib.firstStatementTokens(p)) == Some(r.error.table);
    }
  }

  /** The keyword token `FROM` and the keyword token `JOIN`. */
  const FromToken: Token := Token(true, false, "FROM")
  const JoinToken: Token := Token(true, false, "JOIN")

  lemma FromTokenIsFrom()
    ensures IsFromKeyword(FromToken) && !IsFromKeyword(JoinToken)
  {
    assert UpperStr("FROM") == "FROM";
    assert UpperStr("JOIN")[0] == 'J';
  }

  lemma ProfilesAllowed()
    ensures TableAllowed("profiles")
  {
    assert LowerStr("profiles") == "profiles";
  }

  lemma AliasNotAllowed()
    ensures !TableAllowed("profiles p")
  {
    assert |LowerStr("profiles p")| == 10;
  }

  /** An aliased target is one group, `profiles p`, and it is refused. */
  lemma AliasedTableRejected()
    ensures FirstDisallowedTable([FromToken, Token(false, true, "profiles p")]) == Some("profiles p")
  {
    FromTokenIsFrom();
    AliasNotAllowed();
    var toks := [FromToken, Token(false, true, "profiles p")];
    assert TableScan(toks, 1, true) == Some("profiles p");
  }

  /** Only the first group after `FROM` is checked: a joined table is not. */
  lemma JoinedTableUnchecked()
    ensures FirstDisallowedTable([FromToken, Token(false, true, "profiles"), JoinToken, Token(false, true, "users")]).None?
  {
    FromTokenIsFrom();
    ProfilesAllowed();
    var toks := [FromToken, Token(false, true, "profiles"), JoinToken, Token(false, true, "users")];
    assert TableScan(toks, 2, false) == None by {
      assert TableScan(toks, 4, false) == None;
      assert TableScan(toks, 3, false) == None;
    }
    assert TableScan(toks, 1, true) == None;
  }

  /** The corrected sanitizer: everything `SanitizeSql` checks, and then no
      `;` may remain once one trailing terminator is dropped, and the limit is
      added to that body. It accepts a subset of what `SanitizeSql` accepts,
      agrees with it on every text without a `;`, and never returns a `;`. */
  function SanitizeSqlSingleStatement(lib: SqlParse, sql: string): (r: Result<string, Rejection>)
    ensures r.Ok? ==> ';' !in r.value && Contains(UpperStr(r.value), "LIMIT")
    ensures r.Ok? ==> SanitizeSql(lib, sql).Ok?
    ensures ';' !in Normalize(lib, sql) ==> r == SanitizeSql(lib, sql)
    ensures r.Ok? <==> SanitizeSql(lib, sql).Ok? && ';' !in DropTerminator(Normalize(lib, sql))
    ensures SanitizeSql(lib, sql).Err? ==> r == SanitizeSql(lib, sql)
    ensures SanitizeSql(lib, sql).Ok? && ';' in DropTerminator(Normalize(lib, sql)) ==> r == Err(MultipleStatements)
  {
    var first := SanitizeSql(lib, sql);
    if first.Err? then first
    else
      var body := DropTerminator(Normalize(lib, sql));
      if ';' in body then Err(MultipleStatements)
      else
        LimitAddsNoSemicolon(body);
        Ok(AddLimit(body))
  }

  /** Two statements joined by `"; "`, the second naming a table outside the
      allow-list. sqlparse's first statement is `SELECT * FROM profiles LIMIT 5;`. */
  const Stacked: string := StackedFirst + ";" + StackedSecond
  const StackedFirst: string := "SELECT * FROM profiles LIMIT 5"
  const StackedSecond: string := " SELECT * FROM users"

  /** A lower-case letter that occurs in neither case in `Stacked`. */
  predicate Lacks(lo: char) {
    lo !in Stacked && Upper(lo) !in Stacked
  }

  /** The characters the two statements are written with. */
  const FirstAlphabet: set<char> :=
    {'S', 'E', 'L', 'C', 'T', ' ', '*', 'F', 'R', 'O', 'M', 'p', 'r', 'o', 'f', 'i', 'l', 'e', 's', 'I', '5'}
  const SecondAlphabet: set<char> :=
    {' ', 'S', 'E', 'L', 'C', 'T', '*', 'F', 'R', 'O', 'M', 'u', 's', 'e', 'r'}

  lemma AlphabetsCover()
    ensures forall i :: 0 <= i < |StackedFirst| ==> StackedFirst[i] in FirstAlphabet
    ensures forall i :: 0 <= i < |StackedSecond| ==> StackedSecond[i] in SecondAlphabet
  {
  }

  /** A letter missing, in both cases, from both alphabets is missing from
      `Stacked`. */
  lemma LacksFromAlphabets(lo: char)
    requires 'a' <= lo <= 'z'
    requires lo !in FirstAlphabet && Upper(lo) !in FirstAlphabet
    requires lo !in SecondAlphabet && Upper(lo) !in SecondAlphabet
    ensures Lacks(lo)
  {
    AlphabetsCover();
    assert forall i :: 0 <= i < |Stacked| ==>
             Stacked[i] == ';' || Stacked[i] in StackedFirst || Stacked[i] in StackedSecond;
  }

  lemma StackedLacksN() ensures Lacks('n') {
    LacksFromAlphabets('n');
  }

  lemma StackedLacksD() ensures Lacks('d') {
    LacksFromAlphabets('d');
  }

  lemma StackedLacksA() ensures Lacks('a') {
    LacksFromAlphabets('a');
  }

  lemma StackedLacksV() ensures Lacks('v') {
    LacksFromAlphabets('v');
  }

  lemma StackedLacksWordsWithN()
    ensures !HasWord(Stacked, "INSERT") && !HasWord(Stacked, "TRUNCATE")
  {
    StackedLacksN();
    AbsentLetterBlocksWord(Stacked, "INSERT", 1, 'n');
    AbsentLetterBlocksWord(Stacked, "TRUNCATE", 3, 'n');
  }

  lemma StackedLacksWordsWithD()
    ensures !HasWord(Stacked, "UPDATE") && !HasWord(Stacked, "DELETE") && !HasWord(Stacked, "DROP")
  {
    StackedLacksD();
    AbsentLetterBlocksWord(Stacked, "UPDATE", 2, 'd');
    AbsentLetterBlocksWord(Stacked, "DELETE", 0, 'd');
    AbsentLetterBlocksWord(Stacked, "DROP", 0, 'd');
  }

  lemma StackedLacksWordsWithA()
    ensures !HasWord(Stacked, "ALTER") && !HasWord(Stacked, "CREATE") && !HasWord(Stacked, "GRANT")
  {
    StackedLacksA();
    AbsentLetterBlocksWord(Stacked, "ALTER", 0, 'a');
    AbsentLetterBlocksWord(Stacked, "CREATE", 3, 'a');
    AbsentLetterBlocksWord(Stacked, "GRANT", 2, 'a');
  }

  lemma StackedLacksWordsWithV()
    ensures !HasWord(Stacked, "REVOKE")
  {
    StackedLacksV();
    AbsentLetterBlocksWord(Stacked, "REVOKE", 2, 'v');
  }

  /** The one `;` of `Stacked` is followed by a blank, so `\b;\b` misses it. */
  lemma StackedSemicolonPasses()
    ensures !HasWord(Stacked, ";")
  {
    assert ';' !in StackedFirst;
    assert ';' !in StackedSecond;
    assert StackedSecond[0] == ' ';
    LoneSemicolonBeforeSpacePasses(StackedFirst, StackedSecond);
  }

  lemma StackedHasNoForbiddenWord()
    ensures NoneOccurs(MainForbidden, Stacked)
  {
    StackedLacksWordsWithN();
    StackedLacksWordsWithD();
    StackedLacksWordsWithA();
    StackedLacksWordsWithV();
    StackedSemicolonPasses();
    forall j | 0 <= j < |MainForbidden|
      ensures !HasWord(Stacked, MainForbidden[j])
    {
      ForbiddenEntry(j);
    }
  }

  /** The ten entries of main_app's list, one by one. */
  lemma ForbiddenEntry(j: int)
    requires 0 <= j < |MainForbidden|
    ensures MainForbidden[j] in {"INSERT", "UPDATE", "DELETE", "DROP", "ALTER", "CREATE", "TRUNCATE", "GRANT", "REVOKE", ";"}
  {
  }

  /** `Stacked` has no blank at either edge, so stripping keeps it. */
  lemma StackedIsStripped()
    ensures Trim(Stacked) == Stacked && TrimLeft(Stacked) == Stacked
  {
    assert Stacked[0] == 'S';
    assert Stacked[|Stacked| - 1] == 's';
    assert TrimLeft(Stacked) == Stacked;
    assert TrimRight(Stacked) == Stacked;
  }

  lemma StackedOpensWithSelect()
    ensures StartsWithKeyword(Stacked, "SELECT")
  {
    StackedIsStripped();
    assert Stacked[..6] == "SELECT";
    assert Stacked[6] == ' ';
  }

  lemma StackedSaysLimit()
    ensures Contains(UpperStr(Stacked), "LIMIT")
  {
    assert Stacked[23..28] == "LIMIT";
    assert UpperStr(Stacked)[23..28] == "LIMIT";
    assert OccursAt(UpperStr(Stacked), "LIMIT", 23);
  }

  lemma StackedKeepsSemicolon()
    ensures ';' in DropTerminator(Stacked)
  {
    assert Stacked[|Stacked| - 1] == 's';
    assert Stacked[30] == ';';
  }

  /** The `\b;\b` entry lets a second statement through: as long as sqlparse
      reports only allowed tables in the FIRST statement, the stacked text is
      accepted unchanged (it already says LIMIT), `users` and all. The
      corrected sanitizer rejects it. */
  lemma StackedStatementsPass(lib: SqlParse)
    requires lib.format(Stacked) == Stacked
    requires AllTargetsAllowed(lib.firstStatementTokens(Stacked))
    ensures SanitizeSql(lib, Stacked) == Ok(Stacked)
    ensures SanitizeSqlSingleStatement(lib, Stacked) == Err(MultipleStatements)
  {
    StackedIsStripped();
    assert Normalize(lib, Stacked) == Stacked;
    StackedHasNoForbiddenWord();
    StackedOpensWithSelect();
    StackedSaysLimit();
    StackedKeepsSemicolon();
    SanitizeSqlAccepts(lib, Stacked);
  }
}
