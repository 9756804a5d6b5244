/** How the three `sanitize_sql` variants relate. They share the normalizing
    step and the nine-word list; main_app.py adds the `";"` entry and the
    FROM-target allow-list, streamlit_app.py widens the entry check to WITH,
    and rag_engine.py adds no limit. On the same text, main_app accepts the
    least and streamlit_app the most. */
module Variants {
  import opened Base
  import opened PyStr
  import opened Guard
  import opened Fences
  import MainApp
  import StreamlitApp
  import RagEngine

  /** main_app's list is the shared list plus the `";"` entry. */
  lemma MainListExtendsShared(s: string)
    ensures NoneOccurs(MainApp.MainForbidden, s) <==> NoneOccurs(Forbidden, s) && !HasWord(s, ";")
  {
    assert forall j :: 0 <= j < |Forbidden| ==> MainApp.MainForbidden[j] == Forbidden[j];
    assert MainApp.MainForbidden[|Forbidden|] == ";";
  }

  /** Whatever main_app.py accepts, rag_engine.py accepts too, and main_app's
      result is rag_engine's with the limit added. */
  lemma MainAcceptsWithinRag(lib: SqlParse, sql: string)
    ensures MainApp.SanitizeSql(lib, sql).Ok? ==>
              && RagEngine.SanitizeSql(lib, sql).Ok?
              && MainApp.SanitizeSql(lib, sql).value == AddLimit(RagEngine.SanitizeSql(lib, sql).value)
  {
    if MainApp.SanitizeSql(lib, sql).Ok? {
      MainApp.SanitizeSqlAccepts(lib, sql);
      MainListExtendsShared(Normalize(lib, sql));
    }
  }

  /** Whatever rag_engine.py accepts, streamlit_app.py accepts too, with the
      limit added. */
  lemma RagAcceptsWithinStreamlit(lib: SqlParse, sql: string)
    ensures RagEngine.SanitizeSql(lib, sql).Ok? ==>
              && StreamlitApp.SanitizeSql(lib, sql).Ok?
              && StreamlitApp.SanitizeSql(lib, sql).value == AddLimit(RagEngine.SanitizeSql(lib, sql).value)
  {
  }

  /** A WITH query free of forbidden words splits the variants: streamlit_app
      accepts it, while rag_engine and main_app refuse it as not a SELECT. */
  lemma WithSplitsTheVariants(lib: SqlParse, sql: string)
    requires NoneOccurs(MainApp.MainForbidden, Normalize(lib, sql))
    requires StartsWithKeyword(Normalize(lib, sql), "WITH")
    ensures StreamlitApp.SanitizeSql(lib, sql).Ok?
    ensures RagEngine.SanitizeSql(lib, sql) == Err(OnlySelect)
    ensures MainApp.SanitizeSql(lib, sql) == Err(OnlySelect)
  {
    MainListExtendsShared(Normalize(lib, sql));
    RagEngine.WithIsNotSelect(Normalize(lib, sql));
    assert FirstForbidden(MainApp.MainForbidden, Normalize(lib, sql)).None?;
  }

  /** main_app's corrected sanitizer accepts within streamlit_app too. */
  lemma SingleStatementWithinStreamlit(lib: SqlParse, sql: string)
    ensures MainApp.SanitizeSqlSingleStatement(lib, sql).Ok? ==> StreamlitApp.SanitizeSql(lib, sql).Ok?
  {
    MainAcceptsWithinRag(lib, sql);
  }

  /** The fence step alone (main_app.py, LLM.py) does no `;` truncation: a
      stripped reply without fences keeps whatever follows its `;`, while
      rag_engine.py's tail ends the result at the `;`. */
  lemma SemicolonTailSurvivesFenceStep(s: string)
    requires !Contains(s, Fence) && Trim(s) == s
    requires ';' in s && s[|s| - 1] != ';'
    ensures StripFences(s) == s
    ensures RagEngine.ExtractSql(s) != s
  {
    var r := RagEngine.ExtractSql(s);
    assert r == RagEngine.TrimBeforeSemicolon(s) + ";";
    assert r[|r| - 1] == ';';
  }
}
