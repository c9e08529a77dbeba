/** The front end's own `clean_sql_query`: the same three markup steps as
    the backend's, but the semicolon is appended whenever the text does not
    end with one, so an empty result becomes a lone `;`. */
module AppCleaner {
  import opened Text
  import opened FencePatterns
  import opened SqlCleaner

  /** The front end's last step: a semicolon is appended to any text that
      does not end with one, the empty text included. */
  function AppendSemicolon(t: seq<char>): (r: seq<char>)
    ensures r != [] && r[|r| - 1] == ';'
    ensures |t| <= |r| <= |t| + 1 && r[..|t|] == t
    ensures t != [] && t[|t| - 1] == ';' ==> r == t
    ensures t == [] ==> r == ";"
  {
    if t == [] || t[|t| - 1] != ';' then t + [';'] else t
  }

  /** `clean_sql_query(raw_response)` of the front end. The result always
      ends with `;`, holds no fence and has no whitespace at either end. */
  function AppCleanSqlQuery(raw: seq<char>): (r: seq<char>)
    ensures r != [] && r[|r| - 1] == ';'
    ensures NoFence(r) && NoEdgeSpace(r)
    ensures Blank(Substitute(OpeningFence, raw)) ==> r == ";"
  {
    var t := StripMarkup(raw);
    AppendKeepsCleanEdges(t);
    AppendSemicolon(t)
  }

  /** The semicolon neither forms a fence nor adds edge whitespace. */
  lemma AppendKeepsCleanEdges(t: seq<char>)
    requires NoFence(t) && NoEdgeSpace(t)
    ensures NoFence(AppendSemicolon(t)) && NoEdgeSpace(AppendSemicolon(t))
  {
    var r := AppendSemicolon(t);
    forall i | 0 <= i < |r| ensures !HasFenceAt(r, i) {
      if i + 3 <= |t| {
        assert !HasFenceAt(t, i);
        assert r[i] == t[i] && r[i + 1] == t[i + 1] && r[i + 2] == t[i + 2];
      } else if i < |t| {
        assert r[|t| - 1] == t[|t| - 1];
      }
    }
    if t != [] {
      assert r[0] == t[0];
    }
  }

  /** The two cleaners differ only where the backend returns the empty
      string: the front end returns `;` there. */
  lemma AppAgreesWithBackend(raw: seq<char>)
    ensures AppCleanSqlQuery(raw) ==
            (if CleanSqlQuery(raw) == [] then ";" else CleanSqlQuery(raw))
  {
  }

  /** They return the same text exactly when the markup-free text is not
      empty. */
  lemma AgreementIsNonEmptyText(raw: seq<char>)
    ensures AppCleanSqlQuery(raw) == CleanSqlQuery(raw) <==> StripMarkup(raw) != []
  {
  }

  /** An existing terminator is not doubled here either. */
  lemma AppNoDoubleSemicolon(raw: seq<char>)
    ensures var t := Strip(Substitute(OpeningFence, raw));
            t != [] && t[|t| - 1] == ';' ==> AppCleanSqlQuery(raw) == t
  {
    NoDoubleSemicolon(raw);
    AppAgreesWithBackend(raw);
  }

  /** Empty and whitespace-only responses become a lone semicolon. */
  lemma AppWhitespaceOnly(raw: seq<char>)
    requires Blank(raw)
    ensures AppCleanSqlQuery(raw) == ";"
  {
    WhitespaceOnlyCleansToEmpty(raw);
    AppAgreesWithBackend(raw);
  }

  /** So do responses made only of fences and whitespace. */
  lemma AppFencesOnly(pieces: seq<seq<char>>)
    requires forall i :: 0 <= i < |pieces| ==> IsMarkupPiece(pieces[i])
    ensures AppCleanSqlQuery(Join(pieces)) == ";"
  {
    FencesOnlyCleansToEmpty(pieces);
    AppAgreesWithBackend(Join(pieces));
  }

  /** The strings the front end's cleaner returns unchanged. */
  predicate IsAppStatement(r: seq<char>) {
    r != [] && r[|r| - 1] == ';' && NoFence(r) && NoEdgeSpace(r)
  }

  /** Its fixed points are exactly those strings. */
  lemma AppFixedPoints(r: seq<char>)
    ensures AppCleanSqlQuery(r) == r <==> IsAppStatement(r)
  {
    if IsAppStatement(r) {
      CleanFixedPoints(r);
      AppAgreesWithBackend(r);
    }
  }

  /** Cleaning twice is cleaning once. */
  lemma AppIdempotent(raw: seq<char>)
    ensures AppCleanSqlQuery(AppCleanSqlQuery(raw)) == AppCleanSqlQuery(raw)
  {
    AppFixedPoints(AppCleanSqlQuery(raw));
  }
}
