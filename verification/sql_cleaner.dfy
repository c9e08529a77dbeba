/** The backend's `clean_sql_query`: the text a language model returns is
    turned into one SQL statement by deleting Markdown code fences, trimming
    whitespace and making sure the statement ends with a semicolon. */
module SqlCleaner {
  import opened Text
  import opened FencePatterns

  /** The first three steps: the opening-fence pass, the closing-fence pass
      and `strip()`. No fence and no edge whitespace remain; the closing pass
      adds nothing to the opening pass; nothing remains exactly when the
      opening pass leaves only whitespace. */
  function StripMarkup(raw: seq<char>): (r: seq<char>)
    ensures NoFence(r) && NoEdgeSpace(r)
    ensures r == Strip(Substitute(OpeningFence, raw))
    ensures r == [] <==> Blank(Substitute(OpeningFence, raw))
  {
    var o := Substitute(OpeningFence, raw);
    OpeningPassRemovesEveryFence(raw);
    SubstituteFixesFenceFree(ClosingFence, o);
    StripKeepsNoFence(o);
    Strip(Substitute(ClosingFence, o))
  }

  /** The last step: a semicolon is appended to non-empty text that does not
      already end with one; empty text stays empty. */
  function Terminate(t: seq<char>): (r: seq<char>)
    ensures r == [] <==> t == []
    ensures r != [] ==> r[|r| - 1] == ';'
    ensures |t| <= |r| <= |t| + 1 && r[..|t|] == t
    ensures t != [] && t[|t| - 1] == ';' ==> r == t
  {
    if t != [] && t[|t| - 1] != ';' then t + [';'] else t
  }

  /** `clean_sql_query(raw_response)`. The result holds no fence, has no
      whitespace at either end, and is either empty or ends with `;`; it is
      empty exactly when the opening pass leaves only whitespace. */
  function CleanSqlQuery(raw: seq<char>): (r: seq<char>)
    ensures NoFence(r)
    ensures NoEdgeSpace(r)
    ensures r == [] || r[|r| - 1] == ';'
    ensures r == [] <==> Blank(Substitute(OpeningFence, raw))
  {
    TerminateKeepsCleanEdges(StripMarkup(raw));
    Terminate(StripMarkup(raw))
  }

  /** The closing pass never finds anything: the opening pass has already
      deleted every fence. */
  lemma ClosingPassIsRedundant(raw: seq<char>)
    ensures Substitute(ClosingFence, Substitute(OpeningFence, raw)) == Substitute(OpeningFence, raw)
    ensures StripMarkup(raw) == Strip(Substitute(OpeningFence, raw))
  {
    OpeningPassRemovesEveryFence(raw);
    SubstituteFixesFenceFree(ClosingFence, Substitute(OpeningFence, raw));
  }

  /** The semicolon neither forms a fence nor adds edge whitespace. */
  lemma TerminateKeepsCleanEdges(t: seq<char>)
    requires NoFence(t) && NoEdgeSpace(t)
    ensures NoFence(Terminate(t)) && NoEdgeSpace(Terminate(t))
  {
    var r := Terminate(t);
    forall i | 0 <= i < |r| ensures !HasFenceAt(r, i) {
      if i + 3 <= |t| {
        assert !HasFenceAt(t, i);
        assert r[i] == t[i] && r[i + 1] == t[i + 1] && r[i + 2] == t[i + 2];
      } else if i < |t| {
        assert r[|t| - 1] == t[|t| - 1];
      }
    }
    if r != [] {
      assert r[0] == t[0];
    }
  }

  /** An existing terminator is never doubled, and at most one is added. */
  lemma NoDoubleSemicolon(raw: seq<char>)
    ensures var t := Strip(Substitute(OpeningFence, raw));
            t != [] && t[|t| - 1] == ';' ==> CleanSqlQuery(raw) == t
    ensures var t := Strip(Substitute(OpeningFence, raw));
            CleanSqlQuery(raw) == t || CleanSqlQuery(raw) == t + [';']
  {
    ClosingPassIsRedundant(raw);
    var t := Strip(Substitute(OpeningFence, raw));
    assert Terminate(t) != t ==> Terminate(t) == t + [';'];
  }

  /** Text without any fence is only trimmed and terminated. */
  lemma NothingElseChanges(raw: seq<char>)
    requires NoFence(raw)
    ensures CleanSqlQuery(raw) == Terminate(Strip(raw))
  {
    SubstituteFixesFenceFree(OpeningFence, raw);
    SubstituteFixesFenceFree(ClosingFence, raw);
  }

  /** Empty and whitespace-only responses clean to the empty string. */
  lemma WhitespaceOnlyCleansToEmpty(raw: seq<char>)
    requires Blank(raw)
    ensures CleanSqlQuery(raw) == []
  {
    BlankHasNoFence(raw);
    NothingElseChanges(raw);
  }

  /** The strings of a list, joined. */
  function Join(pieces: seq<seq<char>>): (r: seq<char>) {
    if pieces == [] then [] else pieces[0] + Join(pieces[1..])
  }

  /** One piece of a response that is nothing but markup: a whitespace
      character or a whole opening fence with its tag and whitespace. */
  predicate IsMarkupPiece(w: seq<char>) {
    (|w| == 1 && IsSpace(w[0])) || IsToken(OpeningFence, w)
  }

  /** Markup pieces joined start with whitespace or a backtick, so never
      with a language tag. */
  lemma JoinedMarkupHead(pieces: seq<seq<char>>)
    requires forall i :: 0 <= i < |pieces| ==> IsMarkupPiece(pieces[i])
    ensures !HasSqlTagAt(Join(pieces), 0)
  {
    if pieces != [] {
      assert IsMarkupPiece(pieces[0]);
      assert Join(pieces)[0] == pieces[0][0];
    }
  }

  /** Whatever the opening pass leaves of markup pieces is whitespace. */
  lemma {:induction false} MarkupLeavesBlank(pieces: seq<seq<char>>)
    requires forall i :: 0 <= i < |pieces| ==> IsMarkupPiece(pieces[i])
    ensures Blank(Substitute(OpeningFence, Join(pieces)))
  {
    if pieces != [] {
      var p, x := pieces[0], Join(pieces[1..]);
      assert forall i :: 0 <= i < |pieces[1..]| ==> pieces[1..][i] == pieces[i + 1];
      MarkupLeavesBlank(pieces[1..]);
      if |p| == 1 && IsSpace(p[0]) {
        OpeningPassKeeps(p[0], x);
        assert p == [p[0]];
      } else {
        JoinedMarkupHead(pieces[1..]);
        OpeningTokenThenText(p, x);
        BlankSuffixOfPass(x);
      }
    }
  }

  /** Skipping leading whitespace only drops a prefix of the opening pass's
      output. */
  lemma BlankSuffixOfPass(x: seq<char>)
    requires Blank(Substitute(OpeningFence, x))
    ensures Blank(Substitute(OpeningFence, LStrip(x)))
  {
    var w := OpeningPassLeadingSpace(x);
    var o := Substitute(OpeningFence, LStrip(x));
    forall i | 0 <= i < |o| ensures IsSpace(o[i]) {
      assert o[i] == (w + o)[|w| + i];
    }
  }

  /** A response made only of fences and whitespace cleans to the empty
      string. */
  lemma FencesOnlyCleansToEmpty(pieces: seq<seq<char>>)
    requires forall i :: 0 <= i < |pieces| ==> IsMarkupPiece(pieces[i])
    ensures CleanSqlQuery(Join(pieces)) == []
  {
    MarkupLeavesBlank(pieces);
  }

  /** The language tag after a fence is recognised in any letter case and
      dropped, whatever follows it. */
  lemma TagCaseInsensitive(tag: seq<char>, rest: seq<char>)
    requires |tag| == 3 && HasSqlTagAt(tag, 0)
    ensures CleanSqlQuery("```" + tag + rest) == CleanSqlQuery("```" + "sql" + rest)
  {
    TaggedFenceDropped(tag, rest);
    TaggedFenceDropped("sql", rest);
    SameOpeningPassSameClean("```" + tag + rest, "```" + "sql" + rest);
  }

  /** The cleaner's result depends only on what the opening pass leaves. */
  lemma SameOpeningPassSameClean(x: seq<char>, y: seq<char>)
    requires Substitute(OpeningFence, x) == Substitute(OpeningFence, y)
    ensures CleanSqlQuery(x) == CleanSqlQuery(y)
  {
  }

  /** What the opening pass does with a tagged fence at the start. */
  lemma TaggedFenceDropped(tag: seq<char>, rest: seq<char>)
    requires |tag| == 3 && HasSqlTagAt(tag, 0)
    ensures Substitute(OpeningFence, "```" + tag + rest) == Substitute(OpeningFence, LStrip(rest))
  {
    var s := "```" + tag + rest;
    assert s[3] == tag[0] && s[4] == tag[1] && s[5] == tag[2];
    assert s[6..] == rest;
    OpeningPassMatched(s);
  }

  /** A statement wrapped in a code fence cleans as the bare statement does.
      The opening fence `p` may carry the tag in any letter case and must be
      longer than the bare three backticks (a newline or space after them
      will do); otherwise the statement's first letters could be taken for
      the tag. The closing fence may follow the statement directly or after
      a whitespace character, and only whitespace may come after it.
      Anything may stand inside, fences included. */
  lemma FencedStatement(w: seq<char>, p: seq<char>, q: seq<char>, t: seq<char>)
    requires Blank(w) && IsToken(OpeningFence, p) && |p| > 3
    requires IsClosingTail(t) || IsBareClosingTail(t)
    ensures CleanSqlQuery(w + p + q + t) == CleanSqlQuery(q)
  {
    var raw := w + p + q + t;
    assert raw == w + (p + (q + t));
    OpeningPassBlankPrefix(w, p + (q + t));
    OpeningTokenThenText(p, q + t);
    StripBlankPrefix(w, Substitute(OpeningFence, LStrip(q + t)));
    FencedBody(q, t);
    ClosingPassIsRedundant(raw);
    ClosingPassIsRedundant(q);
  }

  /** The fenced body and the closing tail, after the opening fence has gone:
      they trim to what the body alone trims to. */
  lemma FencedBody(q: seq<char>, t: seq<char>)
    requires IsClosingTail(t) || IsBareClosingTail(t)
    ensures Strip(Substitute(OpeningFence, LStrip(q + t))) == Strip(Substitute(OpeningFence, q))
  {
    if IsClosingTail(t) {
      SpacedFencedBody(q, t);
    } else {
      BareFencedBody(q, t);
    }
  }

  /** `FencedBody` when whitespace separates the closing fence. */
  lemma SpacedFencedBody(q: seq<char>, t: seq<char>)
    requires IsClosingTail(t)
    ensures Strip(Substitute(OpeningFence, LStrip(q + t))) == Strip(Substitute(OpeningFence, q))
  {
    var w := OpeningPassLeadingSpace(q);
    StripBlankPrefix(w, Substitute(OpeningFence, LStrip(q)));
    if Blank(q) {
      BlankBodyVanishes(q, t);
    } else {
      LStripNonBlankPrefix(q, t);
      var u := Substitute(OpeningFence, LStrip(q));
      OpeningPassClosingTail(LStrip(q), t);
      if Substitute(OpeningFence, LStrip(q) + t) != u {
        StripBlankSuffix(u, [t[0]]);
      }
    }
  }

  /** `FencedBody` when the closing fence follows the statement directly. */
  lemma BareFencedBody(q: seq<char>, t: seq<char>)
    requires IsBareClosingTail(t)
    ensures Strip(Substitute(OpeningFence, LStrip(q + t))) == Strip(Substitute(OpeningFence, q))
  {
    var w := OpeningPassLeadingSpace(q);
    StripBlankPrefix(w, Substitute(OpeningFence, LStrip(q)));
    if Blank(q) {
      LStripBlankPrefix(q, t);
      LeadingSpaceUnique(t, 0);
      assert LStrip(t) == t;
      OpeningPassBareFence(t);
      BlankHasNoFence(q);
      SubstituteFixesFenceFree(OpeningFence, q);
    } else {
      LStripNonBlankPrefix(q, t);
      var v := OpeningPassBareTail(LStrip(q), t);
      StripBlankSuffix(Substitute(OpeningFence, LStrip(q)), v);
    }
  }

  /** A blank body leaves nothing between the fences. */
  lemma BlankBodyVanishes(q: seq<char>, t: seq<char>)
    requires IsClosingTail(t) && Blank(q)
    ensures Substitute(OpeningFence, LStrip(q + t)) == []
    ensures Strip(Substitute(OpeningFence, q)) == []
  {
    LStripBlankPrefix(q, t);
    LeadingSpaceUnique(t, 1);
    assert t[1..][3..] == t[4..];
    OpeningPassBareFence(t[1..]);
    BlankHasNoFence(q);
    SubstituteFixesFenceFree(OpeningFence, q);
  }

  /** The strings the cleaner returns unchanged. */
  predicate IsCleanStatement(r: seq<char>) {
    NoFence(r) && NoEdgeSpace(r) && (r == [] || r[|r| - 1] == ';')
  }

  /** The cleaner's fixed points are exactly the clean statements. */
  lemma CleanFixedPoints(r: seq<char>)
    ensures CleanSqlQuery(r) == r <==> IsCleanStatement(r)
  {
    if IsCleanStatement(r) {
      CleanStatementIsFixed(r);
    }
  }

  /** A clean statement goes through every step unchanged. */
  lemma CleanStatementIsFixed(r: seq<char>)
    requires IsCleanStatement(r)
    ensures CleanSqlQuery(r) == r
  {
    NothingElseChanges(r);
    assert Strip(r) == r;
    assert Terminate(r) == r;
  }

  /** Cleaning twice is cleaning once. */
  lemma CleanIdempotent(raw: seq<char>)
    ensures CleanSqlQuery(CleanSqlQuery(raw)) == CleanSqlQuery(raw)
  {
    CleanFixedPoints(CleanSqlQuery(raw));
  }

  /** A fenced, tagged statement on its own lines loses the fence and gains
      a semicolon. */
  lemma RemovesMarkdownAndAddsSemicolon()
    ensures CleanSqlQuery("\n```sql\nSELECT * FROM STUDENT\n```\n") == "SELECT * FROM STUDENT;"
  {
    var q := "SELECT * FROM STUDENT";
    FencedTestInput();
    PlainTestStatement();
    FencedOnOwnLines("\n```sql\nSELECT * FROM STUDENT\n```\n", q);
  }

  /** The first test's input, taken apart at the fences. */
  lemma FencedTestInput()
    ensures "\n```sql\nSELECT * FROM STUDENT\n```\n"
         == "\n" + "```sql\n" + "SELECT * FROM STUDENT" + "\n```\n"
  {
    assert "\n" + "```sql\n" == "\n```sql\n";
  }

  /** The statement inside the first test's fence. */
  lemma PlainTestStatement()
    ensures var q := "SELECT * FROM STUDENT";
            NoFence(q) && NoEdgeSpace(q) && q != [] && q[|q| - 1] != ';' &&
            q + [';'] == "SELECT * FROM STUDENT;"
  {
    BacktickFreeHasNoFence("SELECT * FROM STUDENT");
  }

  /** The shape of the first test: a plain statement in a tagged fence on
      lines of its own. */
  lemma FencedOnOwnLines(raw: seq<char>, q: seq<char>)
    requires raw == "\n" + "```sql\n" + q + "\n```\n"
    requires NoFence(q) && NoEdgeSpace(q) && q != [] && q[|q| - 1] != ';'
    ensures CleanSqlQuery(raw) == q + [';']
  {
    assert IsClosingTail("\n```\n") by {
      assert "\n```\n"[4..] == "\n";
    }
    FencedStatement("\n", "```sql\n", q, "\n```\n");
    TerminatesPlainStatement(q);
  }

  /** A closing fence written straight after the statement is deleted as
      well. */
  lemma ClosingFenceAfterStatement()
    ensures CleanSqlQuery("```sql\nSELECT 1```") == "SELECT 1;"
  {
    assert "```sql\nSELECT 1```" == "```sql\n" + "SELECT 1" + "```";
    BacktickFreeHasNoFence("SELECT 1");
    FencedOnSameLine("```sql\nSELECT 1```", "SELECT 1");
  }

  /** The shape of a reply whose closing fence follows the statement on its
      line. */
  lemma FencedOnSameLine(raw: seq<char>, q: seq<char>)
    requires raw == "```sql\n" + q + "```"
    requires NoFence(q) && NoEdgeSpace(q) && q != [] && q[|q| - 1] != ';'
    ensures CleanSqlQuery(raw) == q + [';']
  {
    assert IsBareClosingTail("```");
    assert raw == [] + "```sql\n" + q + "```";
    FencedStatement([], "```sql\n", q, "```");
    TerminatesPlainStatement(q);
  }

  /** Why the opening fence must be longer than three backticks: right
      after a bare fence, the statement's first letters are taken as the
      tag. */
  lemma BareFenceTakesTag()
    ensures CleanSqlQuery("```sqlx```") == "x;"
  {
    assert "```sqlx```" == "```" + "sql" + ['x'] + "```";
    TagThenCharacter("```sqlx```", 'x');
  }

  /** A bare fence, the tag, one character and a closing fence. */
  lemma TagThenCharacter(raw: seq<char>, c: char)
    requires raw == "```" + "sql" + [c] + "```"
    requires !IsSpace(c) && c != '`' && c != ';'
    ensures CleanSqlQuery(raw) == [c, ';']
  {
    assert raw == "```" + "sql" + ([c] + "```");
    TagThenCharacterPass(c);
    assert Strip([c]) == [c];
    assert StripMarkup(raw) == [c];
  }

  /** What the opening pass leaves of `TagThenCharacter`'s input. */
  lemma TagThenCharacterPass(c: char)
    requires !IsSpace(c) && c != '`'
    ensures Substitute(OpeningFence, "```" + "sql" + ([c] + "```")) == [c]
  {
    TaggedFenceDropped("sql", [c] + "```");
    LeadingSpaceUnique([c] + "```", 0);
    assert LStrip([c] + "```") == [c] + "```";
    OpeningPassKeeps(c, "```");
    OpeningPassBareFence("```");
  }

  /** The second test: a statement that already ends with a semicolon is
      returned unchanged. */
  lemma PreservesSemicolon()
    ensures CleanSqlQuery("SELECT COUNT(*) FROM STUDENT;") == "SELECT COUNT(*) FROM STUDENT;"
  {
    BacktickFreeHasNoFence("SELECT COUNT(*) FROM STUDENT;");
    CleanStatementIsFixed("SELECT COUNT(*) FROM STUDENT;");
  }

  /** A fence-free statement with no edge whitespace and no terminator only
      gains the semicolon. */
  lemma TerminatesPlainStatement(q: seq<char>)
    requires NoFence(q) && NoEdgeSpace(q) && q != [] && q[|q| - 1] != ';'
    ensures CleanSqlQuery(q) == q + [';']
  {
    NothingElseChanges(q);
    assert Strip(q) == q;
  }

}
