/** The two regular expressions the cleaner deletes, `` ```(?:sql)?\s* `` and
    `` \s*``` ``, both compiled with `re.IGNORECASE`, and Python's `re.sub`
    with an empty replacement. */
module FencePatterns {
  import opened Text

  /** Three backticks, the Markdown code-fence marker, start at index `i`. */
  predicate HasFenceAt(s: seq<char>, i: int) {
    0 <= i && i + 3 <= |s| && s[i] == '`' && s[i + 1] == '`' && s[i + 2] == '`'
  }

  /** No three consecutive backticks occur anywhere in `s`. */
  predicate NoFence(s: seq<char>) {
    forall i :: 0 <= i < |s| ==> !HasFenceAt(s, i)
  }

  /** The characters `re.IGNORECASE` lets stand for the tag letters; Python's
      case-insensitive matching also pairs `s` with the long s, U+017F. */
  predicate MatchesS(c: char) { c == 's' || c == 'S' || c == '\U{017F}' }
  predicate MatchesQ(c: char) { c == 'q' || c == 'Q' }
  predicate MatchesL(c: char) { c == 'l' || c == 'L' }

  /** The language tag `sql`, in any letter case, starts at index `i`. */
  predicate HasSqlTagAt(s: seq<char>, i: int) {
    0 <= i && i + 3 <= |s| && MatchesS(s[i]) && MatchesQ(s[i + 1]) && MatchesL(s[i + 2])
  }

  /** Every character of `s` from index `i` up to `j` is whitespace. */
  predicate BlankBetween(s: seq<char>, i: int, j: int) {
    forall k :: i <= k < j && 0 <= k < |s| ==> IsSpace(s[k])
  }

  datatype Pattern =
    | OpeningFence  // ```(?:sql)?\s*
    | ClosingFence  // \s*```

  /** The language of each pattern: the regex matches all of `w`. */
  predicate IsToken(p: Pattern, w: seq<char>) {
    match p
    case OpeningFence =>
      HasFenceAt(w, 0) &&
      (BlankBetween(w, 3, |w|) || (HasSqlTagAt(w, 3) && BlankBetween(w, 6, |w|)))
    case ClosingFence =>
      |w| >= 3 && BlankBetween(w, 0, |w| - 3) && HasFenceAt(w, |w| - 3)
  }

  /** The outcome of trying a pattern at the start of a text: no match, or
      a match of the first `len` characters. */
  datatype MatchResult = NoMatch | Matched(len: nat)

  /** Where `\s*` starts after an opening fence at the head of `s`: the
      optional group is tried first and `\s*` can always follow, so a tag
      that is present is taken. */
  function TagEnd(s: seq<char>): (c: nat) {
    if HasSqlTagAt(s, 3) then 6 else 3
  }

  /** The match the regex engine finds when it is tried at the start of `s`:
      `\s*` is greedy, and a shorter whitespace run never helps the closing
      pattern because a backtick is not whitespace. */
  function Match(p: Pattern, s: seq<char>): (m: MatchResult)
    ensures m.Matched? ==> 0 < m.len <= |s|
    ensures m.Matched? && p == OpeningFence ==> HasFenceAt(s, 0)
    ensures m.Matched? && p == ClosingFence ==> HasFenceAt(s, m.len - 3)
    ensures m.NoMatch? ==> !HasFenceAt(s, 0)
  {
    match p
    case OpeningFence =>
      if HasFenceAt(s, 0) then Matched(TagEnd(s) + LeadingSpace(s[TagEnd(s)..])) else NoMatch
    case ClosingFence =>
      var j := LeadingSpace(s);
      if HasFenceAt(s, j) then Matched(j + 3) else NoMatch
  }

  /** `re.sub(p, "", s)`: scanning left to right, a match found at the current
      position is deleted and scanning resumes after it; otherwise one
      character is kept. Neither pattern matches the empty string. */
  function Substitute(p: Pattern, s: seq<char>): (r: seq<char>)
    ensures |r| <= |s|
    decreases |s|
  {
    if s == [] then []
    else match Match(p, s)
      case Matched(n) => Substitute(p, s[n..])
      case NoMatch => [s[0]] + Substitute(p, s[1..])
  }

  /** The same substitution written as the engine's loop: `rest` is the text
      from the current scan position on. */
  method SubstituteScan(p: Pattern, s: seq<char>) returns (r: seq<char>)
    ensures r == Substitute(p, s)
  {
    r := [];
    var rest := s;
    while rest != []
      invariant r + Substitute(p, rest) == Substitute(p, s)
      decreases |rest|
    {
      match Match(p, rest)
      case Matched(n) =>
        assert Substitute(p, rest) == Substitute(p, rest[n..]);
        rest := rest[n..];
      case NoMatch =>
        var c, tail := rest[0], Substitute(p, rest[1..]);
        assert Substitute(p, rest) == [c] + tail;
        assert (r + [c]) + tail == r + ([c] + tail);
        r := r + [c];
        rest := rest[1..];
    }
  }

  // The regex semantics of Match, case by case.

  /** With or without the tag, the opening match takes the fence, the tag if
      present and the whole whitespace run after it, and that is a token. */
  lemma OpeningMatchIsToken(s: seq<char>)
    requires HasFenceAt(s, 0)
    ensures Match(OpeningFence, s).Matched?
    ensures IsToken(OpeningFence, s[..Match(OpeningFence, s).len])
  {
    var c := TagEnd(s);
    var n := Match(OpeningFence, s).len;
    var w := s[..n];
    forall k | c <= k < n ensures IsSpace(w[k]) {
      assert w[k] == s[c..][k - c];
    }
    if c == 6 {
      assert w[3] == s[3] && w[4] == s[4] && w[5] == s[5];
    }
  }

  /** No prefix longer than the opening match is a token: it would have to
      extend the whitespace run past a non-space, or drop a present tag. */
  lemma OpeningMatchIsLongest(s: seq<char>, k: nat)
    requires HasFenceAt(s, 0)
    requires Match(OpeningFence, s).len < k <= |s|
    ensures !IsToken(OpeningFence, s[..k])
  {
    var c := TagEnd(s);
    var n := Match(OpeningFence, s).len;
    var w := s[..k];
    assert !IsSpace(w[n]) by {
      assert w[n] == s[c..][n - c];
    }
    if HasSqlTagAt(s, 3) {
      assert w[3] == s[3];
    } else if k >= 6 {
      assert w[3] == s[3] && w[4] == s[4] && w[5] == s[5];
    }
  }

  /** Every opening token starts with a fence. */
  lemma NoOpeningMatch(s: seq<char>, k: nat)
    requires !HasFenceAt(s, 0) && k <= |s|
    ensures !IsToken(OpeningFence, s[..k])
  {
  }

  /** Where `\s*` stops: a closing token that is a prefix of `s` begins its
      fence right after the longest whitespace prefix of `s`. */
  lemma ClosingTokenStart(s: seq<char>, k: nat)
    requires k <= |s| && IsToken(ClosingFence, s[..k])
    ensures k - 3 == LeadingSpace(s) && HasFenceAt(s, k - 3)
  {
    var j := LeadingSpace(s);
    var w := s[..k];
    assert w[k - 3] == s[k - 3] && w[k - 2] == s[k - 2] && w[k - 1] == s[k - 1];
    assert !IsSpace(s[k - 3]);
    assert j <= k - 3;
    assert w[j] == s[j];
  }

  /** The closing match, the whitespace prefix and the fence after it, is a
      token. */
  lemma ClosingMatchIsToken(s: seq<char>)
    requires HasFenceAt(s, LeadingSpace(s))
    ensures IsToken(ClosingFence, s[..LeadingSpace(s) + 3])
  {
    var j := LeadingSpace(s);
    var w := s[..j + 3];
    assert forall k :: 0 <= k < j + 3 ==> w[k] == s[k];
  }

  /** The engine's choice agrees with the regex language: a match deletes a
      token, no longer prefix is a token (the greedy tag and `\s*` take all
      they can), and where there is no match no prefix is a token. */
  lemma MatchIsLongestToken(p: Pattern, s: seq<char>)
    ensures Match(p, s).Matched? ==> IsToken(p, s[..Match(p, s).len])
    ensures Match(p, s).Matched? ==>
              forall k :: Match(p, s).len < k <= |s| ==> !IsToken(p, s[..k])
    ensures Match(p, s).NoMatch? ==> forall k :: 0 <= k <= |s| ==> !IsToken(p, s[..k])
  {
    match p
    case OpeningFence =>
      if HasFenceAt(s, 0) {
        OpeningMatchIsToken(s);
        forall k | Match(p, s).len < k <= |s| ensures !IsToken(p, s[..k]) {
          OpeningMatchIsLongest(s, k);
        }
      } else {
        forall k | 0 <= k <= |s| ensures !IsToken(p, s[..k]) {
          NoOpeningMatch(s, k);
        }
      }
    case ClosingFence =>
      if HasFenceAt(s, LeadingSpace(s)) {
        ClosingMatchIsToken(s);
      }
      forall k | 0 <= k <= |s| && IsToken(p, s[..k]) ensures Match(p, s) == Matched(k) {
        ClosingTokenStart(s, k);
      }
  }

  // Fence-free text.

  /** A fence in a slice is a fence in the whole text. */
  lemma NoFenceSlice(s: seq<char>, i: nat, j: nat)
    requires NoFence(s) && i <= j <= |s|
    ensures NoFence(s[i..j])
  {
    var t := s[i..j];
    forall k | 0 <= k < |t| ensures !HasFenceAt(t, k) {
      assert !HasFenceAt(s, i + k);
      if k + 3 <= |t| {
        assert t[k] == s[i + k] && t[k + 1] == s[i + k + 1] && t[k + 2] == s[i + k + 2];
      }
    }
  }

  /** Text without a single backtick holds no fence. */
  lemma BacktickFreeHasNoFence(s: seq<char>)
    requires forall i :: 0 <= i < |s| ==> s[i] != '`'
    ensures NoFence(s)
  {
  }

  /** Whitespace holds no backtick, hence no fence. */
  lemma BlankHasNoFence(s: seq<char>)
    requires Blank(s)
    ensures NoFence(s)
  {
    BacktickFreeHasNoFence(s);
  }

  /** `strip()` cannot create a fence. */
  lemma StripKeepsNoFence(s: seq<char>)
    requires NoFence(s)
    ensures NoFence(Strip(s))
  {
    var l := LStrip(s);
    NoFenceSlice(s, LeadingSpace(s), |s|);
    assert l == s[LeadingSpace(s)..|s|];
    NoFenceSlice(l, 0, TrailingSpace(l));
    assert RStrip(l) == l[0..TrailingSpace(l)];
  }

  /** Either substitution leaves fence-free text untouched: neither pattern
      can match without three backticks. */
  lemma {:induction false} SubstituteFixesFenceFree(p: Pattern, s: seq<char>)
    requires NoFence(s)
    ensures Substitute(p, s) == s
  {
    if s != [] {
      assert !HasFenceAt(s, 0) && !HasFenceAt(s, LeadingSpace(s));
      NoFenceSlice(s, 1, |s|);
      assert s[1..] == s[1..|s|];
      SubstituteFixesFenceFree(p, s[1..]);
    }
  }

  // The opening pass.

  /** A backtick at the head of the opening pass's output, or two, were
      already at the head of its input. */
  lemma {:induction false} OpeningPassLeadingTicks(s: seq<char>)
    ensures var r := Substitute(OpeningFence, s);
            r != [] && r[0] == '`' ==> s != [] && s[0] == '`'
    ensures var r := Substitute(OpeningFence, s);
            |r| >= 2 && r[0] == '`' && r[1] == '`' ==> |s| >= 2 && s[0] == '`' && s[1] == '`'
  {
    if s != [] && Match(OpeningFence, s).NoMatch? {
      OpeningPassLeadingTicks(s[1..]);
    }
  }

  /** The opening pass deletes every fence, not only leading or trailing
      ones, and joining the pieces it keeps never forms a new one. */
  lemma {:induction false} OpeningPassRemovesEveryFence(s: seq<char>)
    ensures NoFence(Substitute(OpeningFence, s))
  {
    if s != [] {
      match Match(OpeningFence, s)
      case Matched(n) =>
        OpeningPassRemovesEveryFence(s[n..]);
      case NoMatch =>
        var t := Substitute(OpeningFence, s[1..]);
        OpeningPassRemovesEveryFence(s[1..]);
        OpeningPassLeadingTicks(s[1..]);
        var r := [s[0]] + t;
        forall i | 0 <= i < |r| ensures !HasFenceAt(r, i) {
          if i == 0 {
            assert !HasFenceAt(s, 0);
            if |r| >= 3 { assert r[1] == t[0] && r[2] == t[1]; }
          } else {
            assert !HasFenceAt(t, i - 1);
            if i + 3 <= |r| {
              assert t[i - 1] == r[i] && t[i] == r[i + 1] && t[i + 1] == r[i + 2];
            }
          }
        }
    }
  }

  /** A character that cannot start a fence is kept and scanning moves on. */
  lemma OpeningPassKeeps(c: char, x: seq<char>)
    requires c != '`'
    ensures Substitute(OpeningFence, [c] + x) == [c] + Substitute(OpeningFence, x)
  {
    assert ([c] + x)[1..] == x;
  }

  /** Whitespace in front of `x` passes through the opening pass unchanged. */
  lemma {:induction false} OpeningPassBlankPrefix(w: seq<char>, x: seq<char>)
    requires Blank(w)
    ensures Substitute(OpeningFence, w + x) == w + Substitute(OpeningFence, x)
  {
    if w == [] {
      assert w + x == x;
    } else {
      var c, w', sx := w[0], w[1..], Substitute(OpeningFence, x);
      assert w + x == [c] + (w' + x);
      assert w + sx == [c] + (w' + sx);
      OpeningPassKeeps(c, w' + x);
      OpeningPassBlankPrefix(w', x);
    }
  }

  /** Leading whitespace passes through the opening pass unchanged. */
  lemma OpeningPassLeadingSpace(x: seq<char>) returns (w: seq<char>)
    ensures Blank(w) && Substitute(OpeningFence, x) == w + Substitute(OpeningFence, LStrip(x))
  {
    var n := LeadingSpace(x);
    w := x[..n];
    assert x == w + LStrip(x);
    OpeningPassBlankPrefix(w, LStrip(x));
  }

  /** The text an opening match leaves to scan: everything after the fence,
      the tag if present, and the whitespace after them. */
  lemma OpeningPassMatched(s: seq<char>)
    requires HasFenceAt(s, 0)
    ensures Substitute(OpeningFence, s) == Substitute(OpeningFence, LStrip(s[TagEnd(s)..]))
  {
    var c := TagEnd(s);
    assert s[c..][LeadingSpace(s[c..])..] == s[c + LeadingSpace(s[c..])..];
  }

  /** `TagEnd` only looks at the first six characters, and a whitespace
      character or a backtick cannot be part of a tag. */
  lemma TagEndAppend(a: seq<char>, t: seq<char>)
    requires HasFenceAt(a, 0)
    requires |a| >= 6 || (t != [] && (IsSpace(t[0]) || t[0] == '`'))
    ensures TagEnd(a + t) == TagEnd(a) <= |a|
  {
    var s := a + t;
    if |a| < 6 {
      assert s[|a|] == t[0];
    } else {
      assert s[3] == a[3] && s[4] == a[4] && s[5] == a[5];
    }
  }

  /** A whole opening token in front of `x` is deleted together with the
      whitespace that starts `x`. The tag decision must not depend on `x`:
      a bare three backticks must not be followed by a tag. */
  lemma OpeningTokenThenText(p: seq<char>, x: seq<char>)
    requires IsToken(OpeningFence, p)
    requires |p| > 3 || !HasSqlTagAt(x, 0)
    ensures Substitute(OpeningFence, p + x) == Substitute(OpeningFence, LStrip(x))
  {
    var s := p + x;
    var c := TokenTagEnd(p, x);
    assert s[c..] == p[c..] + x;
    LStripBlankPrefix(p[c..], x);
    OpeningPassMatched(s);
  }

  /** The tag decision for an opening token followed by `x` is made inside
      the token, and what the token holds after it is whitespace. */
  lemma TokenTagEnd(p: seq<char>, x: seq<char>) returns (c: nat)
    requires IsToken(OpeningFence, p)
    requires |p| > 3 || !HasSqlTagAt(x, 0)
    ensures HasFenceAt(p + x, 0) && c == TagEnd(p + x) <= |p| && Blank(p[c..])
  {
    var s := p + x;
    assert s[0] == p[0] && s[1] == p[1] && s[2] == p[2];
    c := if HasSqlTagAt(p, 3) then 6 else 3;
    if |p| == 3 {
      assert |s| >= 6 ==> s[3] == x[0] && s[4] == x[1] && s[5] == x[2];
    } else if c == 6 {
      assert s[3] == p[3] && s[4] == p[4] && s[5] == p[5];
    } else {
      assert s[3] == p[3];
    }
    forall k | 0 <= k < |p[c..]| ensures IsSpace(p[c..][k]) {
      assert p[c..][k] == p[c + k];
    }
  }

  /** A closing fence at the end of the text: one whitespace character, three
      backticks, then nothing but whitespace. */
  predicate IsClosingTail(t: seq<char>) {
    |t| >= 4 && IsSpace(t[0]) && HasFenceAt(t, 1) && Blank(t[4..])
  }

  /** A bare fence followed only by whitespace leaves nothing. */
  lemma OpeningPassBareFence(x: seq<char>)
    requires HasFenceAt(x, 0) && Blank(x[3..])
    ensures Substitute(OpeningFence, x) == []
  {
    assert TagEnd(x) == 3 by {
      if |x| > 3 { assert IsSpace(x[3..][0]); }
    }
    LeadingSpaceUnique(x[3..], |x| - 3);
    assert Substitute(OpeningFence, x) == Substitute(OpeningFence, x[|x|..]);
  }

  /** A closing fence after whitespace at the end of the text: the opening
      pass deletes it, keeping at most the separating whitespace character. */
  lemma {:induction false} OpeningPassClosingTail(a: seq<char>, t: seq<char>)
    requires IsClosingTail(t)
    ensures Substitute(OpeningFence, a + t) == Substitute(OpeningFence, a) ||
            Substitute(OpeningFence, a + t) == Substitute(OpeningFence, a) + [t[0]]
    decreases |a|
  {
    if a == [] {
      assert a + t == t;
      ClosingTailAlone(t);
    } else if !HasFenceAt(a, 0) {
      ClosingTailKept(a, t);
    } else if Blank(a[TagEnd(a)..]) {
      ClosingTailAfterBlank(a, t);
    } else {
      ClosingTailAfterText(a, t);
    }
  }

  /** The tail on its own leaves its whitespace character. */
  lemma ClosingTailAlone(t: seq<char>)
    requires IsClosingTail(t)
    ensures Substitute(OpeningFence, t) == [t[0]]
  {
    assert !HasFenceAt(t, 0);
    assert t[1..][3..] == t[4..];
    OpeningPassBareFence(t[1..]);
  }

  /** The case of `OpeningPassClosingTail` where the text starts with a kept
      character. */
  lemma {:induction false} ClosingTailKept(a: seq<char>, t: seq<char>)
    requires IsClosingTail(t) && a != [] && !HasFenceAt(a, 0)
    ensures Substitute(OpeningFence, a + t) == Substitute(OpeningFence, a) ||
            Substitute(OpeningFence, a + t) == Substitute(OpeningFence, a) + [t[0]]
    decreases |a|, 0
  {
    var s := a + t;
    assert !HasFenceAt(s, 0) by {
      if |a| >= 3 { assert s[0] == a[0] && s[1] == a[1] && s[2] == a[2]; }
      else { assert s[|a|] == t[0]; }
    }
    assert s[1..] == a[1..] + t;
    OpeningPassClosingTail(a[1..], t);
  }

  /** The text is one opening token with nothing after it, so the tail's
      fence is taken as a bare fence and deleted too. */
  lemma ClosingTailAfterBlank(a: seq<char>, t: seq<char>)
    requires IsClosingTail(t) && HasFenceAt(a, 0) && Blank(a[TagEnd(a)..])
    ensures Substitute(OpeningFence, a + t) == Substitute(OpeningFence, a) == []
  {
    BlankTokenLeavesNothing(a);
    BlankTokenThenTail(a, t);
  }

  /** An opening token alone leaves nothing. */
  lemma BlankTokenLeavesNothing(a: seq<char>)
    requires HasFenceAt(a, 0) && Blank(a[TagEnd(a)..])
    ensures Substitute(OpeningFence, a) == []
  {
    OpeningPassMatched(a);
    assert LStrip(a[TagEnd(a)..]) == [];
  }

  /** An opening token and the tail after it leave nothing. */
  lemma BlankTokenThenTail(a: seq<char>, t: seq<char>)
    requires IsClosingTail(t) && HasFenceAt(a, 0) && Blank(a[TagEnd(a)..])
    ensures Substitute(OpeningFence, a + t) == []
  {
    var n := BlankTokenThenTailShape(a, t);
    MatchedThenBareFence(a + t, n);
  }

  /** The shape of a blank opening token followed by a closing tail: the
      opening match ends just before the tail's fence. */
  lemma BlankTokenThenTailShape(a: seq<char>, t: seq<char>) returns (n: nat)
    requires IsClosingTail(t) && HasFenceAt(a, 0) && Blank(a[TagEnd(a)..])
    ensures var s := a + t;
            HasFenceAt(s, 0) && LeadingSpace(s[TagEnd(s)..]) == n &&
            HasFenceAt(s, TagEnd(s) + n) && BlankBetween(s, TagEnd(s) + n + 3, |s|)
  {
    var s := a + t;
    TagEndAppend(a, t);
    var c := TagEnd(a);
    n := |a| - c + 1;
    forall k | 0 <= k < n ensures IsSpace(s[c..][k]) {
      if c + k < |a| { assert s[c + k] == a[c..][k]; } else { assert s[c + k] == t[0]; }
    }
    assert s[c..][n] == t[1];
    LeadingSpaceUnique(s[c..], n);
    assert s[|a| + 1] == t[1] && s[|a| + 2] == t[2] && s[|a| + 3] == t[3];
    forall k | |a| + 4 <= k < |s| ensures IsSpace(s[k]) {
      assert s[k] == t[4..][k - |a| - 4];
    }
  }

  /** An opening match directly followed by a bare fence and whitespace
      leaves nothing. */
  lemma MatchedThenBareFence(s: seq<char>, n: nat)
    requires HasFenceAt(s, 0) && LeadingSpace(s[TagEnd(s)..]) == n
    requires HasFenceAt(s, TagEnd(s) + n) && BlankBetween(s, TagEnd(s) + n + 3, |s|)
    ensures Substitute(OpeningFence, s) == []
  {
    var e := TagEnd(s) + n;
    assert Substitute(OpeningFence, s) == Substitute(OpeningFence, s[e..]);
    var x := s[e..];
    forall k | 0 <= k < |x| - 3 ensures IsSpace(x[3..][k]) {
      assert x[3..][k] == s[e + 3 + k];
    }
    OpeningPassBareFence(x);
  }

  /** The opening token is followed by text: scanning resumes there. */
  lemma {:induction false} ClosingTailAfterText(a: seq<char>, t: seq<char>)
    requires IsClosingTail(t) && HasFenceAt(a, 0) && !Blank(a[TagEnd(a)..])
    ensures Substitute(OpeningFence, a + t) == Substitute(OpeningFence, a) ||
            Substitute(OpeningFence, a + t) == Substitute(OpeningFence, a) + [t[0]]
    decreases |a|, 0
  {
    var s := a + t;
    TagEndAppend(a, t);
    var v := a[TagEnd(a)..];
    assert s[TagEnd(a)..] == v + t;
    OpeningPassMatched(a);
    OpeningPassMatched(s);
    LStripNonBlankPrefix(v, t);
    OpeningPassClosingTail(LStrip(v), t);
  }

  /** A closing fence written straight after the text: three backticks, then
      nothing but whitespace. */
  predicate IsBareClosingTail(t: seq<char>) {
    HasFenceAt(t, 0) && Blank(t[3..])
  }

  /** A bare closing fence at the end of any text is deleted by the opening
      pass. Backticks at the end of the text may join it, but a joined run
      loses one more fence than the text's own backticks would, so what
      survives of the text is the same; at most whitespace of the tail is
      left after it. */
  lemma {:induction false} OpeningPassBareTail(a: seq<char>, t: seq<char>) returns (v: seq<char>)
    requires IsBareClosingTail(t)
    ensures Blank(v) && Substitute(OpeningFence, a + t) == Substitute(OpeningFence, a) + v
    decreases |a|
  {
    var s := a + t;
    if a == [] {
      assert s == t;
      OpeningPassBareFence(t);
      v := [];
    } else if HasFenceAt(a, 0) {
      v := BareTailAfterToken(a, t);
    } else if |a| < 3 && HasFenceAt(s, 0) {
      v := BareTailJoinsTicks(a, t);
    } else {
      v := BareTailKept(a, t);
    }
  }

  /** The case of `OpeningPassBareTail` where the text starts with a kept
      character. */
  lemma {:induction false} BareTailKept(a: seq<char>, t: seq<char>) returns (v: seq<char>)
    requires IsBareClosingTail(t) && a != [] && !HasFenceAt(a, 0)
    requires |a| >= 3 || !HasFenceAt(a + t, 0)
    ensures Blank(v) && Substitute(OpeningFence, a + t) == Substitute(OpeningFence, a) + v
    decreases |a|, 0
  {
    var s := a + t;
    assert !HasFenceAt(s, 0) by {
      if |a| >= 3 { assert s[0] == a[0] && s[1] == a[1] && s[2] == a[2]; }
    }
    assert s[1..] == a[1..] + t;
    v := OpeningPassBareTail(a[1..], t);
  }

  /** The text starts with an opening token; the match ends inside the text
      because the tail starts with a backtick, and scanning resumes there. */
  lemma {:induction false} BareTailAfterToken(a: seq<char>, t: seq<char>) returns (v: seq<char>)
    requires IsBareClosingTail(t) && HasFenceAt(a, 0)
    ensures Blank(v) && Substitute(OpeningFence, a + t) == Substitute(OpeningFence, a) + v
    decreases |a|, 0
  {
    var s := a + t;
    TagEndAppend(a, t);
    var c := TagEnd(a);
    var x := a[c..];
    assert s[c..] == x + t;
    OpeningPassMatched(a);
    OpeningPassMatched(s);
    if Blank(x) {
      LStripBlankPrefix(x, t);
      LeadingSpaceUnique(t, 0);
      assert LStrip(t) == t;
      OpeningPassBareFence(t);
      assert LStrip(x) == [];
      v := [];
    } else {
      LStripNonBlankPrefix(x, t);
      v := OpeningPassBareTail(LStrip(x), t);
    }
  }

  /** The text is one or two backticks, which join the tail's fence: the
      match takes three backticks and the same number of backticks remain. */
  lemma BareTailJoinsTicks(a: seq<char>, t: seq<char>) returns (v: seq<char>)
    requires IsBareClosingTail(t) && 0 < |a| < 3 && HasFenceAt(a + t, 0)
    ensures Blank(v) && Substitute(OpeningFence, a + t) == Substitute(OpeningFence, a) + v
  {
    var s := a + t;
    assert a[0] == s[0];
    assert |a| == 2 ==> a[1] == s[1];
    assert s[3] == t[3 - |a|] == '`';
    assert TagEnd(s) == 3;
    LeadingSpaceUnique(s[3..], 0);
    v := t[3..];
    var rest := a + v;
    assert s[3..] == rest by {
      forall k | 0 <= k < |rest| ensures s[3..][k] == rest[k] {
        if k < |a| { assert s[3 + k] == t[3 - |a| + k]; }
        else { assert s[3 + k] == t[3 - |a| + k] == v[k - |a|]; }
      }
    }
    assert NoFence(rest) by {
      forall i | 0 <= i < |rest| ensures !HasFenceAt(rest, i) {
        if i + 3 <= |rest| { assert rest[i + 2] == v[i + 2 - |a|]; }
      }
    }
    SubstituteFixesFenceFree(OpeningFence, rest);
    SubstituteFixesFenceFree(OpeningFence, a);
  }
}
