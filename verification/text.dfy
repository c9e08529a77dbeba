/** Whitespace and Python's `str.strip()`, as the SQL cleaner uses them. */
module Text {

  /** The characters the regex class `\s` matches and `str.strip()` removes,
      restricted to ASCII: space, and tab, line feed, vertical tab, form feed
      and carriage return (the contiguous codes 9 to 13). */
  predicate IsSpace(c: char) {
    c == ' ' || '\t' <= c <= '\r'
  }

  /** Every character of `s` is whitespace (the empty string included). */
  predicate Blank(s: seq<char>) {
    forall i :: 0 <= i < |s| ==> IsSpace(s[i])
  }

  /** `s` neither begins nor ends with whitespace. */
  predicate NoEdgeSpace(s: seq<char>) {
    s == [] || (!IsSpace(s[0]) && !IsSpace(s[|s| - 1]))
  }

  /** The length of the longest whitespace prefix of `s`. */
  function LeadingSpace(s: seq<char>): (n: nat)
    ensures n <= |s|
    ensures forall k :: 0 <= k < n ==> IsSpace(s[k])
    ensures n < |s| ==> !IsSpace(s[n])
  {
    if s != [] && IsSpace(s[0]) then
      var n := 1 + LeadingSpace(s[1..]);
      assert forall k :: 1 <= k < n ==> s[k] == s[1..][k - 1];
      n
    else 0
  }

  /** Where the longest whitespace suffix of `s` begins. */
  function TrailingSpace(s: seq<char>): (n: nat)
    ensures n <= |s|
    ensures forall k :: n <= k < |s| ==> IsSpace(s[k])
    ensures 0 < n ==> !IsSpace(s[n - 1])
  {
    if s != [] && IsSpace(s[|s| - 1]) then TrailingSpace(s[..|s| - 1]) else |s|
  }

  /** The whitespace prefix is determined by its two defining properties. */
  lemma LeadingSpaceUnique(s: seq<char>, n: nat)
    requires n <= |s|
    requires forall k :: 0 <= k < n ==> IsSpace(s[k])
    requires n < |s| ==> !IsSpace(s[n])
    ensures LeadingSpace(s) == n
  {
  }

  /** The whitespace suffix is determined by its two defining properties. */
  lemma TrailingSpaceUnique(s: seq<char>, n: nat)
    requires n <= |s|
    requires forall k :: n <= k < |s| ==> IsSpace(s[k])
    requires 0 < n ==> !IsSpace(s[n - 1])
    ensures TrailingSpace(s) == n
  {
  }

  /** `s.lstrip()`. */
  function LStrip(s: seq<char>): (r: seq<char>) {
    s[LeadingSpace(s)..]
  }

  /** `s.rstrip()`. */
  function RStrip(s: seq<char>): (r: seq<char>) {
    s[..TrailingSpace(s)]
  }

  /** `s.strip()`: whitespace removed from both ends. */
  function Strip(s: seq<char>): (r: seq<char>)
    ensures NoEdgeSpace(r)
    ensures r == [] <==> Blank(s)
    ensures NoEdgeSpace(s) ==> r == s
  {
    var l := LStrip(s);
    var r := RStrip(l);
    assert r != [] ==> r[0] == l[0] == s[LeadingSpace(s)];
    assert NoEdgeSpace(s) && s != [] ==> LeadingSpace(s) == 0 && TrailingSpace(s) == |s|;
    r
  }

  /** Whitespace in front of `x` does not survive `lstrip()`. */
  lemma LStripBlankPrefix(w: seq<char>, x: seq<char>)
    requires Blank(w)
    ensures LStrip(w + x) == LStrip(x)
  {
    var s := w + x;
    var n := LeadingSpace(x);
    forall k | 0 <= k < |w| + n ensures IsSpace(s[k]) {
      if k >= |w| { assert s[k] == x[k - |w|]; }
    }
    if |w| + n < |s| { assert s[|w| + n] == x[n]; }
    LeadingSpaceUnique(s, |w| + n);
    assert s[|w| + n..] == x[n..];
  }

  /** Once `x` holds a non-space, `lstrip()` of `x + y` stops inside `x`. */
  lemma LStripNonBlankPrefix(x: seq<char>, y: seq<char>)
    requires !Blank(x)
    ensures LStrip(x + y) == LStrip(x) + y
  {
    var s := x + y;
    var n := LeadingSpace(x);
    assert n < |x|;
    forall k | 0 <= k < n ensures IsSpace(s[k]) {
      assert s[k] == x[k];
    }
    assert s[n] == x[n];
    LeadingSpaceUnique(s, n);
    assert s[n..] == x[n..] + y;
  }

  /** Whitespace after `x` does not survive `rstrip()`. */
  lemma RStripBlankSuffix(x: seq<char>, w: seq<char>)
    requires Blank(w)
    ensures RStrip(x + w) == RStrip(x)
  {
    var s := x + w;
    var n := TrailingSpace(x);
    forall k | n <= k < |s| ensures IsSpace(s[k]) {
      if k < |x| { assert s[k] == x[k]; } else { assert s[k] == w[k - |x|]; }
    }
    if 0 < n { assert s[n - 1] == x[n - 1]; }
    TrailingSpaceUnique(s, n);
    assert s[..n] == x[..n];
  }

  /** Whitespace in front of `x` does not survive `strip()`. */
  lemma StripBlankPrefix(w: seq<char>, x: seq<char>)
    requires Blank(w)
    ensures Strip(w + x) == Strip(x)
  {
    LStripBlankPrefix(w, x);
  }

  /** Whitespace after `x` does not survive `strip()`. */
  lemma StripBlankSuffix(x: seq<char>, w: seq<char>)
    requires Blank(w)
    ensures Strip(x + w) == Strip(x)
  {
    if Blank(x) {
      assert Blank(x + w) by {
        forall i | 0 <= i < |x + w| ensures IsSpace((x + w)[i]) {
          if i < |x| { assert (x + w)[i] == x[i]; } else { assert (x + w)[i] == w[i - |x|]; }
        }
      }
    } else {
      LStripNonBlankPrefix(x, w);
      RStripBlankSuffix(LStrip(x), w);
    }
  }
}
