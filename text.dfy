/** The three string operations the widget relies on: `trim`, `toLowerCase`
    and `includes`, on strings as sequences of characters. */
module Text {

  /** The code points JavaScript's `String.prototype.trim` strips: the
      WhiteSpace class (tab, vertical tab, form feed, the byte order mark and
      every space separator) and the LineTerminator class. */
  predicate IsWhite(c: char) {
    c == '\t' || c == '\n' || c == '\U{000B}' || c == '\U{000C}' || c == '\r'
    || c == ' ' || c == '\U{00A0}' || c == '\U{1680}'
    || ('\U{2000}' <= c <= '\U{200A}')
    || c == '\U{2028}' || c == '\U{2029}' || c == '\U{202F}' || c == '\U{205F}'
    || c == '\U{3000}' || c == '\U{FEFF}'
  }

  predicate AllWhite(s: string) {
    forall i :: 0 <= i < |s| ==> IsWhite(s[i])
  }

  /** Neither end of `s` is white space. */
  predicate Tight(s: string) {
    s == [] || (!IsWhite(s[0]) && !IsWhite(s[|s| - 1]))
  }

  /** `r` sits at offset `a` of `s` with nothing but white space around it. */
  ghost predicate PaddedAt(s: string, r: string, a: int) {
    0 <= a && a + |r| <= |s| && s[a..a + |r|] == r
    && (forall k :: 0 <= k < a ==> IsWhite(s[k]))
    && (forall k :: a + |r| <= k < |s| ==> IsWhite(s[k]))
  }

  /** The first index at or after `i` that holds no white space (or `|s|`). */
  function SkipWhite(s: string, i: nat): (r: nat)
    requires i <= |s|
    ensures i <= r <= |s|
    ensures forall k :: i <= k < r ==> IsWhite(s[k])
    ensures r < |s| ==> !IsWhite(s[r])
    decreases |s| - i
  {
    if i < |s| && IsWhite(s[i]) then SkipWhite(s, i + 1) else i
  }

  /** The index just after the last character before `j` and not before `lo` that is not white space (or `lo`). */
  function SkipWhiteBack(s: string, lo: nat, j: nat): (r: nat)
    requires lo <= j <= |s|
    ensures lo <= r <= j
    ensures forall k :: r <= k < j ==> IsWhite(s[k])
    ensures r > lo ==> !IsWhite(s[r - 1])
  {
    if j > lo && IsWhite(s[j - 1]) then SkipWhiteBack(s, lo, j - 1) else j
  }

  /** `s.trim()`: the part of `s` left after removing white space at both ends. */
  function Trim(s: string): (r: string)
    ensures Tight(r)
    ensures exists a :: PaddedAt(s, r, a)
    ensures r == [] <==> AllWhite(s)
  {
    var a := SkipWhite(s, 0);
    var b := SkipWhiteBack(s, a, |s|);
    assert PaddedAt(s, s[a..b], a);
    s[a..b]
  }

  /** The converse of Trim's contract: whatever white space surrounds a string
      with non-white ends, Trim removes exactly that. */
  lemma TrimOfPadded(lead: string, core: string, tail: string)
    requires AllWhite(lead) && AllWhite(tail) && Tight(core)
    ensures Trim(lead + core + tail) == core
  {
    var s := lead + core + tail;
    var a := SkipWhite(s, 0);
    var b := SkipWhiteBack(s, a, |s|);
    if core == [] {
      assert forall k :: 0 <= k < |s| ==> IsWhite(s[k]) by {
        forall k | 0 <= k < |s| ensures IsWhite(s[k]) {
          if k < |lead| { assert s[k] == lead[k]; } else { assert s[k] == tail[k - |lead|]; }
        }
      }
    } else {
      var m := |lead|;
      var n := |lead| + |core|;
      assert s[m] == core[0] && s[n - 1] == core[|core| - 1];
      assert forall k :: 0 <= k < m ==> s[k] == lead[k];
      assert forall k :: n <= k < |s| ==> s[k] == tail[k - n];
      assert a == m;
      assert b == n;
      assert s[m..n] == core;
    }
  }

  lemma TrimIdempotent(s: string)
    ensures Trim(Trim(s)) == Trim(s)
  {
    var r := Trim(s);
    assert [] + r + [] == r;
    TrimOfPadded([], r, []);
  }

  /** The one-character case of `toLowerCase` this model keeps: ASCII
      capital letters map to small letters, every other character is kept. */
  function LowerChar(c: char): char {
    if 'A' <= c <= 'Z' then (c as int + 32) as char else c
  }

  /** `s.toLowerCase()`, restricted to the ASCII letters. */
  function Lower(s: string): (r: string)
    ensures |r| == |s|
    ensures forall i :: 0 <= i < |s| ==> r[i] == LowerChar(s[i])
  {
    if s == [] then [] else [LowerChar(s[0])] + Lower(s[1..])
  }

  /** `n` occurs in `h` starting at index `i`. */
  ghost predicate OccursAt(h: string, n: string, i: int) {
    0 <= i && i + |n| <= |h| && h[i..i + |n|] == n
  }

  /** `h.includes(n)`: the search tries every start position from the left. */
  function Contains(h: string, n: string): (r: bool)
    ensures r <==> exists i :: OccursAt(h, n, i)
    decreases |h|
  {
    if |n| > |h| then
      false
    else if h[..|n|] == n then
      assert OccursAt(h, n, 0);
      true
    else
      var r := Contains(h[1..], n);
      assert r ==> exists i :: OccursAt(h, n, i) by {
        if r {
          var i :| OccursAt(h[1..], n, i);
          assert h[i + 1..i + 1 + |n|] == h[1..][i..i + |n|];
          assert OccursAt(h, n, i + 1);
        }
      }
      assert (exists i :: OccursAt(h, n, i)) ==> r by {
        if exists i :: OccursAt(h, n, i) {
          var i :| OccursAt(h, n, i);
          assert i != 0;
          assert h[1..][i - 1..i - 1 + |n|] == h[i..i + |n|];
          assert OccursAt(h[1..], n, i - 1);
        }
      }
      r
  }

  lemma EmptyIsContained(h: string)
    ensures Contains(h, [])
  {
    assert OccursAt(h, [], 0);
  }
}
