/** The string primitives the seeding script relies on: `String.prototype.indexOf`
    with a start position and `String.prototype.trim`. Strings are sequences of
    Unicode scalar values. */
module Text {
  import opened Results

  /** `pat` occurs in `s` starting at index `i`. */
  predicate OccursAt(s: string, pat: string, i: nat)
  {
    i + |pat| <= |s| && s[i..i + |pat|] == pat
  }

  /** `i` is the leftmost occurrence of `pat` in `s` at or after `from`. */
  ghost predicate IsFirstOccurrence(s: string, pat: string, from: nat, i: nat)
  {
    && from <= i
    && OccursAt(s, pat, i)
    && forall j :: from <= j < i ==> !OccursAt(s, pat, j)
  }

  /** `pat` does not occur in `s` at or after `from`. */
  ghost predicate AbsentFrom(s: string, pat: string, from: nat)
  {
    forall j :: from <= j ==> !OccursAt(s, pat, j)
  }

  /** A one-character pattern occurs exactly where that character stands. */
  lemma OccursAtSingle(s: string, ch: char)
    ensures forall i: nat :: OccursAt(s, [ch], i) <==> i < |s| && s[i] == ch
  {
    forall i: nat | i < |s|
      ensures OccursAt(s, [ch], i) <==> s[i] == ch
    {
      assert s[i..i + 1] == [s[i]];
    }
  }

  /** `s.indexOf(pat, from)`: the first index at or after `from` where `pat`
      occurs, with `None` standing for JavaScript's -1. */
  function IndexOf(s: string, pat: string, from: nat): (r: Option<nat>)
    ensures r.Some? ==> IsFirstOccurrence(s, pat, from, r.value)
    ensures r.None? <==> AbsentFrom(s, pat, from)
    decreases |s| - from
  {
    if from + |pat| > |s| then None
    else if s[from..from + |pat|] == pat then Some(from)
    else IndexOf(s, pat, from + 1)
  }

  /** `IndexOf` finds the first occurrence whenever there is one. */
  lemma IndexOfFindsFirst(s: string, pat: string, from: nat, i: nat)
    requires IsFirstOccurrence(s, pat, from, i)
    ensures IndexOf(s, pat, from) == Some(i)
  {
    var r := IndexOf(s, pat, from);
    assert r.Some?;
    assert r.value == i;
  }

  /** The characters `String.prototype.trim` removes: the WhiteSpace and
      LineTerminator code points of ECMAScript (section 12.2 and 12.3 of
      ECMA-262), including every space separator of Unicode category Zs. */
  predicate IsWhitespace(c: char)
  {
    || c == '\t' || c == '\n' || c == '\U{000B}' || c == '\U{000C}' || c == '\r'
    || c == ' ' || c == '\U{00A0}' || c == '\U{1680}'
    || ('\U{2000}' <= c <= '\U{200A}')
    || c == '\U{2028}' || c == '\U{2029}' || c == '\U{202F}' || c == '\U{205F}'
    || c == '\U{3000}' || c == '\U{FEFF}'
  }

  ghost predicate AllWhitespace(t: string)
  {
    forall i :: 0 <= i < |t| ==> IsWhitespace(t[i])
  }

  /** Neither end of `t` is whitespace. */
  predicate IsTrimmed(t: string)
  {
    |t| == 0 || (!IsWhitespace(t[0]) && !IsWhitespace(t[|t| - 1]))
  }

  /** `r` is what remains of `t` once its whitespace prefix and suffix are cut
      off: empty when `t` is all whitespace, otherwise the slice `t[a..b]`
      with only whitespace before `a` and from `b` on. */
  ghost predicate IsTrimOf(t: string, r: string)
  {
    if AllWhitespace(t) then r == []
    else exists a: nat, b: nat :: IsTrimSlice(t, a, b) && t[a..b] == r
  }

  /** `t[a..b]` is non-empty and trimmed, and everything outside it is whitespace. */
  ghost predicate IsTrimSlice(t: string, a: nat, b: nat)
  {
    && a < b <= |t|
    && !IsWhitespace(t[a]) && !IsWhitespace(t[b - 1])
    && (forall i :: 0 <= i < a ==> IsWhitespace(t[i]))
    && (forall i :: b <= i < |t| ==> IsWhitespace(t[i]))
  }

  /** Length of the longest whitespace prefix of `t`. */
  function LeadingWhitespace(t: string): (k: nat)
    ensures k <= |t|
    ensures forall i :: 0 <= i < k ==> IsWhitespace(t[i])
    ensures k < |t| ==> !IsWhitespace(t[k])
  {
    if |t| > 0 && IsWhitespace(t[0]) then
      var k := LeadingWhitespace(t[1..]);
      assert forall i :: 1 <= i < k + 1 ==> t[1..][i - 1] == t[i];
      1 + k
    else 0
  }

  /** Start of the longest whitespace suffix of `t`. */
  function TrailingWhitespace(t: string): (k: nat)
    ensures k <= |t|
    ensures forall i :: k <= i < |t| ==> IsWhitespace(t[i])
    ensures 0 < k ==> !IsWhitespace(t[k - 1])
  {
    if |t| > 0 && IsWhitespace(t[|t| - 1]) then
      TrailingWhitespace(t[..|t| - 1])
    else |t|
  }

  /** `t.trim()`. */
  function Trim(t: string): (r: string)
    ensures IsTrimOf(t, r)
    ensures IsTrimmed(r)
    ensures |r| <= |t|
    ensures forall i :: 0 <= i < |r| ==> r[i] in t
  {
    var a := LeadingWhitespace(t);
    var b := TrailingWhitespace(t);
    if a < b then
      assert IsTrimSlice(t, a, b);
      t[a..b]
    else
      []
  }

  /** The trimming specification determines its result. */
  lemma TrimOfUnique(t: string, r1: string, r2: string)
    requires IsTrimOf(t, r1) && IsTrimOf(t, r2)
    ensures r1 == r2
  {
    if !AllWhitespace(t) {
      var a1: nat, b1: nat :| IsTrimSlice(t, a1, b1) && t[a1..b1] == r1;
      var a2: nat, b2: nat :| IsTrimSlice(t, a2, b2) && t[a2..b2] == r2;
      assert a1 == a2 && b1 == b2;
    }
  }

  /** A trimmed string is its own trim, so trimming twice is trimming once. */
  lemma TrimIdempotent(t: string)
    ensures IsTrimmed(t) ==> Trim(t) == t
    ensures Trim(Trim(t)) == Trim(t)
  {
    if IsTrimmed(t) && |t| > 0 {
      assert IsTrimSlice(t, 0, |t|) && t[0..|t|] == t;
      TrimOfUnique(t, Trim(t), t);
    }
    var r := Trim(t);
    if |r| > 0 {
      assert IsTrimSlice(r, 0, |r|) && r[0..|r|] == r;
      TrimOfUnique(r, Trim(r), r);
    }
  }
}
