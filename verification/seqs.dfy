/** Small facts about sequences used by several modules. */
module Seqs {
  /** A non-empty sequence is its first element followed by the rest. */
  lemma SplitFirst<T>(xs: seq<T>, x: T, rest: seq<T>)
    requires |xs| > 0 && xs[0] == x && xs[1..] == rest
    ensures xs == [x] + rest
  {
  }

  /** Joining is associative. */
  lemma Associative<T>(a: seq<T>, b: seq<T>, c: seq<T>)
    ensures (a + b) + c == a + (b + c)
  {
  }

  /** A slice of a suffix is a slice of the whole, shifted by the suffix's
      start. */
  lemma SliceOfSuffix<T>(s: seq<T>, d: nat, lo: nat, hi: nat)
    requires d <= |s| && lo <= hi <= |s| - d
    ensures s[d..][lo..hi] == s[d + lo..d + hi]
  {
  }
}
