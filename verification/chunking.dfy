/** The batching of `seedCityStats`: `for (i = 0; i < n; i += 400)
    cities.slice(i, i + 400)`. */
module Chunking {
  import Seqs

  /** Names per batch: the limit on writes in one Firestore batch. */
  const ChunkSize: nat := 400

  /** The chunks joined back together. */
  function Flatten<T>(chunks: seq<seq<T>>): seq<T>
  {
    if |chunks| == 0 then [] else chunks[0] + Flatten(chunks[1..])
  }

  /** The consecutive slices of `s` of `ChunkSize` elements, the last one
      possibly shorter. */
  function Chunks<T>(s: seq<T>): (r: seq<seq<T>>)
    ensures forall k :: 0 <= k < |r| ==> 0 < |r[k]| <= ChunkSize
    ensures forall k :: 0 <= k < |r| - 1 ==> |r[k]| == ChunkSize
    decreases |s|
  {
    if |s| == 0 then []
    else if |s| <= ChunkSize then [s]
    else
      var rest := Chunks(s[ChunkSize..]);
      assert ([s[..ChunkSize]] + rest)[1..] == rest;
      [s[..ChunkSize]] + rest
  }

  /** The chunks join back to the whole list: nothing is lost, repeated or
      reordered. */
  lemma {:induction false} ChunksJoin<T>(s: seq<T>)
    ensures Flatten(Chunks(s)) == s
    decreases |s|
  {
    if 0 < |s| <= ChunkSize {
      assert Chunks(s) == [s];
      assert Flatten([s]) == s + Flatten([]);
    } else if |s| > ChunkSize {
      var t := s[ChunkSize..];
      var r := Chunks(s);
      assert r == [s[..ChunkSize]] + Chunks(t);
      assert r[1..] == Chunks(t);
      ChunksJoin(t);
      assert Flatten(r) == s[..ChunkSize] + t;
    }
  }

  /** There are `ceil(|s| / ChunkSize)` chunks: one loop turn per started
      block of `ChunkSize`. */
  lemma {:induction false} ChunkCount<T>(s: seq<T>)
    ensures |Chunks(s)| == (|s| + ChunkSize - 1) / ChunkSize
    decreases |s|
  {
    if |s| > ChunkSize {
      var t := s[ChunkSize..];
      assert Chunks(s) == [s[..ChunkSize]] + Chunks(t);
      ChunkCount(t);
      assert |t| + ChunkSize - 1 + ChunkSize == |s| + ChunkSize - 1;
    }
  }

  /** Where chunk `k` begins: the loop's `i` on its `k`-th turn. */
  function Offset(k: nat): nat
  {
    if k == 0 then 0 else Offset(k - 1) + ChunkSize
  }

  /** The loop's `i` on its `k`-th turn is `k * ChunkSize`. */
  lemma {:induction false} OffsetIsProduct(k: nat)
    ensures Offset(k) == k * ChunkSize
  {
    if k > 0 {
      OffsetIsProduct(k - 1);
      assert (k - 1) * ChunkSize + ChunkSize == k * ChunkSize;
    }
  }

  /** Chunk `k` is the slice of `s` from `Offset(k)`, which is
      `k * ChunkSize`, to `ChunkSize` further on, cut at the end of `s`: the
      `slice(i, i + 400)` of the loop's `k`-th turn. */
  lemma {:induction false} ChunkIsSlice<T>(s: seq<T>, k: nat)
    requires k < |Chunks(s)|
    ensures Offset(k) < |s|
    ensures Chunks(s)[k] == s[Offset(k)..if Offset(k) + ChunkSize < |s| then Offset(k) + ChunkSize else |s|]
    decreases |s|
  {
    if |s| <= ChunkSize {
      assert Chunks(s) == [s];
      assert s[0..|s|] == s;
    } else {
      var t := s[ChunkSize..];
      assert Chunks(s) == [s[..ChunkSize]] + Chunks(t);
      if k > 0 {
        assert Chunks(s)[k] == Chunks(t)[k - 1];
        ChunkIsSlice(t, k - 1);
        var lo := Offset(k - 1);
        var hi := if lo + ChunkSize < |t| then lo + ChunkSize else |t|;
        Seqs.SliceOfSuffix(s, ChunkSize, lo, hi);
      }
    }
  }

  /** 801 names make three batches: 400, 400 and 1. */
  lemma ChunksOf801<T>(s: seq<T>)
    requires |s| == 801
    ensures |Chunks(s)| == 3
    ensures |Chunks(s)[0]| == 400 && |Chunks(s)[1]| == 400 && |Chunks(s)[2]| == 1
  {
    ChunkCount(s);
    ChunkIsSlice(s, 2);
  }
}
