/** `seedCityStats` of scripts/seed_city_stats.js, with the `city_stats`
    collection of Firestore as a map from document id to document. Reads,
    batched writes and commits become map lookups and updates; a run either
    fails while loading the names, before any write, or applies every
    chunk's writes. */
module Seeder {
  import opened Results
  import Chunking
  import CityNames
  import Seqs

  /** A field value, told apart only as far as `typeof` does: numbers
      (integers here) and everything else. */
  datatype Value = Number(n: int) | Str(s: string) | Bool(b: bool) | Null | Other

  /** A document: its fields by name. */
  type Doc = map<string, Value>

  /** The `city_stats` collection: documents by id. */
  type Store = map<string, Doc>

  /** The counter the script backfills. */
  const CountField: string := "onlineCount"

  /** The two counters the script reports. */
  datatype Tally = Tally(updated: nat, skipped: nat)

  /** `data && typeof data.onlineCount === 'number'`: the document exists and
      its counter is a number. */
  predicate HasCount(store: Store, name: string)
  {
    name in store && CountField in store[name] && store[name][CountField].Number?
  }

  /** The document `name` once `{ onlineCount: 0 }` is merged into it: a
      missing document is created with just the counter. */
  function MergedDoc(store: Store, name: string): (d: Doc)
    ensures CountField in d && d[CountField] == Number(0)
    ensures forall f :: f != CountField ==> (f in d <==> name in store && f in store[name])
    ensures forall f :: f != CountField && f in d ==> d[f] == store[name][f]
  {
    (if name in store then store[name] else map[])[CountField := Number(0)]
  }

  /** What a run makes of the document `name`: left alone when it already
      has a numeric counter, otherwise given a zero counter by merge. */
  function SeededDoc(store: Store, name: string): (d: Doc)
    ensures CountField in d && d[CountField].Number?
    ensures HasCount(store, name) ==> d == store[name]
    ensures !HasCount(store, name) ==> d == MergedDoc(store, name)
  {
    if HasCount(store, name) then store[name] else MergedDoc(store, name)
  }

  /** `batch.set(collection.doc(name), { onlineCount: 0 }, { merge: true })`
      once committed. */
  function MergeCount(store: Store, name: string): (r: Store)
    ensures r.Keys == store.Keys + {name}
    ensures r[name] == MergedDoc(store, name)
    ensures forall n :: n in store && n != name ==> r[n] == store[n]
  {
    store[name := MergedDoc(store, name)]
  }

  /** Merging the counter twice is merging it once. */
  lemma MergeTwice(store: Store, name: string, n: string)
    ensures MergedDoc(MergeCount(store, name), n) == MergedDoc(store, n)
  {
    if n == name {
      var d := MergedDoc(store, n);
      assert d[CountField := Number(0)] == d;
    }
  }

  /** The names of a chunk that get a write, in chunk order: those whose
      document, as read before the chunk, lacks a numeric counter. A name
      listed twice is written twice. */
  function Pending(store: Store, chunk: seq<string>): (r: seq<string>)
    ensures |r| <= |chunk|
  {
    if |chunk| == 0 then []
    else (if HasCount(store, chunk[0]) then [] else [chunk[0]]) + Pending(store, chunk[1..])
  }

  /** A name gets a write exactly when the chunk lists it and it lacks a
      numeric counter. */
  lemma {:induction false} PendingMembers(store: Store, chunk: seq<string>)
    ensures forall n :: n in Pending(store, chunk) <==> n in chunk && !HasCount(store, n)
  {
    if |chunk| > 0 {
      PendingMembers(store, chunk[1..]);
      assert chunk == [chunk[0]] + chunk[1..];
    }
  }

  /** A chunk stages no write exactly when every name it lists has a
      numeric counter. */
  lemma PendingNone(store: Store, chunk: seq<string>)
    ensures Pending(store, chunk) == [] <==> forall n :: n in chunk ==> HasCount(store, n)
  {
    var r := Pending(store, chunk);
    PendingMembers(store, chunk);
    if |r| > 0 {
      assert r[0] in r;
    }
  }

  /** A name is staged once per listing when it lacks a numeric counter,
      and never otherwise: repeats in a chunk are all read before the
      commit, so each of them is written. */
  lemma {:induction false} PendingRepeats(store: Store, chunk: seq<string>, n: string)
    ensures multiset(Pending(store, chunk))[n] == if HasCount(store, n) then 0 else multiset(chunk)[n]
  {
    if |chunk| > 0 {
      var head := if HasCount(store, chunk[0]) then [] else [chunk[0]];
      PendingRepeats(store, chunk[1..], n);
      assert chunk == [chunk[0]] + chunk[1..];
      assert multiset(Pending(store, chunk)) == multiset(head) + multiset(Pending(store, chunk[1..]));
    }
  }

  /** `batch.commit()`: the staged writes applied in order. */
  function ApplyWrites(store: Store, writes: seq<string>): (r: Store)
    ensures forall n :: n in r <==> n in store || n in writes
    ensures forall n :: n in writes ==> r[n] == MergedDoc(store, n)
    ensures forall n :: n in store && n !in writes ==> r[n] == store[n]
    decreases |writes|
  {
    if |writes| == 0 then store
    else
      var next := MergeCount(store, writes[0]);
      forall n ensures MergedDoc(next, n) == MergedDoc(store, n) {
        MergeTwice(store, writes[0], n);
      }
      ApplyWrites(next, writes[1..])
  }

  /** One turn of the loop: read every name of the chunk from the store as
      it stands, stage a merge for each one without a numeric counter,
      commit, and count. */
  function SeedChunk(store: Store, chunk: seq<string>): (r: (Store, Tally))
    ensures r.1.updated == |Pending(store, chunk)|
    ensures r.1.updated + r.1.skipped == |chunk|
    ensures forall n :: n in r.0 <==> n in store || n in chunk
    ensures forall n :: n in chunk ==> r.0[n] == SeededDoc(store, n)
    ensures forall n :: n in store && n !in chunk ==> r.0[n] == store[n]
  {
    var writes := Pending(store, chunk);
    PendingMembers(store, chunk);
    (ApplyWrites(store, writes), Tally(|writes|, |chunk| - |writes|))
  }

  /** A chunk never changes what a later chunk would make of any document. */
  lemma SeedChunkKeepsTarget(store: Store, chunk: seq<string>, n: string)
    ensures SeededDoc(SeedChunk(store, chunk).0, n) == SeededDoc(store, n)
  {
  }

  /** Within one chunk, a name lacking a numeric counter adds one update
      for every time the chunk lists it. */
  lemma SeedChunkCountsRepeats(store: Store, chunk: seq<string>, n: string)
    requires !HasCount(store, n)
    ensures SeedChunk(store, chunk).1.updated >= multiset(chunk)[n]
  {
    PendingRepeats(store, chunk, n);
    var p := Pending(store, chunk);
    assert |multiset(p)| == |p|;
    assert multiset(p)[n] <= |multiset(p)|;
  }

  /** The loop over the chunks, adding up the counters. */
  function SeedChunks(store: Store, chunks: seq<seq<string>>): (r: (Store, Tally))
    ensures r.1.updated + r.1.skipped == |Chunking.Flatten(chunks)|
    ensures forall n :: n in r.0 <==> n in store || n in Chunking.Flatten(chunks)
    ensures forall n :: n in Chunking.Flatten(chunks) ==> r.0[n] == SeededDoc(store, n)
    ensures forall n :: n in store && n !in Chunking.Flatten(chunks) ==> r.0[n] == store[n]
    decreases |chunks|
  {
    if |chunks| == 0 then (store, Tally(0, 0))
    else
      var first := SeedChunk(store, chunks[0]);
      var rest := SeedChunks(first.0, chunks[1..]);
      forall n ensures SeededDoc(first.0, n) == SeededDoc(store, n) {
        SeedChunkKeepsTarget(store, chunks[0], n);
      }
      (rest.0, Tally(first.1.updated + rest.1.updated, first.1.skipped + rest.1.skipped))
  }

  /** The whole seeding run over the loaded names. */
  function Seed(store: Store, names: seq<string>): (r: (Store, Tally))
    ensures r.1.updated + r.1.skipped == |names|
    ensures forall n :: n in r.0 <==> n in store || n in names
    ensures forall n :: n in names ==> HasCount(r.0, n)
    ensures forall n :: n in names ==> r.0[n] == SeededDoc(store, n)
    ensures forall n :: n in store && n !in names ==> r.0[n] == store[n]
  {
    Chunking.ChunksJoin(names);
    SeedChunks(store, Chunking.Chunks(names))
  }

  /** Membership in the joined chunks is membership in the first chunk or in
      the join of the others. */
  lemma FlattenMember(chunks: seq<seq<string>>, n: string)
    requires |chunks| > 0
    ensures n in Chunking.Flatten(chunks) <==> n in chunks[0] || n in Chunking.Flatten(chunks[1..])
  {
  }

  /** A run over names that all have a numeric counter writes nothing and
      skips them all. */
  lemma {:induction false} SeedChunksNoop(store: Store, chunks: seq<seq<string>>)
    requires forall n :: n in Chunking.Flatten(chunks) ==> HasCount(store, n)
    ensures SeedChunks(store, chunks) == (store, Tally(0, |Chunking.Flatten(chunks)|))
    decreases |chunks|
  {
    if |chunks| > 0 {
      forall n | n in chunks[0] ensures HasCount(store, n) {
        FlattenMember(chunks, n);
      }
      forall n | n in Chunking.Flatten(chunks[1..]) ensures HasCount(store, n) {
        FlattenMember(chunks, n);
      }
      PendingNone(store, chunks[0]);
      assert SeedChunk(store, chunks[0]) == (store, Tally(0, |chunks[0]|));
      SeedChunksNoop(store, chunks[1..]);
    }
  }

  /** Running the seeder again on what it produced changes nothing and
      reports every name as skipped. */
  lemma SeedIdempotent(store: Store, names: seq<string>)
    ensures Seed(Seed(store, names).0, names) == (Seed(store, names).0, Tally(0, |names|))
  {
    Chunking.ChunksJoin(names);
    SeedChunksNoop(Seed(store, names).0, Chunking.Chunks(names));
  }

  /** A name without a numeric counter in the initial store is written by
      the first chunk that lists it, so some update is reported. */
  lemma {:induction false} SeedChunksUpdates(store: Store, chunks: seq<seq<string>>, n: string)
    requires n in Chunking.Flatten(chunks) && !HasCount(store, n)
    ensures SeedChunks(store, chunks).1.updated > 0
    decreases |chunks|
  {
    FlattenMember(chunks, n);
    if n in chunks[0] {
      PendingMembers(store, chunks[0]);
    } else {
      SeedChunksUpdates(SeedChunk(store, chunks[0]).0, chunks[1..], n);
    }
  }

  /** A run reports no update exactly when every listed name already had a
      numeric counter. */
  lemma SeedUpdatesNothingIff(store: Store, names: seq<string>)
    ensures Seed(store, names).1.updated == 0 <==> forall n :: n in names ==> HasCount(store, n)
  {
    Chunking.ChunksJoin(names);
    if forall n :: n in names ==> HasCount(store, n) {
      SeedChunksNoop(store, Chunking.Chunks(names));
    } else {
      var n :| n in names && !HasCount(store, n);
      SeedChunksUpdates(store, Chunking.Chunks(names), n);
    }
  }

  /** No name is listed twice. */
  predicate NoDuplicates(names: seq<string>)
  {
    forall i, j :: 0 <= i < j < |names| ==> names[i] != names[j]
  }

  /** Without repeats in a join, the second part has none either and shares
      no name with the first. */
  lemma NoDuplicatesSplit(a: seq<string>, b: seq<string>)
    requires NoDuplicates(a + b)
    ensures NoDuplicates(b)
    ensures forall n :: n in b ==> n !in a
  {
    forall i, j | 0 <= i < j < |b| ensures b[i] != b[j] {
      assert (a + b)[|a| + i] == b[i] && (a + b)[|a| + j] == b[j];
    }
    forall n | n in b ensures n !in a {
      var j :| 0 <= j < |b| && b[j] == n;
      forall i | 0 <= i < |a| ensures a[i] != n {
        assert (a + b)[i] == a[i] && (a + b)[|a| + j] == b[j];
      }
    }
  }

  /** Staging works name by name, so a join stages the writes of its parts
      in order. */
  lemma {:induction false} PendingAppend(store: Store, a: seq<string>, b: seq<string>)
    ensures Pending(store, a + b) == Pending(store, a) + Pending(store, b)
  {
    if |a| > 0 {
      var x, t := a[0], a[1..];
      var head := if HasCount(store, x) then [] else [x];
      assert (a + b)[0] == x && (a + b)[1..] == t + b;
      assert Pending(store, a + b) == head + Pending(store, t + b);
      PendingAppend(store, t, b);
      assert Pending(store, a) == head + Pending(store, t);
      Seqs.Associative(head, Pending(store, t), Pending(store, b));
    } else {
      assert a + b == b;
    }
  }

  /** Two stores that agree on which listed names have a numeric counter
      stage the same writes. */
  lemma {:induction false} PendingAgree(s1: Store, s2: Store, names: seq<string>)
    requires forall n :: n in names ==> (HasCount(s1, n) <==> HasCount(s2, n))
    ensures Pending(s1, names) == Pending(s2, names)
  {
    if |names| > 0 {
      assert names[0] in names;
      PendingAgree(s1, s2, names[1..]);
    }
  }

  /** A store in which more of the listed names have a numeric counter
      stages no more writes. */
  lemma {:induction false} PendingMonotone(s1: Store, s2: Store, names: seq<string>)
    requires forall n :: n in names && HasCount(s2, n) ==> HasCount(s1, n)
    ensures |Pending(s1, names)| <= |Pending(s2, names)|
  {
    if |names| > 0 {
      assert names[0] in names;
      PendingMonotone(s1, s2, names[1..]);
    }
  }

  /** Each name is written at most as often as it is listed without a
      numeric counter in the initial store: a chunk sees what earlier chunks
      wrote. */
  lemma {:induction false} SeedChunksUpdateBound(store: Store, chunks: seq<seq<string>>)
    ensures SeedChunks(store, chunks).1.updated <= |Pending(store, Chunking.Flatten(chunks))|
    decreases |chunks|
  {
    if |chunks| > 0 {
      var first := SeedChunk(store, chunks[0]);
      var rest := Chunking.Flatten(chunks[1..]);
      SeedChunksUpdateBound(first.0, chunks[1..]);
      PendingMonotone(first.0, store, rest);
      PendingAppend(store, chunks[0], rest);
    }
  }

  /** With every name listed once, each chunk reads the names it lists just
      as they were before the run, so the updates are exactly the names that
      lacked a numeric counter. */
  lemma {:induction false} SeedChunksUpdateDistinct(store: Store, chunks: seq<seq<string>>)
    requires NoDuplicates(Chunking.Flatten(chunks))
    ensures SeedChunks(store, chunks).1.updated == |Pending(store, Chunking.Flatten(chunks))|
    decreases |chunks|
  {
    if |chunks| > 0 {
      var c := chunks[0];
      var first := SeedChunk(store, c);
      var rest := Chunking.Flatten(chunks[1..]);
      assert Chunking.Flatten(chunks) == c + rest;
      NoDuplicatesSplit(c, rest);
      PendingAgree(first.0, store, rest);
      SeedChunksUpdateDistinct(first.0, chunks[1..]);
      PendingAppend(store, c, rest);
    }
  }

  /** The reported updates never exceed the listed names lacking a numeric
      counter at the start, and equal them when no name is listed twice. */
  lemma SeedUpdateCount(store: Store, names: seq<string>)
    ensures Seed(store, names).1.updated <= |Pending(store, names)|
    ensures NoDuplicates(names) ==> Seed(store, names).1.updated == |Pending(store, names)|
  {
    Chunking.ChunksJoin(names);
    SeedChunksUpdateBound(store, Chunking.Chunks(names));
    if NoDuplicates(names) {
      SeedChunksUpdateDistinct(store, Chunking.Chunks(names));
    }
  }

  /** A missing name listed twice in one chunk is read as missing both times,
      written twice and reported twice. */
  lemma DuplicateInChunkCountedTwice()
    ensures Seed(map[], ["Adana", "Adana"]) == (map["Adana" := map[CountField := Number(0)]], Tally(2, 0))
  {
    var names := ["Adana", "Adana"];
    var doc := map[CountField := Number(0)];
    assert Chunking.Chunks(names) == [names];
    assert Pending(map[], names) == names;
    assert MergeCount(map[], "Adana") == map["Adana" := doc];
    assert doc[CountField := Number(0)] == doc;
    assert MergedDoc(map["Adana" := doc], "Adana") == doc;
    assert MergeCount(map["Adana" := doc], "Adana") == map["Adana" := doc];
    assert ApplyWrites(map[], names) == map["Adana" := doc];
    assert SeedChunk(map[], names) == (map["Adana" := doc], Tally(2, 0));
    assert SeedChunks(map["Adana" := doc], [names][1..]) == (map["Adana" := doc], Tally(0, 0));
  }

  /** `seedCityStats()`: load the names from the contents of the Dart file,
      then seed them. A loading error ends the run before the store is read
      or written. */
  function SeedCityStats(content: string, store: Store): (r: Result<(Store, Tally), CityNames.LoadError>)
    ensures r.Err? <==> CityNames.LoadCityNames(content).Err?
    ensures r.Err? ==> r.error == CityNames.LoadCityNames(content).error
    ensures r.Ok? ==> r.value == Seed(store, CityNames.LoadCityNames(content).value)
    ensures r.Ok? ==>
              var names := CityNames.LoadCityNames(content).value;
              && r.value.1.updated + r.value.1.skipped == |names| > 0
              && (forall n :: n in names ==> HasCount(r.value.0, n))
              && (forall n :: n in names ==> r.value.0[n] == SeededDoc(store, n))
              && (forall n :: n in r.value.0 <==> n in store || n in names)
              && (forall n :: n in store && n !in names ==> r.value.0[n] == store[n])
  {
    match CityNames.LoadCityNames(content)
    case Err(e) => Err(e)
    case Ok(names) => Ok(Seed(store, names))
  }
}
