/** The service object: entries and centroid updated in place, each method proved against the store functions. */
module MemoryServices {
  import opened Prelude
  import opened BitCodes
  import opened Merkle
  import opened PinnedSlot
  import opened Sorting
  import opened MemoryStore
  import opened Scoring

  function ByScore(): ((Bytes, real), (Bytes, real)) -> bool {
    (x: (Bytes, real), y: (Bytes, real)) => x.1 >= y.1
  }

  /** The k best pairs, best first. */
  function Best(scored: seq<(Bytes, real)>, k: nat): seq<(Bytes, real)> {
    var sorted := Sort(scored, ByScore());
    if k < |sorted| then sorted[..k] else sorted
  }

  lemma SplitSorted(results: seq<(Bytes, real)>, rest: seq<(Bytes, real)>)
    requires Sorted(results + rest, ByScore())
    ensures forall i, j | 0 <= i < j < |results| :: results[i].1 >= results[j].1
    ensures forall r, o | r in results && o in rest :: r.1 >= o.1
  {
    var all := results + rest;
    forall i, j | 0 <= i < j < |results| ensures results[i].1 >= results[j].1 {
      assert ByScore()(all[i], all[j]);
    }
    forall r, o | r in results && o in rest ensures r.1 >= o.1 {
      var i :| 0 <= i < |results| && results[i] == r;
      var j :| 0 <= j < |rest| && rest[j] == o;
      assert ByScore()(all[i], all[|results| + j]);
    }
  }

  lemma SortedByScore(scored: seq<(Bytes, real)>)
    ensures var sorted := Sort(scored, ByScore());
            Sorted(sorted, ByScore()) && multiset(sorted) == multiset(scored) && |sorted| == |scored|
  {
    SortSpec(scored, ByScore());
  }

  lemma TopKFromSplit(results: seq<(Bytes, real)>, rest: seq<(Bytes, real)>, scored: seq<(Bytes, real)>, k: nat)
    requires Sorted(results + rest, ByScore()) && multiset(results + rest) == multiset(scored)
    requires |results| == if k < |scored| then k else |scored|
    ensures IsTopK(results, scored, k)
  {
    SplitSorted(results, rest);
    assert multiset(results) + multiset(rest) == multiset(scored);
  }

  lemma BestIsTopK(scored: seq<(Bytes, real)>, k: nat)
    ensures IsTopK(Best(scored, k), scored, k)
  {
    var sorted := Sort(scored, ByScore());
    SortedByScore(scored);
    var n := if k < |sorted| then k else |sorted|;
    assert sorted == sorted[..n] + sorted[n..] && Best(scored, k) == sorted[..n];
    TopKFromSplit(sorted[..n], sorted[n..], scored, k);
  }

  /** Entries whose id is not in ids. */
  function Without(entries: seq<Entry>, ids: seq<Bytes>): seq<Entry> {
    Filter(entries, (e: Entry) => e.traceId !in ids)
  }

  function EvictedIds(entries: seq<Entry>): seq<Bytes> {
    if entries == [] then []
    else EvictedIds(entries[..|entries| - 1])
         + (if Evicted(entries[|entries| - 1]) then [entries[|entries| - 1].traceId] else [])
  }

  lemma {:induction false} EvictedIdsMembers(entries: seq<Entry>)
    ensures forall id :: id in EvictedIds(entries) <==> exists e | e in entries :: Evicted(e) && e.traceId == id
  {
    if entries != [] {
      var front, last := entries[..|entries| - 1], entries[|entries| - 1];
      EvictedIdsMembers(front);
      assert entries == front + [last];
    }
  }

  lemma {:induction false} WithoutSome(entries: seq<Entry>, ids: seq<Bytes>)
    requires forall e | e in entries :: e.traceId in ids <==> Evicted(e)
    ensures Without(entries, ids) == Survivors(entries)
  {
    if entries != [] {
      assert entries == [entries[0]] + entries[1..];
      WithoutSome(entries[1..], ids);
    }
  }

  /** Deleting the collected ids leaves the survivors. */
  lemma WithoutEvicted(entries: seq<Entry>)
    requires DistinctIds(entries)
    ensures Without(entries, EvictedIds(entries)) == Survivors(entries)
  {
    EvictedIdsMembers(entries);
    WithoutSome(entries, EvictedIds(entries));
  }

  lemma {:induction false} WithoutNone(entries: seq<Entry>)
    ensures Without(entries, []) == entries
  {
    if entries != [] {
      WithoutNone(entries[1..]);
      assert entries == [entries[0]] + entries[1..];
    }
  }

  lemma {:induction false} WithoutTwice(entries: seq<Entry>, ids: seq<Bytes>, id: Bytes)
    ensures Without(Without(entries, ids), [id]) == Without(entries, ids + [id])
  {
    if entries != [] {
      WithoutTwice(entries[1..], ids, id);
      var head, tail := entries[0], Without(entries[1..], ids);
      if head.traceId !in ids {
        assert ([head] + tail)[0] == head && ([head] + tail)[1..] == tail;
      } else {
        assert [] + tail == tail;
      }
    }
  }

  class MemoryService {
    const env: Platform
    const dim: nat
    const seed: int
    const factors: map<string, real>
    var centroid: Option<Vec>
    var entries: seq<Entry>

    function View(): Store
      reads this
    {
      Store(dim, seed, factors, centroid, entries)
    }

    constructor (env: Platform, dim: nat, factors: map<string, real>, seed: int)
      ensures this.env == env && View() == Store(dim, seed, factors, None, []) && Valid(View())
    {
      this.env, this.dim, this.seed, this.factors := env, dim, seed, factors;
      centroid, entries := None, [];
    }

    method SetCentroid(vec: Option<Vec>) returns (r: Result<(), MemoryError>)
      requires Valid(View())
      modifies this`centroid
      ensures Valid(View())
      ensures match CentroidSet(env, old(View()), vec)
              case Ok(st) => r == Ok(()) && View() == st
              case Err(e) => r == Err(e) && View() == old(View())
      ensures r.Ok? <==> entries == [] && (vec.Some? ==> |vec.value| == dim)
      ensures r.Err? ==> r.error == if entries != [] then EntriesPresent else DimensionMismatch
      ensures r.Ok? ==> (centroid.Some? <==> vec.Some?)
      ensures r.Ok? && vec.Some? ==> forall i | 0 <= i < dim :: centroid.value[i] == env.float32(vec.value[i])
    {
      if |entries| > 0 {
        return Err(EntriesPresent);
      }
      if vec.None? {
        centroid := None;
        return Ok(());
      }
      var v := vec.value;
      if |v| != dim {
        return Err(DimensionMismatch);
      }
      centroid := Some(Cast(env, v));
      return Ok(());
    }

    method Add(req: AddRequest, now: int) returns (r: Result<(), MemoryError>)
      requires Valid(View())
      modifies this
      ensures Valid(View())
      ensures match Added(env, old(View()), req, now)
              case Ok(st) => r == Ok(()) && View() == st
              case Err(e) => r == Err(e) && View() == old(View())
    {
      AddedKeepsValid(env, View(), req, now);
      if req.kind !in VALID_KINDS {
        return Err(UnknownKind);
      }
      var kind, pinned := req.kind, req.pinned;
      if pinned && kind != "pinned" {
        kind := "pinned";
      }
      if !pinned && kind == "pinned" {
        pinned := true;
      }
      if |req.vec| != dim {
        return Err(DimensionMismatch);
      }
      if centroid.None? {
        centroid := Some(Zeros(dim));
      }
      var enc := Encode(env, dim, seed, centroid.value, req.vec);
      var payload := if req.payload.Some? then req.payload.value else EMPTY_OBJECT;
      entries := Put(entries, Entry(req.traceId, kind, pinned, payload, enc.code, enc.l1, enc.norm, 1.0, now));
      return Ok(());
    }

    /** The k best entries by calibrated cosine times weight; an empty store answers before it looks at the vector. */
    method Query(vec: Vec, k: nat) returns (r: Result<seq<(Bytes, real)>, MemoryError>)
      requires Valid(View())
      modifies this
      ensures View() == old(View())
      ensures r.Ok? <==> entries == [] || |vec| == dim
      ensures r.Err? ==> r.error == DimensionMismatch
      ensures entries == [] ==> r == Ok([])
      ensures entries != [] && |vec| == dim ==>
                && IsTopK(r.value, Scores(Encode(env, dim, seed, Centre(View()), vec).rotated, entries), k)
                && RightAnswer(entries, Encode(env, dim, seed, Centre(View()), vec).rotated, k, r.value)
    {
      if |entries| == 0 {
        return Ok([]);
      }
      if |vec| != dim {
        return Err(DimensionMismatch);
      }
      if centroid.None? {
        assert false;
      }
      var enc := Encode(env, dim, seed, centroid.value, vec);
      var scored := Scores(enc.rotated, entries);
      BestIsTopK(scored, k);
      TopKIsRight(entries, enc.rotated, k, Best(scored, k));
      return Ok(Best(scored, k));
    }

    /** First loop of a tick: ages every entry in place and notes the ids to evict. */
    method AgeInPlace(now: int) returns (toDrop: seq<Bytes>)
      modifies this`entries
      ensures entries == AllAged(factors, old(entries), now)
      ensures toDrop == EvictedIds(entries)
    {
      toDrop := [];
      var i := 0;
      while i < |entries|
        invariant 0 <= i <= |entries| == |old(entries)|
        invariant forall j | 0 <= j < i :: entries[j] == Aged(factors, old(entries)[j], now)
        invariant forall j | i <= j < |entries| :: entries[j] == old(entries)[j]
        invariant toDrop == EvictedIds(entries[..i])
      {
        ghost var done := entries[..i];
        var e := Aged(factors, entries[i], now);
        entries := entries[i := e];
        if !e.pinned && e.weight < THETA {
          toDrop := toDrop + [e.traceId];
        }
        i := i + 1;
        assert entries[..i] == done + [e] && entries[..i][..i - 1] == done;
      }
      assert entries[..i] == entries;
    }

    /** Second loop of a tick: deletes the noted ids. */
    method Drop(toDrop: seq<Bytes>)
      modifies this`entries
      ensures entries == Without(old(entries), toDrop)
    {
      WithoutNone(entries);
      var d := 0;
      while d < |toDrop|
        invariant 0 <= d <= |toDrop|
        invariant entries == Without(old(entries), toDrop[..d])
      {
        WithoutTwice(old(entries), toDrop[..d], toDrop[d]);
        assert toDrop[..d + 1] == toDrop[..d] + [toDrop[d]];
        entries := Without(entries, [toDrop[d]]);
        d := d + 1;
      }
      assert toDrop[..d] == toDrop;
    }

    method DecayStep(now: int)
      requires Valid(View())
      modifies this`entries
      ensures entries == Decayed(factors, old(entries), now)
      ensures Decaying(factors) ==> Valid(View())
    {
      var toDrop := AgeInPlace(now);
      WithoutEvicted(entries);
      Drop(toDrop);
      if Decaying(factors) {
        DecayedKeepsValid(old(View()), now);
      }
    }

    method PinnedMerkleRoot() returns (root: Digest)
      ensures root == StoreRoot(env, View())
    {
      var pinned := Sort(Pinned(entries), ById());
      if pinned == [] {
        return env.sha256([]);
      }
      root := RootByLayers(env.sha256, Leaves(env.sha256, pinned));
    }
  }

  /** A vector queried against the store scores its own entry at exactly 1, unless its encoding is degenerate. */
  lemma SelfQueryScore(env: Platform, st: Store, req: AddRequest, now: int)
    requires |req.vec| == st.dim == |Centre(st)|
    ensures var q := Encode(env, st.dim, st.seed, Centre(st), req.vec).rotated;
            var e := NewEntry(env, st, req, now);
            Score(q, e) == if e.l1 > 0.0 then 1.0 else 0.0
  {
    SelfQueryEstimate(Encode(env, st.dim, st.seed, Centre(st), req.vec).rotated);
  }
}
