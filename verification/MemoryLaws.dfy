/** Laws of the memory store: decay does not depend on its schedule, and the pinned root moves only with the pinned slot. */
module MemoryLaws {
  import opened Prelude
  import opened BitCodes
  import opened Merkle
  import opened PinnedSlot
  import opened MemoryStore

  // ---- Decay is independent of the tick schedule ----

  lemma {:induction false} PowAdd(q: real, a: nat, b: nat)
    ensures Pow(q, a + b) == Pow(q, a) * Pow(q, b)
  {
    if a > 0 {
      PowAdd(q, a - 1, b);
      var x, y := Pow(q, a - 1), Pow(q, b);
      assert q * (x * y) == (q * x) * y;
    }
  }

  lemma BelowThetaStays(w: real, p: real)
    requires w < THETA && 0.0 <= p <= 1.0
    ensures w * p < THETA
  {
    if w >= 0.0 {
      ProductBounds(w, p);
    }
  }

  lemma WeightTwice(w: real, q: real, a: nat, b: nat)
    requires 0.0 < q <= 1.0
    ensures w * Pow(q, a) * Pow(q, b) == w * Pow(q, a + b)
    ensures w * Pow(q, a) < THETA ==> w * Pow(q, a + b) < THETA
  {
    PowAdd(q, a, b);
    PowBounds(q, b);
    var x, y := Pow(q, a), Pow(q, b);
    assert w * x * y == w * (x * y);
    if w * x < THETA {
      BelowThetaStays(w * x, y);
    }
  }

  /** A tick in between neither changes the final entry nor evicts anything the final tick would keep. */
  lemma AgedTwice(factors: map<string, real>, e: Entry, t1: int, t2: int)
    requires Decaying(factors) && e.lastDecay <= t1 <= t2
    ensures Aged(factors, Aged(factors, e, t1), t2) == Aged(factors, e, t2)
    ensures Evicted(Aged(factors, e, t1)) ==> Evicted(Aged(factors, e, t2))
  {
    if !e.pinned {
      var once, twice := Aged(factors, e, t2), Aged(factors, Aged(factors, e, t1), t2);
      WeightTwoTicks(factors, e, t1, t2);
      assert twice == e.(weight := twice.weight, lastDecay := t2) && once == e.(weight := once.weight, lastDecay := t2);
    }
  }

  lemma WeightTwoTicks(factors: map<string, real>, e: Entry, t1: int, t2: int)
    requires Decaying(factors) && e.lastDecay <= t1 <= t2 && !e.pinned
    ensures Aged(factors, Aged(factors, e, t1), t2).weight == Aged(factors, e, t2).weight
    ensures Aged(factors, e, t1).weight < THETA ==> Aged(factors, e, t2).weight < THETA
  {
    var q, a, b := Factor(factors, e.kind), t1 - e.lastDecay, t2 - t1;
    var e1, once := Aged(factors, e, t1), Aged(factors, e, t2);
    assert Elapsed(e, t1) == a && Elapsed(e1, t2) == b && Elapsed(e, t2) == a + b;
    WeightsCompose(e.weight, q, a, b, e1.weight, once.weight);
  }

  lemma WeightsCompose(w: real, q: real, a: nat, b: nat, early: real, once: real)
    requires 0.0 < q <= 1.0 && early == w * Pow(q, a) && once == w * Pow(q, a + b)
    ensures early * Pow(q, b) == once && (early < THETA ==> once < THETA)
  {
    WeightTwice(w, q, a, b);
  }

  ghost predicate AllBefore(entries: seq<Entry>, t: int) {
    forall e | e in entries :: e.lastDecay <= t
  }

  lemma {:induction false} DecayedCons(factors: map<string, real>, entries: seq<Entry>, now: int)
    requires entries != []
    ensures Decayed(factors, entries, now) ==
            var e, rest := Aged(factors, entries[0], now), Decayed(factors, entries[1..], now);
            if Evicted(e) then rest else [e] + rest
  {
    var aged := AllAged(factors, entries, now);
    assert aged[1..] == AllAged(factors, entries[1..], now);
  }

  lemma {:induction false} DecayedTwice(factors: map<string, real>, entries: seq<Entry>, t1: int, t2: int)
    requires Decaying(factors) && AllBefore(entries, t1) && t1 <= t2
    ensures Decayed(factors, Decayed(factors, entries, t1), t2) == Decayed(factors, entries, t2)
  {
    if entries != [] {
      var e, rest := entries[0], Decayed(factors, entries[1..], t1);
      DecayedTwice(factors, entries[1..], t1, t2);
      AgedTwice(factors, e, t1, t2);
      DecayedCons(factors, entries, t1);
      DecayedCons(factors, entries, t2);
      var e1 := Aged(factors, e, t1);
      if !Evicted(e1) {
        DecayedCons(factors, [e1] + rest, t2);
        assert ([e1] + rest)[1..] == rest;
      }
    }
  }

  lemma DecayedStamps(factors: map<string, real>, entries: seq<Entry>, now: int)
    ensures AllBefore(Decayed(factors, entries, now), now)
  {
    SurvivorsMembers(AllAged(factors, entries, now));
  }

  /** A run of decay ticks. */
  function DecayRun(factors: map<string, real>, entries: seq<Entry>, ticks: seq<int>): seq<Entry>
    decreases |ticks|
  {
    if ticks == [] then entries else DecayRun(factors, Decayed(factors, entries, ticks[0]), ticks[1..])
  }

  ghost predicate Nondecreasing(ticks: seq<int>) {
    forall i, j | 0 <= i < j < |ticks| :: ticks[i] <= ticks[j]
  }

  /** Any nondecreasing ticks that end at T leave the same entries, with the same weights, as one tick at T. */
  lemma {:induction false} ScheduleIndependence(factors: map<string, real>, entries: seq<Entry>, ticks: seq<int>)
    requires Decaying(factors) && ticks != [] && Nondecreasing(ticks) && AllBefore(entries, ticks[0])
    ensures DecayRun(factors, entries, ticks) == Decayed(factors, entries, ticks[|ticks| - 1])
    decreases |ticks|
  {
    if |ticks| > 1 {
      var t := ticks[0];
      DecayedStamps(factors, entries, t);
      ScheduleIndependence(factors, Decayed(factors, entries, t), ticks[1..]);
      DecayedTwice(factors, entries, t, ticks[|ticks| - 1]);
    }
  }

  lemma StrictProduct(a: real, b: real)
    requires 0.0 < a && b < 1.0
    ensures b * a < a
  {
    assert (1.0 - b) * a > 0.0;
  }

  lemma PowStep(q: real, n: nat)
    requires 0.0 < q < 1.0
    ensures Pow(q, n + 1) < Pow(q, n)
  {
    var p := Pow(q, n);
    assert p > 0.0 by {
      PowBounds(q, n);
    }
    StrictProduct(p, q);
    assert Pow(q, n + 1) == q * p;
  }

  lemma {:induction false} PowDecreases(q: real, a: nat, b: nat)
    requires 0.0 < q < 1.0 && a < b
    ensures Pow(q, b) < Pow(q, a)
    decreases b
  {
    PowStep(q, b - 1);
    if a < b - 1 {
      PowDecreases(q, a, b - 1);
    }
  }

  lemma {:induction false} PowOfOne(n: nat)
    ensures Pow(1.0, n) == 1.0
  {
    if n > 0 {
      PowOfOne(n - 1);
    }
  }

  /** A weight that decays at all weighs strictly less after a longer time. */
  lemma LongerDecaysMore(w: real, q: real, a: nat, b: nat)
    requires 0.0 < q <= 1.0 && a <= b && w > 0.0
    ensures w * Pow(q, b) <= w * Pow(q, a)
    ensures w * Pow(q, b) == w * Pow(q, a) <==> a == b || q == 1.0
  {
    if q == 1.0 {
      PowOfOne(a);
      PowOfOne(b);
    } else if a < b {
      PowDecreases(q, a, b);
      var x, y := Pow(q, a), Pow(q, b);
      assert w * (x - y) > 0.0;
    }
  }

  lemma AgedBehind(factors: map<string, real>, e: Entry, now: int)
    requires now < e.lastDecay
    ensures Aged(factors, e, now) == e.(lastDecay := now)
  {
    assert Elapsed(e, now) == 0 && e.weight * 1.0 == e.weight;
  }

  /**
    What makes the schedule irrelevant to an entry: the first tick is not behind its stamp, all ticks are at one time,
    it does not decay, or one tick at the end evicts it anyway.
   */
  predicate Unaffected(factors: map<string, real>, e: Entry, first: int, last: int) {
    || e.lastDecay <= first || first == last
    || e.pinned || Factor(factors, e.kind) == 1.0
    || Evicted(Aged(factors, e, last))
  }

  /** A tick behind the stamp sets the stamp back, so that a later tick charges the interval again. */
  lemma SetBack(factors: map<string, real>, e: Entry, first: int, last: int)
    requires Decaying(factors) && first < e.lastDecay && first <= last && !e.pinned && !Evicted(e)
    ensures var twice, once := Aged(factors, e.(lastDecay := first), last), Aged(factors, e, last);
            && (Evicted(once) ==> Evicted(twice))
            && (twice == once <==> first == last || Factor(factors, e.kind) == 1.0)
  {
    var twice, once := Aged(factors, e.(lastDecay := first), last), Aged(factors, e, last);
    ChargedAgain(e.weight, Factor(factors, e.kind), Elapsed(e, last), last - first, once.weight, twice.weight);
  }

  lemma ChargedAgain(w: real, q: real, a: nat, b: nat, x: real, y: real)
    requires 0.0 < q <= 1.0 && a <= b && w > 0.0 && x == w * Pow(q, a) && y == w * Pow(q, b)
    ensures y <= x && (y == x <==> a == b || q == 1.0)
  {
    LongerDecaysMore(w, q, a, b);
  }

  lemma {:induction false} NothingDecays(factors: map<string, real>, ticks: seq<int>)
    ensures DecayRun(factors, [], ticks) == []
    decreases |ticks|
  {
    if ticks != [] {
      assert AllAged(factors, [], ticks[0]) == [];
      NothingDecays(factors, ticks[1..]);
    }
  }

  lemma DecayedOne(factors: map<string, real>, e: Entry, now: int)
    ensures Decayed(factors, [e], now) == if Evicted(Aged(factors, e, now)) then [] else [Aged(factors, e, now)]
  {
    DecayedCons(factors, [e], now);
    assert AllAged(factors, [], now) == [];
    assert [e][1..] == [];
  }

  /** A first tick behind the stamp only sets the stamp back; the ticks after it then act as one. */
  lemma RunFromBehind(factors: map<string, real>, e: Entry, ticks: seq<int>)
    requires Decaying(factors) && |ticks| > 1 && Nondecreasing(ticks) && ticks[0] < e.lastDecay && !Evicted(e)
    ensures DecayRun(factors, [e], ticks) == Decayed(factors, [e.(lastDecay := ticks[0])], ticks[|ticks| - 1])
  {
    var e1, rest := e.(lastDecay := ticks[0]), ticks[1..];
    AgedBehind(factors, e, ticks[0]);
    DecayedOne(factors, e, ticks[0]);
    assert Decayed(factors, [e], ticks[0]) == [e1];
    assert rest[0] == ticks[1] && rest[|rest| - 1] == ticks[|ticks| - 1];
    ScheduleIndependence(factors, [e1], rest);
  }

  lemma RunOfEvicted(factors: map<string, real>, e: Entry, ticks: seq<int>)
    requires Decaying(factors) && ticks != [] && ticks[0] < e.lastDecay && Evicted(e)
    ensures DecayRun(factors, [e], ticks) == [] && Evicted(Aged(factors, e, ticks[|ticks| - 1]))
  {
    AgedBehind(factors, e, ticks[0]);
    DecayedOne(factors, e, ticks[0]);
    NothingDecays(factors, ticks[1..]);
    EvictedStays(factors, e, ticks[|ticks| - 1]);
  }

  lemma EvictedStays(factors: map<string, real>, e: Entry, now: int)
    requires Decaying(factors) && Evicted(e)
    ensures Evicted(Aged(factors, e, now))
  {
    PowBounds(Factor(factors, e.kind), Elapsed(e, now));
    BelowThetaStays(e.weight, Pow(Factor(factors, e.kind), Elapsed(e, now)));
  }

  lemma OneEntrySchedule(factors: map<string, real>, e: Entry, ticks: seq<int>)
    requires Decaying(factors) && ticks != [] && Nondecreasing(ticks)
    ensures var first, last := ticks[0], ticks[|ticks| - 1];
            && |DecayRun(factors, [e], ticks)| <= |Decayed(factors, [e], last)|
            && (DecayRun(factors, [e], ticks) == Decayed(factors, [e], last) <==> Unaffected(factors, e, first, last))
  {
    var first, last := ticks[0], ticks[|ticks| - 1];
    DecayedOne(factors, e, last);
    if e.lastDecay <= first {
      ScheduleIndependence(factors, [e], ticks);
    } else if Evicted(e) {
      RunOfEvicted(factors, e, ticks);
    } else if |ticks| > 1 {
      RunFromBehind(factors, e, ticks);
      DecayedOne(factors, e.(lastDecay := first), last);
      if !e.pinned {
        SetBack(factors, e, first, last);
      }
    }
  }

  lemma DecayedAppend(factors: map<string, real>, a: seq<Entry>, b: seq<Entry>, now: int)
    ensures Decayed(factors, a + b, now) == Decayed(factors, a, now) + Decayed(factors, b, now)
  {
    assert AllAged(factors, a + b, now) == AllAged(factors, a, now) + AllAged(factors, b, now);
    FilterAppend(AllAged(factors, a, now), AllAged(factors, b, now), (e: Entry) => !Evicted(e));
  }

  lemma {:induction false} DecayRunAppend(factors: map<string, real>, a: seq<Entry>, b: seq<Entry>, ticks: seq<int>)
    ensures DecayRun(factors, a + b, ticks) == DecayRun(factors, a, ticks) + DecayRun(factors, b, ticks)
    decreases |ticks|
  {
    if ticks != [] {
      DecayedAppend(factors, a, b, ticks[0]);
      DecayRunAppend(factors, Decayed(factors, a, ticks[0]), Decayed(factors, b, ticks[0]), ticks[1..]);
    }
  }

  /**
    The schedule of nondecreasing ticks does not matter to a memory if and only if it is irrelevant to every entry; and
    it can only evict more, never less.
   */
  lemma {:induction false} ScheduleMattersExactlyWhen(factors: map<string, real>, entries: seq<Entry>, ticks: seq<int>)
    requires Decaying(factors) && ticks != [] && Nondecreasing(ticks)
    ensures var first, last := ticks[0], ticks[|ticks| - 1];
            && |DecayRun(factors, entries, ticks)| <= |Decayed(factors, entries, last)|
            && (DecayRun(factors, entries, ticks) == Decayed(factors, entries, last)
                <==> forall e | e in entries :: Unaffected(factors, e, first, last))
  {
    var first, last := ticks[0], ticks[|ticks| - 1];
    if entries == [] {
      NothingDecays(factors, ticks);
      assert AllAged(factors, [], last) == [];
    } else {
      var e, rest := entries[0], entries[1..];
      assert entries == [e] + rest;
      ScheduleMattersExactlyWhen(factors, rest, ticks);
      OneEntrySchedule(factors, e, ticks);
      DecayRunAppend(factors, [e], rest, ticks);
      DecayedAppend(factors, [e], rest, last);
      AppendEqual(DecayRun(factors, [e], ticks), DecayRun(factors, rest, ticks),
                  Decayed(factors, [e], last), Decayed(factors, rest, last));
    }
  }

  lemma AppendEqual<T>(a: seq<T>, b: seq<T>, c: seq<T>, d: seq<T>)
    requires |a| <= |c| && |b| <= |d|
    ensures a + b == c + d <==> a == c && b == d
  {
    if a + b == c + d {
      assert |a + b| == |c + d|;
      assert (a + b)[..|a|] == a && (c + d)[..|c|] == c && (a + b)[|a|..] == b && (c + d)[|c|..] == d;
    }
  }

  /** A freshly added working entry is still there after any schedule of ticks exactly while its factor allows. */
  lemma FreshEntryLifetime(factors: map<string, real>, e: Entry, ticks: seq<int>)
    requires Decaying(factors) && ticks != [] && Nondecreasing(ticks)
    requires !e.pinned && e.weight == 1.0 && e.lastDecay <= ticks[0]
    ensures var age := ticks[|ticks| - 1] - e.lastDecay;
            HasId(DecayRun(factors, [e], ticks), e.traceId) <==> Pow(Factor(factors, e.kind), age) >= THETA
  {
    var now := ticks[|ticks| - 1];
    ScheduleIndependence(factors, [e], ticks);
    DecayedOne(factors, e, now);
    FreshWeight(factors, e, now);
    var a := Aged(factors, e, now);
    assert a in [a] && !HasId([], e.traceId);
  }

  lemma FreshWeight(factors: map<string, real>, e: Entry, now: int)
    requires !e.pinned && e.weight == 1.0 && e.lastDecay <= now
    ensures var a := Aged(factors, e, now);
            !a.pinned && a.traceId == e.traceId && a.weight == Pow(Factor(factors, e.kind), now - e.lastDecay)
  {
    assert Elapsed(e, now) == now - e.lastDecay;
    var p := Pow(Factor(factors, e.kind), now - e.lastDecay);
    assert 1.0 * p == p;
  }

  // ---- The pinned slot under each operation ----

  lemma {:induction false} PinnedAppend(a: seq<Entry>, b: seq<Entry>)
    ensures Pinned(a + b) == Pinned(a) + Pinned(b)
  {
    if a == [] {
      assert a + b == b;
    } else {
      PinnedAppend(a[1..], b);
      assert (a + b)[0] == a[0] && (a + b)[1..] == a[1..] + b;
      var head := if a[0].pinned then [RecordOf(a[0])] else [];
      assert head + (Pinned(a[1..]) + Pinned(b)) == (head + Pinned(a[1..])) + Pinned(b);
    }
  }

  lemma {:induction false} PinnedMembers(entries: seq<Entry>)
    ensures forall r :: r in Pinned(entries) <==> exists e | e in entries :: e.pinned && RecordOf(e) == r
  {
    if entries != [] {
      PinnedMembers(entries[1..]);
      assert entries == [entries[0]] + entries[1..];
    }
  }

  lemma {:induction false} PinnedUnique(entries: seq<Entry>)
    requires DistinctIds(entries)
    ensures UniqueIds(Pinned(entries))
  {
    if entries != [] {
      PinnedUnique(entries[1..]);
      PinnedMembers(entries[1..]);
      var rest := Pinned(entries[1..]);
      forall i | 0 <= i < |rest| ensures rest[i].traceId != entries[0].traceId {
        assert rest[i] in rest;
      }
    }
  }

  /** Decay leaves the pinned records alone. */
  lemma {:induction false} DecayKeepsPinned(factors: map<string, real>, entries: seq<Entry>, now: int)
    ensures Pinned(Decayed(factors, entries, now)) == Pinned(entries)
  {
    if entries != [] {
      var e := Aged(factors, entries[0], now);
      DecayKeepsPinned(factors, entries[1..], now);
      DecayedCons(factors, entries, now);
      PinnedAppend([e], Decayed(factors, entries[1..], now));
    }
  }

  /** Adding under a new id appends the record if it is pinned and changes nothing else in the slot. */
  lemma NewIdInPinned(env: Platform, st: Store, req: AddRequest, now: int)
    requires |Centre(st)| == st.dim && Added(env, st, req, now).Ok? && !HasId(st.entries, req.traceId)
    ensures Pinned(Added(env, st, req, now).value.entries) ==
            Pinned(st.entries) + Pinned([NewEntry(env, st, req, now)])
  {
    PutNew(st.entries, NewEntry(env, st, req, now));
    PinnedAppend(st.entries, [NewEntry(env, st, req, now)]);
  }

  // ---- Insertion order ----

  /** A refused add raises and leaves the store as it was. */
  function AfterAdd(env: Platform, st: Store, q: AddRequest, t: int): Store
    requires |Centre(st)| == st.dim
  {
    match Added(env, st, q, t)
    case Ok(st') => st'
    case Err(_) => st
  }

  /** A run of adds. */
  function AddAll(env: Platform, st: Store, reqs: seq<AddRequest>, at: seq<int>): Store
    requires |reqs| == |at| && |Centre(st)| == st.dim
    decreases |reqs|
  {
    if reqs == [] then st
    else AddAll(env, AfterAdd(env, st, reqs[0], at[0]), reqs[1..], at[1..])
  }

  ghost predicate FreshRequests(st: Store, reqs: seq<AddRequest>) {
    && (forall i, j | 0 <= i < j < |reqs| :: reqs[i].traceId != reqs[j].traceId)
    && forall r | r in reqs :: !HasId(st.entries, r.traceId)
  }

  /** The record a request leaves in the slot when it is accepted. */
  ghost predicate Pins(env: Platform, st: Store, req: AddRequest, r: Record)
    requires |Centre(st)| == st.dim
  {
    && Added(env, st, req, 0).Ok?
    && NewEntry(env, st, req, 0).pinned
    && r == RecordOf(NewEntry(env, st, req, 0))
  }

  lemma AddPins(env: Platform, st: Store, q: AddRequest, t: int)
    requires Valid(st) && !HasId(st.entries, q.traceId)
    ensures var next := AfterAdd(env, st, q, t);
            && Valid(next) && next.dim == st.dim && next.seed == st.seed && Centre(next) == Centre(st)
            && forall r :: r in Pinned(next.entries) <==> r in Pinned(st.entries) || Pins(env, st, q, r)
  {
    AddedKeepsValid(env, st, q, t);
    if Added(env, st, q, t).Ok? {
      NewIdInPinned(env, st, q, t);
      var e := NewEntry(env, st, q, t);
      assert Pinned([e]) == if e.pinned then [RecordOf(e)] else [];
    }
  }

  lemma FreshAfterAdd(env: Platform, st: Store, reqs: seq<AddRequest>, t: int)
    requires Valid(st) && reqs != [] && FreshRequests(st, reqs)
    ensures FreshRequests(AfterAdd(env, st, reqs[0], t), reqs[1..])
  {
    var next := AfterAdd(env, st, reqs[0], t);
    if Added(env, st, reqs[0], t).Ok? {
      assert reqs[0] in reqs;
      PutNew(st.entries, NewEntry(env, st, reqs[0], t));
    }
    forall r | r in reqs[1..] ensures !HasId(next.entries, r.traceId) {
      var i :| 0 <= i < |reqs[1..]| && reqs[1..][i] == r;
      assert reqs[i + 1] == r && r in reqs;
    }
  }

  lemma {:induction false} AddAllPins(env: Platform, st: Store, reqs: seq<AddRequest>, at: seq<int>)
    requires |reqs| == |at| && Valid(st) && FreshRequests(st, reqs)
    ensures Valid(AddAll(env, st, reqs, at))
    ensures forall r :: r in Pinned(AddAll(env, st, reqs, at).entries) <==>
                        r in Pinned(st.entries) || exists q | q in reqs :: Pins(env, st, q, r)
    decreases |reqs|
  {
    if reqs != [] {
      var q, next := reqs[0], AfterAdd(env, st, reqs[0], at[0]);
      assert q in reqs;
      AddPins(env, st, q, at[0]);
      FreshAfterAdd(env, st, reqs, at[0]);
      AddAllPins(env, next, reqs[1..], at[1..]);
      assert reqs == [q] + reqs[1..];
      assert forall p, r :: Pins(env, next, p, r) <==> Pins(env, st, p, r);
    }
  }

  /** All orders of adding the same entries under distinct ids give one pinned root, with or without a set centroid. */
  lemma InsertionOrderIrrelevant(env: Platform, st: Store, a: seq<AddRequest>, b: seq<AddRequest>,
                                 atA: seq<int>, atB: seq<int>)
    requires Valid(st) && FreshRequests(st, a) && FreshRequests(st, b) && |a| == |atA| && |b| == |atB|
    requires forall q :: q in a <==> q in b
    ensures StoreRoot(env, AddAll(env, st, a, atA)) == StoreRoot(env, AddAll(env, st, b, atB))
  {
    AddAllPins(env, st, a, atA);
    AddAllPins(env, st, b, atB);
    var sa, sb := AddAll(env, st, a, atA), AddAll(env, st, b, atB);
    PinnedUnique(sa.entries);
    PinnedUnique(sb.entries);
    RootIgnoresOrder(env.sha256, Pinned(sa.entries), Pinned(sb.entries));
  }

  /** Binding at the level of stores of one dimension: the exact condition, up to collisions, in both directions. */
  lemma StoreRootBinds(env: Platform, s: Store, t: Store)
    requires Valid(s) && Valid(t) && s.dim == t.dim
    requires forall e | e in s.entries || e in t.entries :: (0 as byte) !in e.traceId
    ensures var hash, a, b := env.sha256, Pinned(s.entries), Pinned(t.entries);
            var same := SameRecords(a, b) || LeavesReadAsLayer(hash, a, b) || LeavesReadAsLayer(hash, b, a);
            && (same ==> StoreRoot(env, s) == StoreRoot(env, t))
            && (StoreRoot(env, s) == StoreRoot(env, t) ==>
                  same || Collides(hash, HashInputs(hash, a) + HashInputs(hash, b)))
  {
    PinnedMembers(s.entries);
    PinnedMembers(t.entries);
    PinnedUnique(s.entries);
    PinnedUnique(t.entries);
    PinnedRootBinds(env.sha256, Pinned(s.entries), Pinned(t.entries), CodeLength(s.dim));
  }
}
