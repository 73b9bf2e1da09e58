/** What a decay tick does to each entry, in terms of the rate of its kind, and what is left of a self-query's score. */
module DecayRates {
  import opened Prelude
  import opened BitCodes
  import opened MemoryStore
  import opened MemoryLaws
  import opened Scoring

  /** The product of a sequence of factors. */
  function Product(xs: seq<real>): real {
    if xs == [] then 1.0 else xs[0] * Product(xs[1..])
  }

  /** What n ticks leave of a weight whose kind loses `factors[kind]` per tick; a kind without a rate loses nothing. */
  function Left(factors: map<string, real>, kind: string, n: nat): real {
    if kind in factors then Product(seq(n, _ => factors[kind])) else 1.0
  }

  /** The entry as it is after a tick: only weight and stamp change, and the weight only if time has passed. */
  function Ticked(factors: map<string, real>, e: Entry, now: int): Entry {
    e.(lastDecay := now,
       weight := if e.pinned || now <= e.lastDecay then e.weight
                 else e.weight * Left(factors, e.kind, now - e.lastDecay))
  }

  lemma {:induction false} ProductIsPow(q: real, n: nat)
    ensures Product(seq(n, _ => q)) == Pow(q, n)
  {
    if n > 0 {
      ProductIsPow(q, n - 1);
      assert seq(n, _ => q)[1..] == seq(n - 1, _ => q);
    }
  }

  lemma {:induction false} OnesIsOne(n: nat)
    ensures Pow(1.0, n) == 1.0
  {
    PowOfOne(n);
  }

  lemma LeftIsPow(factors: map<string, real>, kind: string, n: nat)
    ensures Left(factors, kind, n) == Pow(Factor(factors, kind), n)
  {
    OnesIsOne(n);
    if kind in factors {
      ProductIsPow(factors[kind], n);
    }
  }

  lemma AgedIsTicked(factors: map<string, real>, e: Entry, now: int)
    ensures Aged(factors, e, now) == Ticked(factors, e, now)
  {
    if !e.pinned && now > e.lastDecay {
      LeftIsPow(factors, e.kind, now - e.lastDecay);
    } else if !e.pinned {
      NoTime(factors, e, now);
    }
  }

  lemma NoTime(factors: map<string, real>, e: Entry, now: int)
    requires !e.pinned && now <= e.lastDecay
    ensures Aged(factors, e, now) == e.(lastDecay := now)
  {
    assert Elapsed(e, now) == 0 && e.weight * 1.0 == e.weight;
  }

  /**
    A tick keeps exactly the pinned entries and those whose weight is still at least 0.05, each with the product of its
    kind's factor over the ticks since its stamp.
   */
  lemma {:induction false} TickMeaning(factors: map<string, real>, entries: seq<Entry>, now: int)
    ensures forall x :: x in Decayed(factors, entries, now) <==>
              exists e | e in entries :: x == Ticked(factors, e, now) && (x.pinned || x.weight >= 0.05)
  {
    var aged := AllAged(factors, entries, now);
    SurvivorsMembers(aged);
    forall x ensures x in Decayed(factors, entries, now) <==>
                     exists e | e in entries :: x == Ticked(factors, e, now) && (x.pinned || x.weight >= 0.05)
    {
      if x in Decayed(factors, entries, now) {
        var i :| 0 <= i < |aged| && aged[i] == x;
        AgedIsTicked(factors, entries[i], now);
        assert entries[i] in entries;
      }
      if e :| e in entries && x == Ticked(factors, e, now) && (x.pinned || x.weight >= 0.05) {
        AgedIsTicked(factors, e, now);
        var i :| 0 <= i < |entries| && entries[i] == e;
        assert aged[i] == x;
      }
    }
  }

  /** One tick after its stamp a working entry has lost one factor of its own kind, and is kept while 0.05 is left. */
  lemma OneTick(factors: map<string, real>, entries: seq<Entry>, e: Entry)
    requires DistinctIds(entries) && e in entries && !e.pinned && e.kind in factors
    ensures var now, w := e.lastDecay + 1, e.weight * factors[e.kind];
            && (w >= 0.05 ==> e.(weight := w, lastDecay := now) in Decayed(factors, entries, now))
            && (w < 0.05 ==> !HasId(Decayed(factors, entries, now), e.traceId))
  {
    var now, w := e.lastDecay + 1, e.weight * factors[e.kind];
    TickMeaning(factors, entries, now);
    OneFactor(factors, e.kind);
    assert Ticked(factors, e, now) == e.(weight := w, lastDecay := now);
    if w < 0.05 && HasId(Decayed(factors, entries, now), e.traceId) {
      var x :| x in Decayed(factors, entries, now) && x.traceId == e.traceId;
      var d :| d in entries && x == Ticked(factors, d, now);
      SameId(entries, d, e);
    }
  }

  lemma OneFactor(factors: map<string, real>, kind: string)
    requires kind in factors
    ensures Left(factors, kind, 1) == factors[kind]
  {
    var xs := seq(1, _ => factors[kind]);
    assert xs == [factors[kind]] && xs[1..] == [];
    assert Product(xs) == xs[0] * Product(xs[1..]) == factors[kind] * 1.0;
  }

  lemma SameId(entries: seq<Entry>, d: Entry, e: Entry)
    requires DistinctIds(entries) && d in entries && e in entries && d.traceId == e.traceId
    ensures d == e
  {
    var i :| 0 <= i < |entries| && entries[i] == d;
    var j :| 0 <= j < |entries| && entries[j] == e;
  }

  /**
    An entry added at t and decayed at T answers its own vector with what is left of its weight: the product of its
    kind's factor over the ticks in between.
   */
  lemma SelfQueryAfterDecay(env: Platform, st: Store, req: AddRequest, t: int, now: int, k: nat,
                            results: seq<(Bytes, real)>, r: (Bytes, real))
    requires Valid(st) && Added(env, st, req, t).Ok? && t <= now
    requires !req.pinned && req.kind != "pinned"
    requires var after := Added(env, st, req, t).value;
             var q := Encode(env, st.dim, st.seed, Centre(after), req.vec);
             && q.l1 > 0.0 && r in results && r.0 == req.traceId
             && RightAnswer(Decayed(st.factors, after.entries, now), q.rotated, k, results)
    ensures r.1 == Left(st.factors, req.kind, now - t)
  {
    var after := Added(env, st, req, t).value;
    var q := Encode(env, st.dim, st.seed, Centre(after), req.vec);
    var entries := Decayed(st.factors, after.entries, now);
    assert HasId(entries, r.0);
    var x :| x in entries && x.traceId == r.0;
    NewEntryLater(env, st, req, t, now, x);
    OwnCosine(q.rotated);
    assert Coded(x, q.rotated, |q.rotated|);
    assert r.1 == Cosine(q.rotated, q.rotated) * x.weight;
  }

  lemma NewEntryLater(env: Platform, st: Store, req: AddRequest, t: int, now: int, x: Entry)
    requires Valid(st) && Added(env, st, req, t).Ok? && t <= now
    requires !req.pinned && req.kind != "pinned"
    requires x in Decayed(st.factors, Added(env, st, req, t).value.entries, now) && x.traceId == req.traceId
    ensures x.code == NewEntry(env, st, req, t).code && x.l1 == NewEntry(env, st, req, t).l1
    ensures x.weight == Left(st.factors, req.kind, now - t)
  {
    var entries, e := Added(env, st, req, t).value.entries, NewEntry(env, st, req, t);
    PutMembers(st.entries, e);
    TickMeaning(st.factors, entries, now);
    var d :| d in entries && x == Ticked(st.factors, d, now);
    SameId(entries, d, e);
    NothingYet(st.factors, req.kind);
    assert 1.0 * Left(st.factors, req.kind, now - t) == Left(st.factors, req.kind, now - t);
  }

  lemma NothingYet(factors: map<string, real>, kind: string)
    ensures Left(factors, kind, 0) == 1.0
  {
    if kind in factors {
      var xs := seq(0, _ => factors[kind]);
      assert xs == [] && Product(xs) == 1.0;
    }
  }

  lemma OwnCosine(q: Vec)
    requires L1(q) > 0.0
    ensures Cosine(q, q) == 1.0
  {
    SignDotBound(q, q);
    OverItself(L1(q));
  }

  lemma OverItself(l: real)
    requires l > 0.0
    ensures l / l == 1.0
  {
  }
}
