/** What a paid add leaves in the memory, and what a later query reports of it. */
module PaidAdds {
  import opened Prelude
  import opened BitCodes
  import opened MemoryStore
  import opened MemoryLaws
  import opened Scoring
  import opened Payments
  import opened RateLimiting
  import opened DarkPools
  import opened DarkPoolRuns
  import opened DecayRates

  /** The centroid a vector is encoded against: the origin unless one was set. */
  function CentreOf(st: Store): Vec {
    if st.centroid.Some? then st.centroid.value else seq(st.dim, _ => 0.0)
  }

  /** What the buyer asked to have remembered. */
  function PayloadAsked(b: AddBody): Bytes {
    if b.payload.Some? then b.payload.value else [123, 125]
  }

  /** The entry holds the body's id, kind, payload and encoded vector, unpinned and at full weight. */
  ghost predicate Holds(env: Platform, st: Store, b: AddBody, tick: int, e: Entry) {
    && e.traceId == b.traceId && e.kind == b.kind && e.payload == PayloadAsked(b)
    && !e.pinned && e.weight == 1.0 && e.lastDecay == tick
    && |b.vec| == st.dim == |CentreOf(st)|
    && var enc := Encode(env, st.dim, st.seed, CentreOf(st), b.vec);
       Coded(e, enc.rotated, st.dim) && e.norm == enc.norm
  }

  /**
    A paid add is answered 400 exactly when the body is malformed, its vector has another dimension or its kind is not
    one of three; and a 200 appends to the entries the one that was asked for, and fixes the centroid.
   */
  lemma PaidAddStores(env: Platform, ecrecover: Recovery, cfg: Config, limits: Limits, pool: Pool,
                      body: Option<AddBody>, header: Header, clock: Clock)
    requires Valid(pool.memory)
    ensures var o := AddOutcome(env, ecrecover, cfg, limits, pool, body, header, clock);
            && (o.status == 400 <==> body.None? || |body.value.vec| != pool.memory.dim
                                     || body.value.kind !in {"working", "episodic", "semantic"})
            && (o.status == 200 ==>
                  var n, after := |pool.memory.entries|, o.pool.memory;
                  && !HasId(pool.memory.entries, body.value.traceId)
                  && |after.entries| == n + 1 && after.entries[..n] == pool.memory.entries
                  && Holds(env, pool.memory, body.value, clock.tick, after.entries[n])
                  && after == pool.memory.(centroid := Some(CentreOf(pool.memory)), entries := after.entries))
  {
    var o := AddOutcome(env, ecrecover, cfg, limits, pool, body, header, clock);
    if o.status == 200 {
      assert Centre(pool.memory) == CentreOf(pool.memory);
      var e := NewEntry(env, pool.memory, PaidAdd(body.value), clock.tick);
      PutNew(pool.memory.entries, e);
      assert o.pool.memory.entries == pool.memory.entries + [e];
    }
  }

  /** Every entry under this id carries this payload. */
  ghost predicate Carries(entries: seq<Entry>, id: Bytes, payload: Bytes) {
    forall e | e in entries && e.traceId == id :: e.payload == payload
  }

  /** The event adds nothing under this id. */
  predicate Spares(e: Event, id: Bytes) {
    e.Add? && e.add.Some? ==> e.add.value.traceId != id
  }

  lemma StepCarries(site: Site, w: World, e: Event, id: Bytes, payload: Bytes)
    requires Guarded(site, w) && Spares(e, id) && Carries(w.pool.memory.entries, id, payload)
    ensures Carries(Step(site, w, e).pool.memory.entries, id, payload)
  {
    match e {
      case DecayAt(t) => TickMeaning(w.pool.memory.factors, w.pool.memory.entries, t);
      case PurgeAt(_) =>
      case Query(_, _, _) => MemoryAfter(site, w.pool, e);
      case Add(body, header, clock) =>
        MemoryAfter(site, w.pool, e);
        PaidAddStores(site.env, site.ecrecover, site.cfg, site.limits, w.pool, body, header, clock);
        AddedCarries(w.pool.memory.entries, Step(site, w, e).pool.memory.entries, id, payload);
    }
  }

  lemma AddedCarries(before: seq<Entry>, after: seq<Entry>, id: Bytes, payload: Bytes)
    requires Carries(before, id, payload)
    requires after == before
             || (|after| == |before| + 1 && after[..|before|] == before && after[|before|].traceId != id)
    ensures Carries(after, id, payload)
  {
    forall e | e in after && e.traceId == id ensures e.payload == payload {
      var i :| 0 <= i < |after| && after[i] == e;
      assert before[i] == e;
    }
  }

  lemma {:induction false} RunCarries(site: Site, w: World, events: seq<Event>, id: Bytes, payload: Bytes)
    requires Guarded(site, w) && Timely(w.wall, events) && Carries(w.pool.memory.entries, id, payload)
    requires forall e | e in events :: Spares(e, id)
    ensures Carries(Run(site, w, events).pool.memory.entries, id, payload)
    decreases |events|
  {
    if events != [] {
      assert events[0] in events;
      StepKeepsGuarded(site, w, events[0]);
      StepCarries(site, w, events[0], id, payload);
      RunCarries(site, Step(site, w, events[0]), events[1..], id, payload);
    }
  }

  /**
    Whatever happens after a paid add, short of another add under its id, a query that hits that id reports the payload
    that was added.
   */
  lemma PaidPayloadIsReported(site: Site, w: World, add: Event, events: seq<Event>, q: Vec, k: nat,
                              results: seq<(Bytes, real)>, hits: seq<Hit>)
    requires Guarded(site, w) && add.Add? && w.wall <= add.clock.wall
    requires add.add.Some? && Timely(add.clock.wall, events) && forall e | e in events :: Spares(e, add.add.value.traceId)
    ensures Guarded(site, Step(site, w, add))
    ensures var entries := Run(site, Step(site, w, add), events).pool.memory.entries;
            Answered(site, w.pool, add).status == 200
            && RightAnswer(entries, q, k, results) && Reports(entries, results, hits) ==>
              forall h | h in hits && h.traceId == add.add.value.traceId :: h.payload == PayloadAsked(add.add.value)
  {
    StepKeepsGuarded(site, w, add);
    var b, w1 := add.add.value, Step(site, w, add);
    var entries := Run(site, w1, events).pool.memory.entries;
    if Answered(site, w.pool, add).status == 200 && RightAnswer(entries, q, k, results) && Reports(entries, results, hits) {
      AddCarries(site, w, add);
      RunCarries(site, w1, events, b.traceId, PayloadAsked(b));
      forall h | h in hits && h.traceId == b.traceId ensures h.payload == PayloadAsked(b) {
        var i :| 0 <= i < |hits| && hits[i] == h;
        assert results[i] in results && HasId(entries, results[i].0);
      }
    }
  }

  lemma AddCarries(site: Site, w: World, add: Event)
    requires Guarded(site, w) && add.Add? && add.add.Some? && Answered(site, w.pool, add).status == 200
    ensures Carries(Step(site, w, add).pool.memory.entries, add.add.value.traceId, PayloadAsked(add.add.value))
  {
    var b, before, after := add.add.value, w.pool.memory.entries, Step(site, w, add).pool.memory.entries;
    PaidAddStores(site.env, site.ecrecover, site.cfg, site.limits, w.pool, add.add, add.header, add.clock);
    AppendedCarries(before, after, b.traceId, PayloadAsked(b));
  }

  lemma AppendedCarries(before: seq<Entry>, after: seq<Entry>, id: Bytes, payload: Bytes)
    requires !HasId(before, id) && |after| == |before| + 1 && after[..|before|] == before
    requires after[|before|].payload == payload
    ensures Carries(after, id, payload)
  {
    forall j | 0 <= j < |before| ensures after[j].traceId != id {
      assert after[j] == after[..|before|][j] == before[j];
      assert before[j] in before;
    }
  }
}
