/** What holds over every run of the server: requests on both routes, purges and decay ticks in any order. */
module DarkPoolRuns {
  import opened Prelude
  import opened Merkle
  import opened MemoryStore
  import opened MemoryLaws
  import opened NonceStores
  import opened RateLimiting
  import opened Payments
  import opened DarkPools

  /** What stays fixed during a run. */
  datatype Site = Site(env: Platform, ecrecover: Recovery, cfg: Config, limits: Limits)

  datatype Event =
    | Query(query: Option<QueryBody>, header: Header, clock: Clock)
    | Add(add: Option<AddBody>, header: Header, clock: Clock)
    | PurgeAt(wall: int)
    | DecayAt(tick: int)

  /** One request answered 200: what was signed, how its nonce was spelled, and the key it was stored under. */
  datatype Served = Served(typed: TypedData, nonce: string, key: Key)

  datatype World = World(pool: Pool, log: seq<Served>, lastPurge: int, wall: int)

  ghost predicate Good(site: Site, pool: Pool) {
    Valid(pool.memory) && Decaying(pool.memory.factors) && ValidLimits(site.limits)
  }

  function Answered(site: Site, pool: Pool, e: Event): Outcome
    requires e.Query? || e.Add?
    requires |Centre(pool.memory)| == pool.memory.dim
  {
    match e
    case Query(body, header, clock) =>
      QueryOutcome(site.ecrecover, site.cfg, site.limits, pool, body, header, clock)
    case Add(body, header, clock) =>
      AddOutcome(site.env, site.ecrecover, site.cfg, site.limits, pool, body, header, clock)
  }

  /** The authorization a request presents, as it is served if the answer is 200. */
  function Presented(site: Site, header: Header, wall: int): Option<Served> {
    if !header.Present? then None
    else match Screened(site.cfg, header.payment, wall)
      case Err(_) => None
      case Ok((auth, sig)) =>
        match FirstMatch(site.ecrecover, site.cfg, auth, sig, Candidates(site.cfg))
        case None => None
        case Some(d) =>
          Some(Served(BuildTypedData(site.cfg, auth, d), auth.nonce,
                      AcceptedKey(site.cfg, Accepted(Lower(auth.from), Lower(auth.nonce), auth.validBefore, d.contract))))
  }

  function WallAfter(wall: int, e: Event): int {
    match e
    case Query(_, _, clock) => clock.wall
    case Add(_, _, clock) => clock.wall
    case PurgeAt(t) => t
    case DecayAt(_) => wall
  }

  function Step(site: Site, w: World, e: Event): World
    requires |Centre(w.pool.memory)| == w.pool.memory.dim
  {
    var wall := WallAfter(w.wall, e);
    match e
    case PurgeAt(t) => World(w.pool.(nonces := Purged(w.pool.nonces, t)), w.log, t, wall)
    case DecayAt(t) =>
      var m := w.pool.memory;
      w.(pool := w.pool.(memory := m.(entries := Decayed(m.factors, m.entries, t))))
    case _ =>
      var o := Answered(site, w.pool, e);
      var served := Presented(site, e.header, e.clock.wall);
      World(o.pool, if o.status == 200 && served.Some? then w.log + [served.value] else w.log, w.lastPurge, wall)
  }

  // ---- One request ----

  lemma AcceptedIsPresented(site: Site, nonces: Rows, p: Payment, wall: int)
    requires Validated(site.ecrecover, site.cfg, nonces, p, wall).Ok?
    ensures var acc, s := Validated(site.ecrecover, site.cfg, nonces, p, wall).value, Presented(site, Present(p), wall);
            && s.Some? && s.value.key == AcceptedKey(site.cfg, acc) && s.value.key !in nonces
            && s.value.typed.validBefore == acc.validBefore > wall
            && s.value.typed.from == acc.signer
            && SoundReceipt(site, s.value)
  {
    var s := Presented(site, Present(p), wall).value;
    var auth := Screened(site.cfg, p, wall).value.0;
    LowerIdempotent(auth.from);
    LowerIdempotent(auth.nonce);
  }

  /** What a log entry says about itself. */
  ghost predicate SoundReceipt(site: Site, s: Served) {
    && s.key == Key(site.cfg.chainId, s.typed.contract, s.typed.from, Lower(s.nonce))
    && s.typed.nonce == SignedNonce(s.nonce)
    && s.typed.chainId == site.cfg.chainId && s.typed.to == Lower(site.cfg.recipient)
    && site.cfg.price <= s.typed.value <= 2 * site.cfg.price
  }

  /** A paid add under a new id keeps the invariant and leaves the pinned slot alone. */
  lemma PaidAddKeepsPinned(env: Platform, st: Store, body: AddBody, tick: int)
    requires Valid(st) && |body.vec| == st.dim && body.kind in PAID_KINDS && !HasId(st.entries, body.traceId)
    ensures var after := Stored'(env, st, body, tick);
            Valid(after) && after.factors == st.factors && Pinned(after.entries) == Pinned(st.entries)
  {
    AddedKeepsValid(env, st, PaidAdd(body), tick);
    NewIdInPinned(env, st, PaidAdd(body), tick);
    var entry := NewEntry(env, st, PaidAdd(body), tick);
    assert Pinned([entry]) == [];
  }

  lemma MemoryAfter(site: Site, pool: Pool, e: Event)
    requires Good(site, pool) && (e.Query? || e.Add?)
    ensures var after := Answered(site, pool, e).pool;
            && Good(site, after)
            && Pinned(after.memory.entries) == Pinned(pool.memory.entries)
            && (Answered(site, pool, e).status != 200 ==> after.memory == pool.memory)
  {
    if e.Add? && Answered(site, pool, e).status == 200 {
      PaidAddKeepsPinned(site.env, pool.memory, e.add.value, e.clock.tick);
    }
  }

  /**
    A nonce is consumed exactly when the answer is 200; every other answer leaves the store and the memory as they
    were. 400 and 402 leave the whole pool untouched; the rest touch one bucket, and 200 and 409 spend its token.
   */
  lemma NonceConsumedExactlyOn200(site: Site, pool: Pool, e: Event)
    requires Good(site, pool) && (e.Query? || e.Add?)
    ensures var o := Answered(site, pool, e);
            && o.status in {200, 400, 402, 409, 429}
            && (o.status == 200 <==> o.pool.nonces != pool.nonces)
            && (o.status == 200 ==>
                  var s := Presented(site, e.header, e.clock.wall);
                  && s.Some? && s.value.key !in pool.nonces
                  && o.pool.nonces == pool.nonces[s.value.key := s.value.typed.validBefore])
            && (o.status != 200 ==> o.pool == pool.(buckets := o.pool.buckets))
            && (o.status in {400, 402} ==> o.pool == pool)
            && (o.status in {200, 409, 429} ==>
                  var s := Presented(site, e.header, e.clock.wall);
                  && s.Some?
                  && var slot := SlotOf(pool.buckets, s.value.typed.from);
                  && o.pool.buckets == pool.buckets[s.value.typed.from := Consumed(site.limits, slot, 1, e.clock.mono)]
                  && (o.status == 429 <==> !Grants(site.limits, slot, 1, e.clock.mono)))
  {
    MemoryAfter(site, pool, e);
    match Checked(site.ecrecover, site.cfg, pool.nonces, e.header, e.clock.wall) {
      case Ok(acc) => AcceptedIsPresented(site, pool.nonces, e.header.payment, e.clock.wall);
      case Err(_) =>
    }
  }

  // ---- Every run ----

  ghost predicate Timely(wall: int, events: seq<Event>)
    decreases |events|
  {
    events == [] || (wall <= WallAfter(wall, events[0]) && Timely(WallAfter(wall, events[0]), events[1..]))
  }

  /** The invariant behind replay safety: an authorization that has not expired by the last purge is still on file. */
  ghost predicate Guarded(site: Site, w: World) {
    && Good(site, w.pool) && w.lastPurge <= w.wall
    && (forall i | 0 <= i < |w.log| :: SoundReceipt(site, w.log[i]))
    && (forall i | 0 <= i < |w.log| :: w.log[i].typed.validBefore > w.lastPurge ==>
          w.log[i].key in w.pool.nonces && w.pool.nonces[w.log[i].key] == w.log[i].typed.validBefore)
    && (forall i, j | 0 <= i < j < |w.log| :: w.log[i].key == w.log[j].key ==>
          w.log[i].typed.validBefore < w.log[j].typed.validBefore)
  }

  /** Serving one more authorization whose key was free. */
  lemma ServingKeepsGuarded(site: Site, w: World, w': World, s: Served)
    requires Guarded(site, w) && Good(site, w'.pool) && SoundReceipt(site, s)
    requires w'.log == w.log + [s] && w'.lastPurge == w.lastPurge && w.wall <= w'.wall
    requires s.key !in w.pool.nonces && s.typed.validBefore > w.lastPurge
    requires w'.pool.nonces == w.pool.nonces[s.key := s.typed.validBefore]
    ensures Guarded(site, w')
  {
  }

  lemma RequestKeepsGuarded(site: Site, w: World, e: Event)
    requires Guarded(site, w) && (e.Query? || e.Add?) && w.wall <= e.clock.wall
    ensures Guarded(site, Step(site, w, e))
  {
    MemoryAfter(site, w.pool, e);
    NonceConsumedExactlyOn200(site, w.pool, e);
    if Answered(site, w.pool, e).status == 200 {
      AcceptedIsPresented(site, w.pool.nonces, e.header.payment, e.clock.wall);
      ServingKeepsGuarded(site, w, Step(site, w, e), Presented(site, e.header, e.clock.wall).value);
    } else {
      assert Step(site, w, e).log == w.log;
    }
  }

  lemma StepKeepsGuarded(site: Site, w: World, e: Event)
    requires Guarded(site, w) && w.wall <= WallAfter(w.wall, e)
    ensures Guarded(site, Step(site, w, e))
  {
    match e {
      case DecayAt(t) => DecayedKeepsValid(w.pool.memory, t);
      case PurgeAt(_) =>
      case _ => RequestKeepsGuarded(site, w, e);
    }
  }

  ghost function Run(site: Site, w: World, events: seq<Event>): World
    requires Guarded(site, w) && Timely(w.wall, events)
    decreases |events|
  {
    if events == [] then w
    else
      StepKeepsGuarded(site, w, events[0]);
      Run(site, Step(site, w, events[0]), events[1..])
  }

  lemma {:induction false} RunKeepsGuarded(site: Site, w: World, events: seq<Event>)
    requires Guarded(site, w) && Timely(w.wall, events)
    ensures Guarded(site, Run(site, w, events))
    decreases |events|
  {
    if events != [] {
      StepKeepsGuarded(site, w, events[0]);
      RunKeepsGuarded(site, Step(site, w, events[0]), events[1..]);
    }
  }

  /** A server that starts with whatever nonces, buckets and memory it has on file. */
  ghost predicate Starts(site: Site, w: World) {
    Good(site, w.pool) && w.log == [] && w.lastPurge <= w.wall
  }

  /** Two authorizations that may differ in their nonces only. */
  predicate SameButNonce(t: TypedData, u: TypedData) {
    t.(nonce := u.nonce) == u
  }

  /**
    Replay safety. A key is served again only for an authorization that expires later than every one served under it
    before; so in every run no authorization is answered 200 twice under one lower-cased spelling of its nonce, whatever
    bytes its spellings stand for.
   */
  lemma OncePerAuthorization(site: Site, w: World, events: seq<Event>, i: nat, j: nat)
    requires Starts(site, w) && Timely(w.wall, events)
    requires i < j < |Run(site, w, events).log|
    ensures var log := Run(site, w, events).log;
            && (log[i].key == log[j].key ==> log[i].typed.validBefore < log[j].typed.validBefore)
            && (SameButNonce(log[i].typed, log[j].typed) ==> Lower(log[i].nonce) != Lower(log[j].nonce))
  {
    RunKeepsGuarded(site, w, events);
  }

  ghost predicate ServedWith(log: seq<Served>, key: Key, expiry: int) {
    exists s | s in log :: s.key == key && s.typed.validBefore == expiry
  }

  /** Everything on file was served and has not expired by the last purge. */
  ghost predicate Accounted(w: World) {
    forall k | k in w.pool.nonces :: w.pool.nonces[k] > w.lastPurge && ServedWith(w.log, k, w.pool.nonces[k])
  }

  lemma ServingKeepsAccounted(site: Site, w: World, w': World, s: Served)
    requires Guarded(site, w) && Accounted(w)
    requires w'.log == w.log + [s] && w'.lastPurge == w.lastPurge && s.typed.validBefore > w.lastPurge
    requires w'.pool.nonces == w.pool.nonces[s.key := s.typed.validBefore]
    ensures Accounted(w')
  {
    forall k | k in w'.pool.nonces ensures ServedWith(w'.log, k, w'.pool.nonces[k]) {
      if k == s.key {
        assert s in w'.log;
      } else {
        var t :| t in w.log && t.key == k && t.typed.validBefore == w.pool.nonces[k];
        assert t in w'.log;
      }
    }
  }

  lemma StepKeepsAccounted(site: Site, w: World, e: Event)
    requires Guarded(site, w) && Accounted(w) && w.wall <= WallAfter(w.wall, e)
    ensures Accounted(Step(site, w, e))
  {
    if e.Query? || e.Add? {
      NonceConsumedExactlyOn200(site, w.pool, e);
      if Answered(site, w.pool, e).status == 200 {
        AcceptedIsPresented(site, w.pool.nonces, e.header.payment, e.clock.wall);
        ServingKeepsAccounted(site, w, Step(site, w, e), Presented(site, e.header, e.clock.wall).value);
      }
    }
  }

  lemma {:induction false} RunKeepsAccounted(site: Site, w: World, events: seq<Event>)
    requires Guarded(site, w) && Accounted(w) && Timely(w.wall, events)
    ensures Accounted(Run(site, w, events))
    decreases |events|
  {
    if events != [] {
      StepKeepsGuarded(site, w, events[0]);
      StepKeepsAccounted(site, w, events[0]);
      RunKeepsAccounted(site, Step(site, w, events[0]), events[1..]);
    }
  }

  /** From an empty store, what is on file is exactly what was served and has not been purged, with its expiry. */
  lemma StoreIsTheUnpurgedLog(site: Site, w: World, events: seq<Event>, key: Key, expiry: int)
    requires Starts(site, w) && w.pool.nonces == map[] && Timely(w.wall, events)
    ensures var after := Run(site, w, events);
            key in after.pool.nonces && after.pool.nonces[key] == expiry
            <==> expiry > after.lastPurge && ServedWith(after.log, key, expiry)
  {
    RunKeepsAccounted(site, w, events);
    RunKeepsGuarded(site, w, events);
    var after := Run(site, w, events);
    if expiry > after.lastPurge && ServedWith(after.log, key, expiry) {
      var s :| s in after.log && s.key == key && s.typed.validBefore == expiry;
    }
  }

  /** Paid traffic, purges and decay never move the pinned root. */
  lemma {:induction false} RunKeepsRoot(site: Site, w: World, events: seq<Event>)
    requires Guarded(site, w) && Timely(w.wall, events)
    ensures StoreRoot(site.env, Run(site, w, events).pool.memory) == StoreRoot(site.env, w.pool.memory)
    decreases |events|
  {
    if events != [] {
      var e := events[0];
      StepKeepsGuarded(site, w, e);
      match e {
        case DecayAt(t) => DecayKeepsPinned(w.pool.memory.factors, w.pool.memory.entries, t);
        case PurgeAt(_) =>
        case _ => MemoryAfter(site, w.pool, e);
      }
      RunKeepsRoot(site, Step(site, w, e), events[1..]);
    }
  }
}
