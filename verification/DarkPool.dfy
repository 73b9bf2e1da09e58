/** The paywalled server: its two routes over the nonce store, the rate limiter and the memory. */
module DarkPools {
  import opened Prelude
  import opened MemoryStore
  import opened Scoring
  import opened MemoryServices
  import opened NonceStores
  import opened RateLimiting
  import opened Payments

  /** The clocks a request reads: wall seconds, the limiter's monotonic clock (twice when refused), memory ticks. */
  datatype Clock = Clock(wall: int, mono: real, retryMono: real, tick: int)

  datatype Header = Absent | Malformed | Present(payment: Payment)

  datatype QueryBody = QueryBody(vec: Vec, k: nat)

  datatype AddBody = AddBody(traceId: Bytes, vec: Vec, payload: Option<Bytes>, kind: string)

  const PAID_KINDS: set<string> := {"working", "episodic", "semantic"}

  /** The state the routes change. */
  datatype Pool = Pool(nonces: Rows, buckets: map<string, Bucket>, memory: Store)

  /** EIP-712 hints of an `accepts` entry; the gateway entry also names the verifying contract. */
  datatype Extra = Extra(name: Option<string>, version: Option<string>, contract: Option<string>)

  datatype Accept = Accept(
    scheme: string, network: string, maxAmount: int, payTo: string, asset: string, maxTimeout: int, extra: Extra)

  datatype Hit = Hit(traceId: Bytes, score: real, payload: Bytes)

  datatype Response =
    | BadRequest
    | PaymentRequired(accepts: seq<Accept>, error: Option<PayError>)
    | Conflict
    | TooManyRequests(wait: Option<real>, header: int)
    | Results(hits: seq<Hit>)
    | Stored(count: nat, signer: string)

  function Status(r: Response): int {
    match r
    case BadRequest => 400
    case PaymentRequired(_, _) => 402
    case Conflict => 409
    case TooManyRequests(_, _) => 429
    case Results(_) => 200
    case Stored(_, _) => 200
  }

  /** `accepts[0]` is direct USDC; `accepts[1]` is the gateway, if one is configured. */
  function AllAccepts(cfg: Config): seq<Accept> {
    [Accept(SCHEME, cfg.network, cfg.price, cfg.recipient, cfg.usdc, cfg.maxTimeout,
            Extra(Some(cfg.usdcName), Some(cfg.usdcVersion), None))]
    + (if cfg.gateway.None? then []
       else [Accept(SCHEME, cfg.network, cfg.price, cfg.recipient, cfg.usdc, cfg.maxTimeout,
                    Extra(Some(cfg.gatewayName), Some(cfg.gatewayVersion), cfg.gateway))])
  }

  // ---- The routes as functions of the pool ----

  /** What the payment and rate-limit steps make of a request. */
  datatype Gate = Unpaid(error: Option<PayError>) | Limited(signer: string) | Through(acc: Accepted)

  function Checked(ecrecover: Recovery, cfg: Config, nonces: Rows, header: Header, wall: int): Result<Accepted, Option<PayError>> {
    match header
    case Absent => Err(None)
    case Malformed => Err(Some(MalformedHeader))
    case Present(p) =>
      match Validated(ecrecover, cfg, nonces, p, wall)
      case Ok(acc) => Ok(acc)
      case Err(e) => Err(Some(e))
  }

  /** The pool once the signer's bucket has been asked for one token. */
  function Metered(limits: Limits, pool: Pool, signer: string, mono: real): Pool {
    pool.(buckets := pool.buckets[signer := Consumed(limits, SlotOf(pool.buckets, signer), 1, mono)])
  }

  function Gated(ecrecover: Recovery, cfg: Config, limits: Limits, pool: Pool, header: Header, clock: Clock): Gate {
    match Checked(ecrecover, cfg, pool.nonces, header, clock.wall)
    case Err(e) => Unpaid(e)
    case Ok(acc) =>
      if Grants(limits, SlotOf(pool.buckets, acc.signer), 1, clock.mono) then Through(acc) else Limited(acc.signer)
  }

  function Committed(cfg: Config, pool: Pool, acc: Accepted): Pool {
    pool.(nonces := Inserted(pool.nonces, AcceptedKey(cfg, acc), acc.validBefore))
  }

  datatype Outcome = Outcome(status: int, pool: Pool)

  function QueryOutcome(ecrecover: Recovery, cfg: Config, limits: Limits, pool: Pool,
                        body: Option<QueryBody>, header: Header, clock: Clock): Outcome {
    if body.None? || |body.value.vec| != pool.memory.dim then Outcome(400, pool)
    else match Gated(ecrecover, cfg, limits, pool, header, clock)
      case Unpaid(_) => Outcome(402, pool)
      case Limited(signer) => Outcome(429, Metered(limits, pool, signer, clock.mono))
      case Through(acc) => Outcome(200, Committed(cfg, Metered(limits, pool, acc.signer, clock.mono), acc))
  }

  /** A paid add is never pinned. */
  function PaidAdd(body: AddBody): AddRequest {
    AddRequest(body.traceId, body.vec, body.kind, false, body.payload)
  }

  function Stored'(env: Platform, st: Store, body: AddBody, tick: int): Store
    requires |body.vec| == st.dim == |Centre(st)|
  {
    st.(centroid := Some(Centre(st)), entries := Put(st.entries, NewEntry(env, st, PaidAdd(body), tick)))
  }

  function AddOutcome(env: Platform, ecrecover: Recovery, cfg: Config, limits: Limits, pool: Pool,
                      body: Option<AddBody>, header: Header, clock: Clock): Outcome
    requires |Centre(pool.memory)| == pool.memory.dim
  {
    if body.None? || |body.value.vec| != pool.memory.dim || body.value.kind !in PAID_KINDS then Outcome(400, pool)
    else match Gated(ecrecover, cfg, limits, pool, header, clock)
      case Unpaid(_) => Outcome(402, pool)
      case Limited(signer) => Outcome(429, Metered(limits, pool, signer, clock.mono))
      case Through(acc) =>
        var metered := Metered(limits, pool, acc.signer, clock.mono);
        if HasId(pool.memory.entries, body.value.traceId) then Outcome(409, metered)
        else
          var committed := Committed(cfg, metered, acc);
          Outcome(200, committed.(memory := Stored'(env, pool.memory, body.value, clock.tick)))
  }

  /** The payload reported beside a result: the entry's, or an empty object. */
  function PayloadOf(entries: seq<Entry>, id: Bytes): Bytes {
    if entries == [] then EMPTY_OBJECT
    else if entries[0].traceId == id then entries[0].payload
    else PayloadOf(entries[1..], id)
  }

  /** Every id of the store is reported with its own payload, any other id with an empty object. */
  lemma {:induction false} PayloadOfEntry(entries: seq<Entry>, id: Bytes)
    requires DistinctIds(entries)
    ensures forall e | e in entries && e.traceId == id :: PayloadOf(entries, id) == e.payload
    ensures !HasId(entries, id) ==> PayloadOf(entries, id) == EMPTY_OBJECT
  {
    if entries != [] {
      var tail := entries[1..];
      assert entries == [entries[0]] + tail;
      PayloadOfEntry(tail, id);
      forall e | e in tail ensures e.traceId != entries[0].traceId && e in entries {
        var i :| 0 <= i < |tail| && tail[i] == e;
        assert entries[i + 1] == e;
      }
    }
  }

  function Hits(entries: seq<Entry>, results: seq<(Bytes, real)>): (hits: seq<Hit>)
    ensures |hits| == |results|
  {
    seq(|results|, i requires 0 <= i < |results| => Hit(results[i].0, results[i].1, PayloadOf(entries, results[i].0)))
  }

  /** A right answer to a query: the k best entries by score, or nothing from an empty memory. */
  ghost predicate Answers(env: Platform, st: Store, body: QueryBody, results: seq<(Bytes, real)>)
    requires |body.vec| == st.dim == |Centre(st)|
  {
    if st.entries == [] then results == []
    else RightAnswer(st.entries, Encode(env, st.dim, st.seed, Centre(st), body.vec).rotated, body.k, results)
  }

  /** One hit per result, in order, with its id, its score and the payload of the entry it names. */
  ghost predicate Reports(entries: seq<Entry>, results: seq<(Bytes, real)>, hits: seq<Hit>) {
    && |hits| == |results|
    && (forall i | 0 <= i < |hits| :: hits[i].traceId == results[i].0 && hits[i].score == results[i].1)
    && forall h, e | h in hits && e in entries && e.traceId == h.traceId :: h.payload == e.payload
  }

  lemma HitsReport(entries: seq<Entry>, results: seq<(Bytes, real)>)
    requires DistinctIds(entries)
    ensures Reports(entries, results, Hits(entries, results))
  {
    var hits := Hits(entries, results);
    forall h, e | h in hits && e in entries && e.traceId == h.traceId ensures h.payload == e.payload {
      PayloadOfEntry(entries, h.traceId);
      var i :| 0 <= i < |hits| && hits[i] == h;
    }
  }

  /** A 429 announces the wait of the signer's bucket as it is now, and the header is that wait in whole seconds. */
  predicate Announces(resp: Response, limits: Limits, buckets: map<string, Bucket>, signer: string, mono: real)
    requires ValidLimits(limits)
  {
    && resp.TooManyRequests? && resp.wait.Some?
    && resp.wait == RetryAfter(limits, SlotOf(buckets, signer), 1, mono)
    && resp.header == HeaderSeconds(resp.wait.value)
  }

  // ---- The server object ----

  class DarkPoolServer {
    const cfg: Config
    const ecrecover: Recovery
    const memory: MemoryService
    const nonceStore: InMemoryNonceStore
    const limiter: RateLimiter

    constructor (cfg: Config, ecrecover: Recovery, memory: MemoryService, nonceStore: InMemoryNonceStore, limiter: RateLimiter)
      ensures this.cfg == cfg && this.ecrecover == ecrecover
      ensures this.memory == memory && this.nonceStore == nonceStore && this.limiter == limiter
    {
      this.cfg, this.ecrecover := cfg, ecrecover;
      this.memory, this.nonceStore, this.limiter := memory, nonceStore, limiter;
    }

    ghost function State(): Pool
      reads memory, nonceStore, limiter
    {
      Pool(nonceStore.rows, limiter.buckets, memory.View())
    }

    ghost predicate Ready()
      reads memory, limiter
    {
      Valid(memory.View()) && ValidLimits(limiter.limits)
    }

    /** Reads only: tries each candidate domain in turn, then asks the store whether the nonce is known. */
    method ValidatePayment(p: Payment, now: int) returns (r: Result<Accepted, PayError>)
      ensures r == Validated(ecrecover, cfg, nonceStore.rows, p, now)
    {
      var screened := Screened(cfg, p, now);
      if screened.Err? {
        return Err(screened.error);
      }
      var auth, sig := screened.value.0, screened.value.1;
      var ds := Candidates(cfg);
      var found: Option<Domain> := None;
      var failed := false;
      var i := 0;
      while i < |ds| && found.None?
        invariant 0 <= i <= |ds|
        invariant found.None? ==> FirstMatch(ecrecover, cfg, auth, sig, ds)
                                  == FirstMatch(ecrecover, cfg, auth, sig, ds[i..])
        invariant found.Some? ==> FirstMatch(ecrecover, cfg, auth, sig, ds) == found
        invariant found.None? ==> (failed <==> SomeRecoveryFails(ecrecover, cfg, auth, sig, ds[..i]))
        decreases |ds| - i, found.None?
      {
        var d := ds[i];
        var candidate := RecoverSigner(ecrecover, BuildTypedData(cfg, auth, d), sig);
        assert ds[i..][0] == d && ds[i..][1..] == ds[i + 1..];
        assert ds[..i + 1] == ds[..i] + [d];
        match candidate {
          case None =>
            failed := true;
            assert d in ds[..i + 1];
          case Some(who) =>
            if Lower(who) == Lower(auth.from) {
              found := Some(d);
            }
        }
        i := i + 1;
      }
      if found.None? {
        assert ds[..i] == ds;
        return Err(if failed then RecoveryFailed else SignatureMismatch);
      }
      var acc := Accepted(Lower(auth.from), Lower(auth.nonce), auth.validBefore, found.value.contract);
      var known := nonceStore.Has(acc.signer, acc.nonce, Some(cfg.chainId), Some(acc.contract));
      if known == Ok(true) {
        return Err(NonceReplayed);
      }
      return Ok(acc);
    }

    /** Check and insert. */
    method CommitNonce(acc: Accepted) returns (ok: bool)
      modifies nonceStore
      ensures ok <==> AcceptedKey(cfg, acc) !in old(nonceStore.rows)
      ensures nonceStore.rows == Inserted(old(nonceStore.rows), AcceptedKey(cfg, acc), acc.validBefore)
    {
      var known := nonceStore.Has(acc.signer, acc.nonce, Some(cfg.chainId), Some(acc.contract));
      if known == Ok(true) {
        return false;
      }
      var done := nonceStore.Add(acc.signer, acc.nonce, acc.validBefore, Some(cfg.chainId), Some(acc.contract));
      return true;
    }

    method Refuse(signer: string, retryMono: real) returns (resp: Response)
      requires ValidLimits(limiter.limits) && signer in limiter.buckets
      ensures Announces(resp, limiter.limits, limiter.buckets, signer, retryMono)
    {
      var wait := limiter.RetryAfterOf(signer, 1, retryMono);
      resp := TooManyRequests(wait.value, HeaderSeconds(wait.value.value));
    }

    /** Steps shared by the routes: parse the header, validate the payment, take a token. Some(response) refuses. */
    method Admit(header: Header, clock: Clock) returns (refusal: Option<Response>, acc: Option<Accepted>)
      requires ValidLimits(limiter.limits)
      modifies limiter
      ensures refusal.None? <==> acc.Some?
      ensures match Gated(ecrecover, cfg, limiter.limits, old(State()), header, clock)
              case Unpaid(e) => refusal == Some(PaymentRequired(AllAccepts(cfg), e)) && State() == old(State())
              case Limited(signer) =>
                && refusal.Some? && Announces(refusal.value, limiter.limits, limiter.buckets, signer, clock.retryMono)
                && State() == Metered(limiter.limits, old(State()), signer, clock.mono)
              case Through(a) =>
                && acc == Some(a)
                && State() == Metered(limiter.limits, old(State()), a.signer, clock.mono)
    {
      acc := None;
      if header.Absent? {
        refusal := Some(PaymentRequired(AllAccepts(cfg), None));
        return;
      }
      if header.Malformed? {
        refusal := Some(PaymentRequired(AllAccepts(cfg), Some(MalformedHeader)));
        return;
      }
      var validated := ValidatePayment(header.payment, clock.wall);
      if validated.Err? {
        refusal := Some(PaymentRequired(AllAccepts(cfg), Some(validated.error)));
        return;
      }
      var granted := limiter.TryConsume(validated.value.signer, 1, clock.mono);
      if granted == Ok(false) {
        var limited := Refuse(validated.value.signer, clock.retryMono);
        refusal := Some(limited);
        return;
      }
      refusal, acc := None, Some(validated.value);
    }

    /** Looks up the payload of each result. */
    method CollectHits(results: seq<(Bytes, real)>) returns (hits: seq<Hit>)
      ensures hits == Hits(memory.entries, results)
      ensures DistinctIds(memory.entries) ==> Reports(memory.entries, results, hits)
    {
      hits := [];
      var i := 0;
      while i < |results|
        invariant 0 <= i <= |results|
        invariant hits == Hits(memory.entries, results)[..i]
      {
        var (id, score) := results[i];
        hits := hits + [Hit(id, score, PayloadOf(memory.entries, id))];
        i := i + 1;
      }
      assert hits == Hits(memory.entries, results);
      if DistinctIds(memory.entries) {
        HitsReport(memory.entries, results);
      }
    }

    method HandleQuery(body: Option<QueryBody>, header: Header, clock: Clock) returns (resp: Response)
      requires Ready()
      modifies memory, nonceStore, limiter
      ensures Ready()
      ensures Outcome(Status(resp), State())
              == QueryOutcome(ecrecover, cfg, limiter.limits, old(State()), body, header, clock)
      ensures resp.PaymentRequired? ==>
                && resp.accepts == AllAccepts(cfg)
                && Gated(ecrecover, cfg, limiter.limits, old(State()), header, clock) == Unpaid(resp.error)
      ensures Status(resp) == 200 ==>
                && resp.Results?
                && exists results :: Answers(memory.env, memory.View(), body.value, results)
                                     && Reports(memory.entries, results, resp.hits)
      ensures Status(resp) == 429 ==>
                var gate := Gated(ecrecover, cfg, limiter.limits, old(State()), header, clock);
                gate.Limited? && Announces(resp, limiter.limits, limiter.buckets, gate.signer, clock.retryMono)
    {
      if body.None? {
        return BadRequest;
      }
      if |body.value.vec| != memory.dim {
        return BadRequest;
      }
      var refusal, acc := Admit(header, clock);
      if refusal.Some? {
        return refusal.value;
      }
      var committed := CommitNonce(acc.value);
      if !committed {
        assert false;
      }
      var results := memory.Query(body.value.vec, body.value.k);
      assert Answers(memory.env, memory.View(), body.value, results.value);
      var hits := CollectHits(results.value);
      return Results(hits);
    }

    /** The last steps of a paid add: neither the re-check of the nonce nor the memory can refuse any more. */
    method CommitAndStore(acc: Accepted, b: AddBody, tick: int)
      requires Ready() && |b.vec| == memory.dim && b.kind in PAID_KINDS
      requires AcceptedKey(cfg, acc) !in nonceStore.rows
      modifies memory, nonceStore
      ensures Ready()
      ensures State() == Committed(cfg, old(State()), acc).(
                           memory := Stored'(memory.env, old(memory.View()), b, tick))
    {
      var committed := CommitNonce(acc);
      if !committed {
        assert false;
      }
      var added := memory.Add(PaidAdd(b), tick);
      if added.Err? {
        assert false;
      }
    }

    /** An admitted add: refused if the id exists, before the nonce is committed. */
    method AddAdmitted(acc: Accepted, b: AddBody, tick: int) returns (resp: Response)
      requires Ready() && |b.vec| == memory.dim && b.kind in PAID_KINDS
      requires AcceptedKey(cfg, acc) !in nonceStore.rows
      modifies memory, nonceStore
      ensures Ready()
      ensures HasId(old(memory.entries), b.traceId) ==> resp == Conflict && State() == old(State())
      ensures !HasId(old(memory.entries), b.traceId) ==>
                && resp == Stored(|memory.entries|, acc.signer)
                && State() == Committed(cfg, old(State()), acc).(
                                memory := Stored'(memory.env, old(memory.View()), b, tick))
    {
      if HasId(memory.entries, b.traceId) {
        return Conflict;
      }
      CommitAndStore(acc, b, tick);
      return Stored(|memory.entries|, acc.signer);
    }

    method HandleAdd(body: Option<AddBody>, header: Header, clock: Clock) returns (resp: Response)
      requires Ready()
      modifies memory, nonceStore, limiter
      ensures Ready()
      ensures Outcome(Status(resp), State())
              == AddOutcome(memory.env, ecrecover, cfg, limiter.limits, old(State()), body, header, clock)
      ensures resp.PaymentRequired? ==>
                && resp.accepts == AllAccepts(cfg)
                && Gated(ecrecover, cfg, limiter.limits, old(State()), header, clock) == Unpaid(resp.error)
      ensures Status(resp) == 200 ==>
                && resp.Stored? && resp.count == |memory.entries|
                && Gated(ecrecover, cfg, limiter.limits, old(State()), header, clock).Through?
                && resp.signer == Gated(ecrecover, cfg, limiter.limits, old(State()), header, clock).acc.signer
      ensures Status(resp) == 429 ==>
                var gate := Gated(ecrecover, cfg, limiter.limits, old(State()), header, clock);
                gate.Limited? && Announces(resp, limiter.limits, limiter.buckets, gate.signer, clock.retryMono)
    {
      if body.None? {
        return BadRequest;
      }
      var b := body.value;
      if |b.vec| != memory.dim {
        return BadRequest;
      }
      if b.kind !in PAID_KINDS {
        return BadRequest;
      }
      var refusal, acc := Admit(header, clock);
      if refusal.Some? {
        return refusal.value;
      }
      resp := AddAdmitted(acc.value, b, clock.tick);
    }
  }
}
