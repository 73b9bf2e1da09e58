/** The paying client: which offer it accepts, what it signs, and the handshake with the server. */
module X402Client {
  import opened Prelude
  import opened MemoryStore
  import opened NonceStores
  import opened RateLimiting
  import opened Payments
  import opened DarkPools

  const DEFAULT_TIMEOUT := 60
  const UINT256_LIMIT := 0x1_0000000000000000_0000000000000000_0000000000000000_0000000000000000

  /** An `accepts` entry as any server may send it: every field may be missing. */
  datatype Offer = Offer(
    scheme: Option<string>, network: Option<string>, maxAmount: Option<int>, payTo: Option<string>,
    asset: Option<string>, maxTimeout: Option<int>, extra: Extra)

  /** What the caller knows before the call. */
  datatype Policy = Policy(
    network: string, asset: string, chainId: int, expectedPrice: int, expectedRecipient: Option<string>)

  datatype ClientError = RecipientMismatch | NoAcceptable | NoOffers | NotSignable | UnexpectedStatus | StillRefused

  /** An account: its address and its signing function. */
  datatype Account = Account(address: string, sign: TypedData -> Signature)

  function GetOr<T>(o: Option<T>, default: T): T {
    match o
    case Some(v) => v
    case None => default
  }

  function Wire(a: Accept): Offer {
    Offer(Some(a.scheme), Some(a.network), Some(a.maxAmount), Some(a.payTo), Some(a.asset), Some(a.maxTimeout), a.extra)
  }

  function Offers(accepts: seq<Accept>): (r: seq<Offer>)
    ensures |r| == |accepts|
  {
    seq(|accepts|, i requires 0 <= i < |accepts| => Wire(accepts[i]))
  }

  /** An empty recipient pins nothing. */
  predicate Pins(policy: Policy) {
    policy.expectedRecipient.Some? && policy.expectedRecipient.value != ""
  }

  predicate AmountOk(policy: Policy, o: Offer) {
    && o.scheme == Some(SCHEME) && o.network == Some(policy.network)
    && Lower(GetOr(o.asset, "")) == Lower(policy.asset)
    && GetOr(o.maxAmount, 0) <= policy.expectedPrice
  }

  predicate RecipientOk(policy: Policy, o: Offer) {
    Pins(policy) ==> Lower(GetOr(o.payTo, "")) == Lower(policy.expectedRecipient.value)
  }

  predicate Passes(policy: Policy, o: Offer) {
    AmountOk(policy, o) && RecipientOk(policy, o)
  }

  ghost predicate FirstPassing(offers: seq<Offer>, policy: Policy, o: Offer) {
    exists i | 0 <= i < |offers| ::
      offers[i] == o && Passes(policy, o) && forall j | 0 <= j < i :: !Passes(policy, offers[j])
  }

  /** The first offer within the policy; otherwise why there is none. */
  method PickAccept(offers: seq<Offer>, policy: Policy) returns (r: Result<Offer, ClientError>)
    ensures r.Ok? <==> exists o | o in offers :: Passes(policy, o)
    ensures r.Ok? ==> FirstPassing(offers, policy, r.value)
    ensures r.Err? ==> r.error == if Pins(policy) && exists o | o in offers :: AmountOk(policy, o)
                                  then RecipientMismatch else NoAcceptable
  {
    var matchedAmount := false;
    var i := 0;
    while i < |offers|
      invariant 0 <= i <= |offers|
      invariant forall j | 0 <= j < i :: !Passes(policy, offers[j])
      invariant matchedAmount <==> exists j | 0 <= j < i :: AmountOk(policy, offers[j])
    {
      var o := offers[i];
      if AmountOk(policy, o) {
        matchedAmount := true;
        if RecipientOk(policy, o) {
          assert Passes(policy, o) && o in offers;
          return Ok(o);
        }
      }
      i := i + 1;
    }
    if Pins(policy) && matchedAmount {
      return Err(RecipientMismatch);
    }
    return Err(NoAcceptable);
  }

  /** The authorization written for an offer at time `now` with a random nonce. */
  function AuthorizationFor(account: Account, o: Offer, now: int, nonce: string): Authorization {
    Authorization(account.address, GetOr(o.payTo, ""), GetOr(o.maxAmount, 0),
                  now - 1, now + GetOr(o.maxTimeout, DEFAULT_TIMEOUT), nonce)
  }

  /** The structure the client signs: the verifying contract is the asset the caller asked for. */
  function TypedFor(account: Account, policy: Policy, o: Offer, now: int, nonce: string): TypedData {
    var a := AuthorizationFor(account, o, now, nonce);
    TypedData(GetOr(o.extra.name, "USDC"), GetOr(o.extra.version, "2"), policy.chainId, Lower(policy.asset),
              Lower(a.from), Lower(a.to), a.value, a.validAfter, a.validBefore, SignedNonce(a.nonce))
  }

  predicate FitsUint256(n: int) {
    0 <= n < UINT256_LIMIT
  }

  /** An authorization that can be encoded: a payee is named, and every number fits its unsigned type. */
  predicate Signable(o: Offer, now: int) {
    && o.payTo.Some?
    && FitsUint256(GetOr(o.maxAmount, 0)) && FitsUint256(now - 1)
    && FitsUint256(now + GetOr(o.maxTimeout, DEFAULT_TIMEOUT))
  }

  function PaymentFor(account: Account, policy: Policy, o: Offer, now: int, nonce: string): Payment {
    Payment(Some(SCHEME), Some(policy.network),
            Some(Payload(Fields(AuthorizationFor(account, o, now, nonce)),
                         Some((account.sign)(TypedFor(account, policy, o, now, nonce))))))
  }

  /** What a payment says on the wire is what is signed, and that is within the policy. */
  ghost predicate WithinPolicy(account: Account, policy: Policy, p: Payment, signed: TypedData) {
    && p.payload.Some? && p.payload.value.authorization.Fields?
    && p.payload.value.signature == Some((account.sign)(signed))
    && (var a := p.payload.value.authorization.auth;
        && signed.value == a.value && signed.to == Lower(a.to) && signed.from == Lower(a.from) == Lower(account.address)
        && signed.nonce == SignedNonce(a.nonce)
        && signed.validAfter == a.validAfter && signed.validBefore == a.validBefore)
    && 0 <= signed.value <= policy.expectedPrice
    && signed.chainId == policy.chainId && signed.contract == Lower(policy.asset)
    && (Pins(policy) ==> signed.to == Lower(policy.expectedRecipient.value))
  }

  /** What is signed was offered: an exact-scheme offer on the caller's network, in its asset, at its amount and payee. */
  ghost predicate Offered(o: Offer, policy: Policy, a: Authorization, signed: TypedData, now: int) {
    && o.scheme == Some("exact") && o.network == Some(policy.network)
    && Lower(if o.asset.Some? then o.asset.value else "") == Lower(policy.asset)
    && o.payTo == Some(a.to) && a.value == (if o.maxAmount.Some? then o.maxAmount.value else 0)
    && a.validAfter == now - 1 && a.validBefore == now + (if o.maxTimeout.Some? then o.maxTimeout.value else 60)
    && signed.name == (if o.extra.name.Some? then o.extra.name.value else "USDC")
    && signed.version == (if o.extra.version.Some? then o.extra.version.value else "2")
  }

  /** Why an offer is passed over. */
  ghost predicate Unfit(o: Offer, policy: Policy) {
    || o.scheme != Some("exact") || o.network != Some(policy.network)
    || Lower(if o.asset.Some? then o.asset.value else "") != Lower(policy.asset)
    || (o.maxAmount.Some? && o.maxAmount.value > policy.expectedPrice) || (o.maxAmount.None? && policy.expectedPrice < 0)
    || (policy.expectedRecipient.Some? && policy.expectedRecipient.value != ""
        && Lower(if o.payTo.Some? then o.payTo.value else "") != Lower(policy.expectedRecipient.value))
  }

  /**
    From a challenge of any server to the payment that is sent. Whatever is offered, the one thing signed is worth at
    most the expected price, in the asset asked for, to any pinned payee; and something is signed if and only if some
    offer passes and the first that does can be encoded.
   */
  method SignFor(offers: seq<Offer>, account: Account, policy: Policy, now: int, nonce: string)
    returns (r: Result<Payment, ClientError>, ghost signed: TypedData)
    ensures r.Ok? ==> WithinPolicy(account, policy, r.value, signed)
    ensures r.Ok? ==> exists o :: FirstPassing(offers, policy, o) && r.value == PaymentFor(account, policy, o, now, nonce)
    ensures r.Ok? <==> exists o :: FirstPassing(offers, policy, o) && Signable(o, now)
    ensures r.Ok? ==> exists o :: o in offers && Offered(o, policy, r.value.payload.value.authorization.auth, signed, now)
    ensures r.Ok? ==> r.value.payload.value.authorization.auth.nonce == nonce
    ensures r.Err? && r.error != NotSignable ==> forall o | o in offers :: Unfit(o, policy)
    ensures r.Err? ==> r.error ==
                       if offers == [] then NoOffers
                       else if exists o | o in offers :: Passes(policy, o) then NotSignable
                       else if Pins(policy) && exists o | o in offers :: AmountOk(policy, o) then RecipientMismatch
                       else NoAcceptable
  {
    signed := TypedData("", "", 0, "", "", "", 0, 0, 0, "");
    if offers == [] {
      return Err(NoOffers), signed;
    }
    var picked := PickAccept(offers, policy);
    if picked.Err? {
      return Err(picked.error), signed;
    }
    var o := picked.value;
    if !Signable(o, now) {
      return Err(NotSignable), signed;
    }
    signed := TypedFor(account, policy, o, now, nonce);
    assert o in offers && Offered(o, policy, AuthorizationFor(account, o, now, nonce), signed, now);
    r := Ok(PaymentFor(account, policy, o, now, nonce));
  }

  // ---- The handshake ----

  /** Signing and recovery fit together: low-s signatures that recover to the account. */
  ghost predicate IdealSigner(ecrecover: Recovery, account: Account) {
    && Lower(account.address) != ZERO_ADDRESS
    && forall t ::
         && (account.sign)(t).Rsv? && (account.sign)(t).r > 0
         && 0 < (account.sign)(t).s <= SECP256K1_HALF_N
         && ecrecover(t, (account.sign)(t)).Some?
         && Lower(ecrecover(t, (account.sign)(t)).value) == Lower(account.address)
  }

  /** The caller and the server mean the same network, chain, asset and payee, at a price the caller expects. */
  predicate Agreement(cfg: Config, policy: Policy) {
    && policy.network == cfg.network && policy.chainId == cfg.chainId
    && Lower(policy.asset) == Lower(cfg.usdc)
    && policy.expectedPrice >= cfg.price
    && (Pins(policy) ==> Lower(policy.expectedRecipient.value) == Lower(cfg.recipient))
  }

  /** The server's clock is inside the signed window, up to the skew it allows. */
  predicate InWindow(cfg: Config, signedAt: int, wall: int) {
    signedAt - 1 <= wall + 5 && wall < signedAt + cfg.maxTimeout
  }

  function DirectKey(cfg: Config, account: Account, nonce: string): Key {
    Key(cfg.chainId, Lower(cfg.usdc), Lower(account.address), Lower(nonce))
  }

  /** The server validates what the client signed for its own first offer, exactly inside the window and once. */
  lemma ClientPaymentValidates(ecrecover: Recovery, cfg: Config, nonces: Rows, account: Account, policy: Policy,
                               signedAt: int, nonce: string, wall: int)
    requires Agreement(cfg, policy) && IdealSigner(ecrecover, account)
    ensures var p := PaymentFor(account, policy, Wire(AllAccepts(cfg)[0]), signedAt, nonce);
            var v := Validated(ecrecover, cfg, nonces, p, wall);
            && (v.Ok? <==> InWindow(cfg, signedAt, wall) && DirectKey(cfg, account, nonce) !in nonces)
            && (v.Ok? ==> && AcceptedKey(cfg, v.value) == DirectKey(cfg, account, nonce)
                          && v.value.signer == Lower(account.address)
                          && v.value.validBefore == signedAt + cfg.maxTimeout)
  {
    var o := Wire(AllAccepts(cfg)[0]);
    var auth, typed := AuthorizationFor(account, o, signedAt, nonce), TypedFor(account, policy, o, signedAt, nonce);
    assert BuildTypedData(cfg, auth, Candidates(cfg)[0]) == typed;
    assert SignedUnder(ecrecover, cfg, auth, (account.sign)(typed), Candidates(cfg)[0]);
    LowerIdempotent(account.address);
    LowerIdempotent(nonce);
  }

  /** A server that agrees with the caller is paid under its first offer. */
  lemma FirstOfferPasses(cfg: Config, policy: Policy, offers: seq<Offer>)
    requires Agreement(cfg, policy) && offers == Offers(AllAccepts(cfg))
    ensures FirstPassing(offers, policy, Wire(AllAccepts(cfg)[0]))
    ensures forall o :: FirstPassing(offers, policy, o) ==> o == Wire(AllAccepts(cfg)[0])
  {
    assert Passes(policy, offers[0]);
  }

  /** The caller's clock and the server's price and timeout give an authorization that can be encoded. */
  predicate CanSign(cfg: Config, signedAt: int) {
    Signable(Wire(AllAccepts(cfg)[0]), signedAt)
  }

  /** When the two sides agree: everything that decides the answer to the signed request, and what is put on file. */
  ghost predicate Handshake(server: DarkPoolServer, before: Pool, account: Account, policy: Policy, body: QueryBody,
                            nonce: string, signedAt: int, second: Clock, paid: bool, after: Rows)
    reads server.limiter
  {
    var cfg, key := server.cfg, DirectKey(server.cfg, account, nonce);
    Agreement(cfg, policy) && IdealSigner(server.ecrecover, account) && |body.vec| == before.memory.dim ==>
      && (paid <==>
            && CanSign(cfg, signedAt) && InWindow(cfg, signedAt, second.wall) && key !in before.nonces
            && Grants(server.limiter.limits, SlotOf(before.buckets, Lower(account.address)), 1, second.mono))
      && after == if paid then before.nonces[key := signedAt + cfg.maxTimeout] else before.nonces
  }

  /** What the payment and rate-limit steps make of the signed request. */
  lemma SignedGate(ecrecover: Recovery, cfg: Config, limits: Limits, before: Pool, account: Account,
                   policy: Policy, nonce: string, signedAt: int, clock: Clock)
    requires Agreement(cfg, policy) && IdealSigner(ecrecover, account)
    ensures var p := PaymentFor(account, policy, Wire(AllAccepts(cfg)[0]), signedAt, nonce);
            var g, key := Gated(ecrecover, cfg, limits, before, Present(p), clock), DirectKey(cfg, account, nonce);
            var valid := InWindow(cfg, signedAt, clock.wall) && key !in before.nonces;
            var token := Grants(limits, SlotOf(before.buckets, Lower(account.address)), 1, clock.mono);
            && (g.Unpaid? <==> !valid) && (g.Limited? <==> valid && !token)
            && (g.Through? ==> AcceptedKey(cfg, g.acc) == key && g.acc.validBefore == signedAt + cfg.maxTimeout)
  {
    ClientPaymentValidates(ecrecover, cfg, before.nonces, account, policy, signedAt, nonce, clock.wall);
  }

  lemma SignedRequestOutcome(server: DarkPoolServer, before: Pool, account: Account, policy: Policy, body: QueryBody,
                             nonce: string, signedAt: int, second: Clock)
    ensures var p := PaymentFor(account, policy, Wire(AllAccepts(server.cfg)[0]), signedAt, nonce);
            var o := QueryOutcome(server.ecrecover, server.cfg, server.limiter.limits, before, Some(body), Present(p), second);
            CanSign(server.cfg, signedAt) ==>
              Handshake(server, before, account, policy, body, nonce, signedAt, second, o.status == 200, o.pool.nonces)
  {
    if Agreement(server.cfg, policy) && IdealSigner(server.ecrecover, account) {
      SignedGate(server.ecrecover, server.cfg, server.limiter.limits, before, account, policy, nonce, signedAt, second);
    }
  }

  lemma StoredHasId(env: Platform, st: Store, body: AddBody, tick: int)
    requires Valid(st) && |body.vec| == st.dim && body.kind in PAID_KINDS
    ensures HasId(Stored'(env, st, body, tick).entries, body.traceId)
  {
    AddedKeepsValid(env, st, PaidAdd(body), tick);
  }

  /** The answer of the add route to a request that is valid or not and whose signer has a token or not. */
  ghost predicate AddAnswer(before: Pool, o: Outcome, id: Bytes, key: Key, expiry: int, valid: bool, token: bool) {
    && o.status == (if !valid then 402 else if !token then 429 else if HasId(before.memory.entries, id) then 409 else 200)
    && o.pool.nonces == (if o.status == 200 then before.nonces[key := expiry] else before.nonces)
    && (o.status == 200 ==> HasId(o.pool.memory.entries, id))
  }

  lemma AddByGate(env: Platform, ecrecover: Recovery, cfg: Config, limits: Limits, before: Pool, body: AddBody,
                  header: Header, clock: Clock, key: Key, expiry: int, valid: bool, token: bool)
    requires Valid(before.memory) && |body.vec| == before.memory.dim && body.kind in PAID_KINDS
    requires var g := Gated(ecrecover, cfg, limits, before, header, clock);
             && (g.Unpaid? <==> !valid) && (g.Limited? <==> valid && !token)
             && (g.Through? ==> AcceptedKey(cfg, g.acc) == key && g.acc.validBefore == expiry && key !in before.nonces)
    ensures AddAnswer(before, AddOutcome(env, ecrecover, cfg, limits, before, Some(body), header, clock),
                      body.traceId, key, expiry, valid, token)
  {
    StoredHasId(env, before.memory, body, clock.tick);
  }

  /** The same handshake on the add route, for a working-style kind. */
  lemma SignedAddOutcome(env: Platform, ecrecover: Recovery, cfg: Config, limits: Limits, before: Pool, account: Account,
                         policy: Policy, body: AddBody, nonce: string, signedAt: int, clock: Clock, expiry: int)
    requires Valid(before.memory) && Agreement(cfg, policy) && IdealSigner(ecrecover, account)
    requires |body.vec| == before.memory.dim && body.kind in PAID_KINDS
    requires expiry == signedAt + cfg.maxTimeout
    ensures var header := Present(PaymentFor(account, policy, Wire(AllAccepts(cfg)[0]), signedAt, nonce));
            var key := DirectKey(cfg, account, nonce);
            AddAnswer(before, AddOutcome(env, ecrecover, cfg, limits, before, Some(body), header, clock),
                      body.traceId, key, expiry,
                      InWindow(cfg, signedAt, clock.wall) && key !in before.nonces,
                      Grants(limits, SlotOf(before.buckets, Lower(account.address)), 1, clock.mono))
  {
    var header := Present(PaymentFor(account, policy, Wire(AllAccepts(cfg)[0]), signedAt, nonce));
    var key := DirectKey(cfg, account, nonce);
    SignedGate(ecrecover, cfg, limits, before, account, policy, nonce, signedAt, clock);
    AddByGate(env, ecrecover, cfg, limits, before, body, header, clock, key, expiry,
              InWindow(cfg, signedAt, clock.wall) && key !in before.nonces,
              Grants(limits, SlotOf(before.buckets, Lower(account.address)), 1, clock.mono));
  }

  /**
    Ask, sign the first acceptable offer, ask again. When the parties agree, the second answer is 200 exactly when the
    authorization can be encoded, the server's clock is in the signed window, the nonce is fresh and the signer has a
    token; the nonce is then on file under the USDC domain that was signed, with the signed expiry.
   */
  method PayAndQuery(server: DarkPoolServer, account: Account, policy: Policy, body: QueryBody, nonce: string,
                     signedAt: int, first: Clock, second: Clock)
    returns (r: Result<Response, ClientError>)
    requires server.Ready()
    modifies server.memory, server.nonceStore, server.limiter
    ensures server.Ready()
    ensures r.Ok? ==> Status(r.value) == 200
    ensures Handshake(server, old(server.State()), account, policy, body, nonce, signedAt, second,
                      r.Ok?, server.nonceStore.rows)
  {
    var challenge := server.HandleQuery(Some(body), Absent, first);
    assert server.State() == old(server.State());
    if Status(challenge) == 200 {
      return Ok(challenge);
    }
    if !challenge.PaymentRequired? {
      return Err(UnexpectedStatus);
    }
    var offers := Offers(challenge.accepts);
    var payment, _ := SignFor(offers, account, policy, signedAt, nonce);
    if Agreement(server.cfg, policy) {
      FirstOfferPasses(server.cfg, policy, offers);
    }
    if payment.Err? {
      return Err(payment.error);
    }
    var answer := server.HandleQuery(Some(body), Present(payment.value), second);
    SignedRequestOutcome(server, old(server.State()), account, policy, body, nonce, signedAt, second);
    if Status(answer) != 200 {
      return Err(StillRefused);
    }
    return Ok(answer);
  }
}
