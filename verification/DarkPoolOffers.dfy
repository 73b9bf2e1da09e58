/** What the server advertises in a 402 and what it accepts are the same: every offer is honoured. */
module DarkPoolOffers {
  import opened Prelude
  import opened NonceStores
  import opened Payments
  import opened DarkPools

  /** The contract under whose domain an offer asks to be signed: the one it names, or else its asset. */
  function ContractOf(a: Accept): string {
    if a.extra.contract.Some? then a.extra.contract.value else a.asset
  }

  /** The structure a payer signs for an offer. */
  function TypedForOffer(a: Accept, chainId: int, auth: Authorization): TypedData {
    TypedData(if a.extra.name.Some? then a.extra.name.value else "", if a.extra.version.Some? then a.extra.version.value else "",
              chainId, Lower(ContractOf(a)), Lower(auth.from), Lower(auth.to),
              auth.value, auth.validAfter, auth.validBefore, SignedNonce(auth.nonce))
  }

  /** The authorization pays what the offer asks for, to its payee, and is alive. */
  predicate Pays(a: Accept, auth: Authorization, now: int) {
    && Lower(auth.from) != ZERO_ADDRESS && auth.value == a.maxAmount && Lower(auth.to) == Lower(a.payTo)
    && now < auth.validBefore && auth.validAfter <= now + 5
  }

  /** A low-s signature that recovers to the payer under this structure. */
  predicate Recovers(ecrecover: Recovery, t: TypedData, sig: Signature, payer: string) {
    && sig.Rsv? && 0 < sig.r && 0 < sig.s && 2 * sig.s < SECP256K1_N
    && ecrecover(t, sig).Some? && Lower(ecrecover(t, sig).value) == Lower(payer) != ZERO_ADDRESS
  }

  /** The guards of signature recovery, spelled out. */
  lemma SignedUnderExactlyWhen(ecrecover: Recovery, cfg: Config, auth: Authorization, sig: Signature, d: Domain)
    requires Lower(auth.from) != ZERO_ADDRESS
    ensures SignedUnder(ecrecover, cfg, auth, sig, d)
            <==> Recovers(ecrecover, BuildTypedData(cfg, auth, d), sig, auth.from)
  {
    assert SECP256K1_N == 2 * SECP256K1_HALF_N + 1;
  }

  /**
    A payment made out for any advertised offer, signed under the domain the offer names and under no earlier one, is
    accepted exactly while its nonce is not on file under that contract.
   */
  lemma OffersAreHonoured(ecrecover: Recovery, cfg: Config, nonces: Rows, i: nat, auth: Authorization, sig: Signature, now: int)
    requires i < |AllAccepts(cfg)|
    requires var a := AllAccepts(cfg)[i];
             && Pays(a, auth, now) && Recovers(ecrecover, TypedForOffer(a, cfg.chainId, auth), sig, auth.from)
    requires i == 1 ==> !Recovers(ecrecover, TypedForOffer(AllAccepts(cfg)[0], cfg.chainId, auth), sig, auth.from)
    ensures var a := AllAccepts(cfg)[i];
            var p := Payment(Some(a.scheme), Some(a.network), Some(Payload(Fields(auth), Some(sig))));
            Validated(ecrecover, cfg, nonces, p, now).Ok?
            <==> Key(cfg.chainId, Lower(ContractOf(a)), Lower(auth.from), Lower(auth.nonce)) !in nonces
  {
    var a := AllAccepts(cfg)[i];
    var p := Payment(Some(a.scheme), Some(a.network), Some(Payload(Fields(auth), Some(sig))));
    var usdc := Domain(cfg.usdc, cfg.usdcName, cfg.usdcVersion);
    AcceptedExactlyWhen(ecrecover, cfg, nonces, p, now);
    SignedUnderExactlyWhen(ecrecover, cfg, auth, sig, usdc);
    assert BuildTypedData(cfg, auth, usdc) == TypedForOffer(AllAccepts(cfg)[0], cfg.chainId, auth);
    if i == 1 {
      var gateway := Domain(cfg.gateway.value, cfg.gatewayName, cfg.gatewayVersion);
      SignedUnderExactlyWhen(ecrecover, cfg, auth, sig, gateway);
      assert BuildTypedData(cfg, auth, gateway) == TypedForOffer(a, cfg.chainId, auth);
    }
  }

  /** Direct USDC is always offered, the gateway exactly when one is configured; both in USDC with the same timeout. */
  lemma OffersAdvertised(cfg: Config)
    ensures |AllAccepts(cfg)| == if cfg.gateway.Some? then 2 else 1
    ensures forall a | a in AllAccepts(cfg) ::
              && a.scheme == "exact" && a.network == cfg.network && a.asset == cfg.usdc && a.maxTimeout == cfg.maxTimeout
              && a.maxAmount == cfg.price && a.payTo == cfg.recipient
    ensures ContractOf(AllAccepts(cfg)[0]) == cfg.usdc
    ensures cfg.gateway.Some? ==> ContractOf(AllAccepts(cfg)[1]) == cfg.gateway.value
  {
  }

  // ---- Why a payment is refused ----

  /** The error of the first check that fails. */
  function FirstFailing(checks: seq<(bool, PayError)>): Option<PayError> {
    if checks == [] then None
    else if checks[0].0 then Some(checks[0].1)
    else FirstFailing(checks[1..])
  }

  function AuthorizationOf(p: Payment): Option<Authorization> {
    if p.payload.Some? && p.payload.value.authorization.Fields? then Some(p.payload.value.authorization.auth) else None
  }

  /** Recovery raises for an unparsable signature, an r or s out of range, or an address that is not there or zero. */
  predicate Raises(ecrecover: Recovery, t: TypedData, sig: Signature) {
    || sig.Unparsable? || sig.r == 0 || sig.s == 0 || 2 * sig.s > SECP256K1_N
    || ecrecover(t, sig).None? || Lower(ecrecover(t, sig).value) == ZERO_ADDRESS
  }

  /** What is checked of the envelope, in order. */
  function EnvelopeChecks(cfg: Config, p: Payment): seq<(bool, PayError)> {
    [(p.scheme != Some("exact"), UnsupportedScheme),
     (p.network != Some(cfg.network), UnsupportedNetwork),
     (p.payload.None?, MissingPayload),
     (p.payload.Some? && (p.payload.value.authorization.NotAnObject? || p.payload.value.signature.None?), MissingAuthorization),
     (p.payload.Some? && p.payload.value.authorization.BadFields?, InvalidFields)]
  }

  /** What is checked of the authorization, in order. */
  function AuthorizationChecks(cfg: Config, a: Authorization, now: int): seq<(bool, PayError)> {
    [(Lower(a.from) == ZERO_ADDRESS, ZeroFrom),
     (a.validBefore <= now, Expired),
     (a.validAfter > now + 5, NotYetValid),
     (Lower(a.to) != Lower(cfg.recipient), WrongRecipient),
     (a.value < cfg.price, Insufficient),
     (a.value > 2 * cfg.price, Excessive)]
  }

  lemma FirstFrom(c: seq<(bool, PayError)>, i: nat)
    requires i < |c|
    ensures FirstFailing(c[i..]) == if c[i].0 then Some(c[i].1) else FirstFailing(c[i + 1..])
  {
    assert c[i..][1..] == c[i + 1..];
  }

  lemma FirstOfFive(c: seq<(bool, PayError)>)
    requires |c| == 5
    ensures FirstFailing(c) == if c[0].0 then Some(c[0].1) else if c[1].0 then Some(c[1].1) else if c[2].0 then Some(c[2].1)
                               else if c[3].0 then Some(c[3].1) else if c[4].0 then Some(c[4].1) else None
  {
    assert FirstFailing(c[4..]) == if c[4].0 then Some(c[4].1) else None;
    FirstFrom(c, 3);
    FirstFrom(c, 2);
    FirstFrom(c, 1);
  }

  lemma FirstOfSix(c: seq<(bool, PayError)>)
    requires |c| == 6
    ensures FirstFailing(c) == if c[0].0 then Some(c[0].1) else if c[1].0 then Some(c[1].1) else if c[2].0 then Some(c[2].1)
                               else if c[3].0 then Some(c[3].1) else if c[4].0 then Some(c[4].1)
                               else if c[5].0 then Some(c[5].1) else None
  {
    FirstOfFive(c[1..]);
  }

  /** A payment is turned away for the first check that fails: the envelope's, and only then the authorization's. */
  lemma ScreenedForTheFirstReason(cfg: Config, p: Payment, now: int)
    ensures var envelope := FirstFailing(EnvelopeChecks(cfg, p));
            if envelope.Some? then Screened(cfg, p, now) == Err(envelope.value)
            else
              && AuthorizationOf(p).Some? && p.payload.value.signature.Some?
              && var a := AuthorizationOf(p).value;
                 var reason := FirstFailing(AuthorizationChecks(cfg, a, now));
                 Screened(cfg, p, now) == if reason.Some? then Err(reason.value) else Ok((a, p.payload.value.signature.value))
  {
    FirstOfFive(EnvelopeChecks(cfg, p));
    if AuthorizationOf(p).Some? {
      FirstOfSix(AuthorizationChecks(cfg, AuthorizationOf(p).value, now));
    }
  }

  /**
    After the screening: recovery that raises under some domain is told from a signature of somebody else, and only a
    payment that passes all that is called replayed. A header that is missing gives no reason, a broken one its own.
   */
  lemma RefusedForTheFirstReason(ecrecover: Recovery, cfg: Config, nonces: Rows, header: Header, now: int)
    ensures var r := Checked(ecrecover, cfg, nonces, header, now);
            match header
            case Absent => r == Err(None)
            case Malformed => r == Err(Some(MalformedHeader))
            case Present(p) =>
              match Screened(cfg, p, now)
              case Err(e) => r == Err(Some(e))
              case Ok((a, sig)) =>
                var ds := Candidates(cfg);
                var signed := exists d | d in ds :: Recovers(ecrecover, BuildTypedData(cfg, a, d), sig, a.from);
                var raised := exists d | d in ds :: Raises(ecrecover, BuildTypedData(cfg, a, d), sig);
                && (signed ==> r.Ok? || r == Err(Some(NonceReplayed)))
                && (!signed ==> r == Err(Some(if raised then RecoveryFailed else SignatureMismatch)))
  {
    if header.Present? && Screened(cfg, header.payment, now).Ok? {
      var (a, sig) := Screened(cfg, header.payment, now).value;
      RecoveryReasons(ecrecover, cfg, a, sig);
    }
  }

  lemma RecoveryReasons(ecrecover: Recovery, cfg: Config, a: Authorization, sig: Signature)
    requires Lower(a.from) != ZERO_ADDRESS
    ensures FirstMatch(ecrecover, cfg, a, sig, Candidates(cfg)).Some?
            <==> exists d | d in Candidates(cfg) :: Recovers(ecrecover, BuildTypedData(cfg, a, d), sig, a.from)
    ensures SomeRecoveryFails(ecrecover, cfg, a, sig, Candidates(cfg))
            <==> exists d | d in Candidates(cfg) :: Raises(ecrecover, BuildTypedData(cfg, a, d), sig)
  {
    var ds := Candidates(cfg);
    FirstMatchSpec(ecrecover, cfg, a, sig, ds);
    forall d | d in ds
      ensures SignedUnder(ecrecover, cfg, a, sig, d) <==> Recovers(ecrecover, BuildTypedData(cfg, a, d), sig, a.from)
      ensures RecoverSigner(ecrecover, BuildTypedData(cfg, a, d), sig).None?
              <==> Raises(ecrecover, BuildTypedData(cfg, a, d), sig)
    {
      SignedUnderExactlyWhen(ecrecover, cfg, a, sig, d);
      RaisesExactlyWhen(ecrecover, BuildTypedData(cfg, a, d), sig);
    }
  }

  lemma RaisesExactlyWhen(ecrecover: Recovery, t: TypedData, sig: Signature)
    ensures RecoverSigner(ecrecover, t, sig).None? <==> Raises(ecrecover, t, sig)
  {
    assert SECP256K1_N == 2 * SECP256K1_HALF_N + 1;
  }
}
