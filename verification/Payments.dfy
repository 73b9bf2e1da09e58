/**
  The payment a client attaches to a request: an EIP-3009 TransferWithAuthorization signed under an EIP-712 domain,
  and the checks the server makes before it accepts one.
 */
module Payments {
  import opened Prelude
  import opened NonceStores

  const SECP256K1_N: nat := 0xFFFFFFFFFFFFFFFFFFFFFFFFFFFFFFFEBAAEDCE6AF48A03BBFD25E8CD0364141
  const SECP256K1_HALF_N: nat := SECP256K1_N / 2
  const SCHEME := "exact"
  const VALUE_UPPER_FACTOR := 2
  const CLOCK_SKEW := 5

  datatype Config = Config(
    price: nat,
    recipient: string,
    chainId: int,
    usdc: string,
    network: string,
    usdcName: string,
    usdcVersion: string,
    maxTimeout: int,
    gateway: Option<string>,
    gatewayName: string,
    gatewayVersion: string
  )

  /** A 65-byte signature, or text that is not one. */
  datatype Signature = Unparsable | Rsv(r: nat, s: nat, v: nat)

  /** The signed structure. Addresses and the nonce are byte values, so their hex spellings are lower-cased here. */
  datatype TypedData = TypedData(
    name: string,
    version: string,
    chainId: int,
    contract: string,
    from: string,
    to: string,
    value: int,
    validAfter: int,
    validBefore: int,
    nonce: string
  )

  type Recovery = (TypedData, Signature) -> Option<string>

  datatype Authorization = Authorization(
    from: string, to: string, value: int, validAfter: int, validBefore: int, nonce: string)

  datatype AuthorizationJson = NotAnObject | BadFields | Fields(auth: Authorization)

  datatype Payload = Payload(authorization: AuthorizationJson, signature: Option<Signature>)

  datatype Payment = Payment(scheme: Option<string>, network: Option<string>, payload: Option<Payload>)

  datatype PayError =
    | MalformedHeader | UnsupportedScheme | UnsupportedNetwork | MissingPayload | MissingAuthorization | InvalidFields
    | ZeroFrom | Expired | NotYetValid | WrongRecipient | Insufficient | Excessive
    | RecoveryFailed | SignatureMismatch | NonceReplayed

  datatype Domain = Domain(contract: string, name: string, version: string)

  /** What validation hands to the rest of the handler. */
  datatype Accepted = Accepted(signer: string, nonce: string, validBefore: int, contract: string)

  predicate Prefixed(nonce: string) {
    "0x" <= nonce
  }

  /** The nonce that is signed: a missing prefix is added first. */
  function SignedNonce(nonce: string): string {
    Lower(if Prefixed(nonce) then nonce else "0x" + nonce)
  }

  function BuildTypedData(cfg: Config, auth: Authorization, d: Domain): TypedData {
    TypedData(d.name, d.version, cfg.chainId, Lower(d.contract), Lower(auth.from), Lower(auth.to),
              auth.value, auth.validAfter, auth.validBefore, SignedNonce(auth.nonce))
  }

  /** Signature recovery with its guards; None is a raised error. */
  function RecoverSigner(ecrecover: Recovery, typed: TypedData, sig: Signature): Option<string> {
    if sig.Unparsable? || sig.r == 0 || sig.s == 0 || sig.s > SECP256K1_HALF_N then None
    else match ecrecover(typed, sig)
      case None => None
      case Some(address) => if Lower(address) == ZERO_ADDRESS then None else Some(address)
  }

  /** Direct USDC first, then the gateway wallet if one is configured. */
  function Candidates(cfg: Config): seq<Domain> {
    [Domain(cfg.usdc, cfg.usdcName, cfg.usdcVersion)]
    + (if cfg.gateway.Some? then [Domain(cfg.gateway.value, cfg.gatewayName, cfg.gatewayVersion)] else [])
  }

  predicate SignedUnder(ecrecover: Recovery, cfg: Config, auth: Authorization, sig: Signature, d: Domain) {
    var who := RecoverSigner(ecrecover, BuildTypedData(cfg, auth, d), sig);
    who.Some? && Lower(who.value) == Lower(auth.from)
  }

  /** The first domain under which the signature recovers to the payer. */
  function FirstMatch(ecrecover: Recovery, cfg: Config, auth: Authorization, sig: Signature, ds: seq<Domain>): Option<Domain> {
    if ds == [] then None
    else if SignedUnder(ecrecover, cfg, auth, sig, ds[0]) then Some(ds[0])
    else FirstMatch(ecrecover, cfg, auth, sig, ds[1..])
  }

  predicate SomeRecoveryFails(ecrecover: Recovery, cfg: Config, auth: Authorization, sig: Signature, ds: seq<Domain>) {
    exists d | d in ds :: RecoverSigner(ecrecover, BuildTypedData(cfg, auth, d), sig).None?
  }

  /** The checks on the envelope and the authorization, in order, before the signature is looked at. */
  function Screened(cfg: Config, p: Payment, now: int): Result<(Authorization, Signature), PayError> {
    if p.scheme != Some(SCHEME) then Err(UnsupportedScheme)
    else if p.network != Some(cfg.network) then Err(UnsupportedNetwork)
    else if p.payload.None? then Err(MissingPayload)
    else if p.payload.value.authorization.NotAnObject? || p.payload.value.signature.None? then Err(MissingAuthorization)
    else if p.payload.value.authorization.BadFields? then Err(InvalidFields)
    else
      var a := p.payload.value.authorization.auth;
      if Lower(a.from) == ZERO_ADDRESS then Err(ZeroFrom)
      else if a.validBefore <= now then Err(Expired)
      else if a.validAfter > now + CLOCK_SKEW then Err(NotYetValid)
      else if Lower(a.to) != Lower(cfg.recipient) then Err(WrongRecipient)
      else if a.value < cfg.price then Err(Insufficient)
      else if a.value > cfg.price * VALUE_UPPER_FACTOR then Err(Excessive)
      else Ok((a, p.payload.value.signature.value))
  }

  function AcceptedKey(cfg: Config, acc: Accepted): Key {
    Key(cfg.chainId, Lower(acc.contract), Lower(acc.signer), Lower(acc.nonce))
  }

  /** The whole validation; the store is only read. */
  function Validated(ecrecover: Recovery, cfg: Config, nonces: Rows, p: Payment, now: int): Result<Accepted, PayError> {
    match Screened(cfg, p, now)
    case Err(e) => Err(e)
    case Ok((auth, sig)) =>
      match FirstMatch(ecrecover, cfg, auth, sig, Candidates(cfg))
      case None =>
        Err(if SomeRecoveryFails(ecrecover, cfg, auth, sig, Candidates(cfg)) then RecoveryFailed else SignatureMismatch)
      case Some(d) =>
        var acc := Accepted(Lower(auth.from), Lower(auth.nonce), auth.validBefore, d.contract);
        if AcceptedKey(cfg, acc) in nonces then Err(NonceReplayed) else Ok(acc)
  }

  /** The search finds the first domain the payer signed under, and fails only if there is none. */
  lemma {:induction false} FirstMatchSpec(ecrecover: Recovery, cfg: Config, auth: Authorization, sig: Signature, ds: seq<Domain>)
    ensures match FirstMatch(ecrecover, cfg, auth, sig, ds)
            case None => forall d | d in ds :: !SignedUnder(ecrecover, cfg, auth, sig, d)
            case Some(d) =>
              exists i | 0 <= i < |ds| ::
                && ds[i] == d && SignedUnder(ecrecover, cfg, auth, sig, d)
                && forall j | 0 <= j < i :: !SignedUnder(ecrecover, cfg, auth, sig, ds[j])
  {
    if ds != [] {
      var rest := ds[1..];
      assert ds == [ds[0]] + rest;
      FirstMatchSpec(ecrecover, cfg, auth, sig, rest);
      if SignedUnder(ecrecover, cfg, auth, sig, ds[0]) {
        assert ds[0] == FirstMatch(ecrecover, cfg, auth, sig, ds).value;
      } else if FirstMatch(ecrecover, cfg, auth, sig, rest).Some? {
        var d := FirstMatch(ecrecover, cfg, auth, sig, rest).value;
        var i :| 0 <= i < |rest| && rest[i] == d && SignedUnder(ecrecover, cfg, auth, sig, d)
                 && forall j | 0 <= j < i :: !SignedUnder(ecrecover, cfg, auth, sig, rest[j]);
        assert ds[i + 1] == d;
        forall j | 0 <= j < i + 1 ensures !SignedUnder(ecrecover, cfg, auth, sig, ds[j]) {
          if j > 0 {
            assert ds[j] == rest[j - 1];
          }
        }
      }
    }
  }

  /** An authorization that may be charged: alive, for this recipient, between the price and twice the price. */
  predicate Chargeable(cfg: Config, a: Authorization, now: int) {
    && Lower(a.from) != ZERO_ADDRESS
    && now < a.validBefore && a.validAfter <= now + 5
    && Lower(a.to) == Lower(cfg.recipient)
    && cfg.price <= a.value <= 2 * cfg.price
  }

  /**
    A payment is accepted if and only if it is an exact-scheme payment for this network with a chargeable authorization,
    signed by its payer under USDC or else under the gateway wallet, and unknown under that domain.
   */
  lemma AcceptedExactlyWhen(ecrecover: Recovery, cfg: Config, nonces: Rows, p: Payment, now: int)
    ensures Validated(ecrecover, cfg, nonces, p, now).Ok? <==>
            && p.scheme == Some(SCHEME) && p.network == Some(cfg.network)
            && p.payload.Some? && p.payload.value.signature.Some? && p.payload.value.authorization.Fields?
            && var a, sig := p.payload.value.authorization.auth, p.payload.value.signature.value;
            var usdc := Domain(cfg.usdc, cfg.usdcName, cfg.usdcVersion);
            && Chargeable(cfg, a, now)
            && ((SignedUnder(ecrecover, cfg, a, sig, usdc)
                 && Key(cfg.chainId, Lower(cfg.usdc), Lower(a.from), Lower(a.nonce)) !in nonces)
                || (!SignedUnder(ecrecover, cfg, a, sig, usdc) && cfg.gateway.Some?
                    && SignedUnder(ecrecover, cfg, a, sig, Domain(cfg.gateway.value, cfg.gatewayName, cfg.gatewayVersion))
                    && Key(cfg.chainId, Lower(cfg.gateway.value), Lower(a.from), Lower(a.nonce)) !in nonces))
  {
    if Screened(cfg, p, now).Ok? {
      var (a, sig) := Screened(cfg, p, now).value;
      LowerIdempotent(a.from);
      LowerIdempotent(a.nonce);
      TwoCandidates(ecrecover, cfg, a, sig);
    }
  }

  /** A payment that passed the checks before the signature passes them again until it expires. */
  lemma StillScreened(cfg: Config, p: Payment, wall: int, later: int)
    requires Screened(cfg, p, wall).Ok? && wall <= later < Screened(cfg, p, wall).value.0.validBefore
    ensures Screened(cfg, p, later) == Screened(cfg, p, wall)
  {
  }

  /** The search over the one or two candidates, spelled out. */
  lemma TwoCandidates(ecrecover: Recovery, cfg: Config, auth: Authorization, sig: Signature)
    ensures var usdc := Domain(cfg.usdc, cfg.usdcName, cfg.usdcVersion);
            FirstMatch(ecrecover, cfg, auth, sig, Candidates(cfg)) ==
            if SignedUnder(ecrecover, cfg, auth, sig, usdc) then Some(usdc)
            else if cfg.gateway.None? then None
            else
              var gateway := Domain(cfg.gateway.value, cfg.gatewayName, cfg.gatewayVersion);
              if SignedUnder(ecrecover, cfg, auth, sig, gateway) then Some(gateway) else None
  {
    var ds := Candidates(cfg);
    if cfg.gateway.Some? {
      var gateway := Domain(cfg.gateway.value, cfg.gatewayName, cfg.gatewayVersion);
      assert ds[1..] == [gateway] && [gateway][1..] == [];
      assert FirstMatch(ecrecover, cfg, auth, sig, [gateway])
             == if SignedUnder(ecrecover, cfg, auth, sig, gateway) then Some(gateway) else None;
    } else {
      assert ds[1..] == [];
    }
  }

  /** Low-s: of a signature and its twin (r, N - s), recovery admits at most one. */
  lemma OnlyOneTwin(ecrecover: Recovery, typed: TypedData, r: nat, s: nat, v: nat, w: nat)
    requires 0 < s < SECP256K1_N
    ensures RecoverSigner(ecrecover, typed, Rsv(r, s, v)).None?
            || RecoverSigner(ecrecover, typed, Rsv(r, SECP256K1_N - s, w)).None?
  {
    assert SECP256K1_N % 2 == 1;
  }

  lemma LowerIdempotent(s: string)
    ensures Lower(Lower(s)) == Lower(s)
  {
  }

  lemma LowerAppend(a: string, b: string)
    ensures Lower(a + b) == Lower(a) + Lower(b)
  {
  }

  /**
    Two wire spellings of one signed nonce get the same store key exactly when both carry the 0x prefix or neither
    does.
   */
  lemma SpellingDecidesTheKey(a: string, b: string)
    requires SignedNonce(a) == SignedNonce(b)
    ensures Lower(a) == Lower(b) <==> (Prefixed(a) <==> Prefixed(b))
  {
    LowerAppend("0x", a);
    LowerAppend("0x", b);
    if !Prefixed(a) && !Prefixed(b) {
      assert ("0x" + a)[2..] == a && ("0x" + b)[2..] == b;
      assert Lower(a) == SignedNonce(a)[2..] && Lower(b) == SignedNonce(b)[2..];
    } else if Prefixed(a) != Prefixed(b) {
      assert |Lower(a)| != |Lower(b)|;
    }
  }
}
