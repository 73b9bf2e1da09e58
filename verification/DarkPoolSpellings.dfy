/**
  Spellings of one nonce can be signed alike and filed apart: with and without the 0x prefix always are. This says exactly
  when an authorization that was answered 200 is answered 200 again, for one request and over runs.
 */
module DarkPoolSpellings {
  import opened Prelude
  import opened MemoryStore
  import opened NonceStores
  import opened RateLimiting
  import opened Payments
  import opened DarkPools
  import opened DarkPoolRuns

  predicate HasFields(p: Payment) {
    p.payload.Some? && p.payload.value.authorization.Fields?
  }

  function NonceOf(p: Payment): string
    requires HasFields(p)
  {
    p.payload.value.authorization.auth.nonce
  }

  /** The same payment, signature included, with its nonce written differently. */
  function Respelled(p: Payment, nonce: string): Payment
    requires HasFields(p)
  {
    var auth := p.payload.value.authorization.auth;
    p.(payload := Some(p.payload.value.(authorization := Fields(auth.(nonce := nonce)))))
  }

  /** A request whose body passes the checks before the payment is looked at. */
  predicate WellFormed(st: Store, e: Event) {
    match e
    case Query(body, _, _) => body.Some? && |body.value.vec| == st.dim
    case Add(body, _, _) => body.Some? && |body.value.vec| == st.dim && body.value.kind in PAID_KINDS
    case _ => false
  }

  /** The id a request adds is not in the memory; a query adds none. */
  predicate NewIn(st: Store, e: Event)
    requires WellFormed(st, e)
  {
    e.Add? ==> !HasId(st.entries, e.add.value.traceId)
  }

  // ---- One authorization, asked for twice ----

  /**
    An authorization that was just answered 200 and comes again, at most its nonce spelled anew, is answered 200 again,
    on either route, if and only if the spelling differs, its key is not on file, a token is left and an add is new.
   */
  lemma ServedAgainExactlyWhen(site: Site, pool: Pool, e: Event, again: Event)
    requires Good(site, pool) && (e.Query? || e.Add?) && Answered(site, pool, e).status == 200
    requires WellFormed(Answered(site, pool, e).pool.memory, again)
    requires var s, t := Presented(site, e.header, e.clock.wall), Presented(site, again.header, again.clock.wall);
             s.Some? && t.Some? && SameButNonce(s.value.typed, t.value.typed)
    ensures var s, t := Presented(site, e.header, e.clock.wall).value, Presented(site, again.header, again.clock.wall).value;
            var after := Answered(site, pool, e).pool;
            Answered(site, after, again).status == 200 <==>
              && Lower(s.nonce) != Lower(t.nonce) && t.key !in pool.nonces
              && Grants(site.limits, SlotOf(after.buckets, s.typed.from), 1, again.clock.mono)
              && NewIn(after.memory, again)
  {
    NonceConsumedExactlyOn200(site, pool, e);
    MemoryAfter(site, pool, e);
    var s, t := Presented(site, e.header, e.clock.wall).value, Presented(site, again.header, again.clock.wall).value;
    PresentedIsSound(site, e.header, e.clock.wall);
    PresentedIsSound(site, again.header, again.clock.wall);
    ServedExactlyWhen(site, Answered(site, pool, e).pool, again);
  }

  /** A well-formed request that presents an authorization is answered 200 if it is fresh, paid for and new. */
  lemma ServedExactlyWhen(site: Site, pool: Pool, e: Event)
    requires Good(site, pool) && WellFormed(pool.memory, e) && Presented(site, e.header, e.clock.wall).Some?
    ensures var s := Presented(site, e.header, e.clock.wall).value;
            Answered(site, pool, e).status == 200 <==>
              && s.key !in pool.nonces && Grants(site.limits, SlotOf(pool.buckets, s.typed.from), 1, e.clock.mono)
              && NewIn(pool.memory, e)
  {
    var s := Presented(site, e.header, e.clock.wall).value;
    if s.key !in pool.nonces {
      AcceptedIsPresented(site, pool.nonces, e.header.payment, e.clock.wall);
    }
  }

  lemma PresentedIsSound(site: Site, header: Header, wall: int)
    requires Presented(site, header, wall).Some?
    ensures SoundReceipt(site, Presented(site, header, wall).value)
  {
    AcceptedIsPresented(site, map[], header.payment, wall);
  }

  /** A payment presents the same signed data under every spelling of its nonce, as long as it has not expired. */
  lemma SpellingsPresentAlike(site: Site, p: Payment, nonce: string, wall: int, later: int)
    requires HasFields(p) && SignedNonce(nonce) == SignedNonce(NonceOf(p))
    requires var s := Presented(site, Present(p), wall);
             s.Some? && wall <= later < s.value.typed.validBefore
    ensures var s, t := Presented(site, Present(p), wall).value, Presented(site, Present(Respelled(p, nonce)), later);
            t == Some(Served(s.typed, nonce, s.key.(nonce := Lower(nonce))))
  {
    StillScreened(site.cfg, p, wall, later);
    var a, q := Screened(site.cfg, p, wall).value.0, Respelled(p, nonce);
    var b, sig := q.payload.value.authorization.auth, Screened(site.cfg, p, wall).value.1;
    assert Screened(site.cfg, q, later) == Ok((b, sig));
    assert forall d :: BuildTypedData(site.cfg, b, d) == BuildTypedData(site.cfg, a, d);
    TwoCandidates(site.ecrecover, site.cfg, a, sig);
    TwoCandidates(site.ecrecover, site.cfg, b, sig);
    LowerIdempotent(nonce);
    PresentedIsSound(site, Present(p), wall);
    PresentedIsSound(site, Present(q), later);
  }

  /** The spellings of one signed nonce: with and without the prefix. */
  lemma BareAndPrefixed(h: string)
    requires !Prefixed(h)
    ensures Prefixed("0x" + h) && SignedNonce("0x" + h) == SignedNonce(h)
  {
  }

  /**
    A request `e` that presented s was answered 200 and left the pool `after`; `again` is a well-formed request on
    either route with the same payment, its nonce spelled anew and not yet expired.
   */
  ghost predicate SentAgain(site: Site, pool: Pool, e: Event, s: Served, after: Pool, nonce: string, again: Event) {
    && Good(site, pool) && (e.Query? || e.Add?) && Answered(site, pool, e) == Outcome(200, after)
    && WellFormed(after.memory, again)
    && e.header.Present? && HasFields(e.header.payment) && SignedNonce(nonce) == SignedNonce(NonceOf(e.header.payment))
    && again.header == Present(Respelled(e.header.payment, nonce))
    && Presented(site, e.header, e.clock.wall) == Some(s) && e.clock.wall <= again.clock.wall < s.typed.validBefore
  }

  /** What is presented the second time: the same signed data under another key. */
  function SpelledAs(s: Served, nonce: string): Served {
    Served(s.typed, nonce, s.key.(nonce := Lower(nonce)))
  }

  /** What decides the second answer: prefix toggled, other key free, a token left, and nothing added twice. */
  ghost predicate SecondIsServed(site: Site, pool: Pool, s: Served, after: Pool, nonce: string, again: Event)
    requires WellFormed(after.memory, again)
  {
    && Prefixed(nonce) != Prefixed(s.nonce) && SpelledAs(s, nonce).key !in pool.nonces
    && Grants(site.limits, SlotOf(after.buckets, s.typed.from), 1, again.clock.mono)
    && NewIn(after.memory, again)
  }

  /**
    So a payment answered 200 under "0x" + h and sent again with h alone, or the other way round, presents the same
    signed data and is answered 200 once more exactly when the other key is free, a token is left and an add is new.
   */
  lemma RespelledIsServedExactlyWhen(site: Site, pool: Pool, e: Event, s: Served, after: Pool, nonce: string, again: Event)
    requires SentAgain(site, pool, e, s, after, nonce, again)
    ensures Good(site, after)
    ensures Presented(site, again.header, again.clock.wall) == Some(SpelledAs(s, nonce))
    ensures Answered(site, after, again).status == 200 <==> SecondIsServed(site, pool, s, after, nonce, again)
  {
    MemoryAfter(site, pool, e);
    SpellingsPresentAlike(site, e.header.payment, nonce, e.clock.wall, again.clock.wall);
    SpellingDecidesTheKey(s.nonce, nonce);
    ServedAgainExactlyWhen(site, pool, e, again);
  }

  // ---- Over runs ----

  /** Some bytes are signed of the text of a nonce; `word` says which. */
  ghost predicate SignedAlike(word: string -> Bytes, s: Served, t: Served) {
    SameButNonce(s.typed, t.typed) && word(s.typed.nonce) == word(t.typed.nonce)
  }

  /** Equal bytes mean the same text, up to letter case and a missing prefix. */
  ghost predicate ToldApart(word: string -> Bytes, log: seq<Served>) {
    forall s, t | s in log && t in log && word(s.typed.nonce) == word(t.typed.nonce) :: s.typed.nonce == t.typed.nonce
  }

  predicate HexDigit(c: char) {
    '0' <= c <= '9' || 'a' <= c <= 'f'
  }

  /** 32 bytes in full lower-case hex with a prefix. */
  predicate FullHex(s: string) {
    |s| == 66 && Prefixed(s) && forall i | 2 <= i < 66 :: HexDigit(s[i])
  }

  /** Full hex is read digit by digit, so different full hex is different bytes. */
  ghost predicate ExactOnFullHex(word: string -> Bytes) {
    forall a, b | FullHex(a) && FullHex(b) && word(a) == word(b) :: a == b
  }

  /** Whatever bytes spellings stand for, nothing signed is answered 200 twice under one lower-cased spelling. */
  lemma OncePerSpelling(site: Site, w: World, events: seq<Event>, word: string -> Bytes, i: nat, j: nat)
    requires Starts(site, w) && Timely(w.wall, events)
    requires i < j < |Run(site, w, events).log|
    ensures var log := Run(site, w, events).log;
            && (SignedAlike(word, log[i], log[j]) ==> Lower(log[i].nonce) != Lower(log[j].nonce))
            && (ToldApart(word, log) && SignedAlike(word, log[i], log[j]) ==>
                  Prefixed(log[i].nonce) != Prefixed(log[j].nonce))
  {
    OncePerAuthorization(site, w, events, i, j);
    RunKeepsGuarded(site, w, events);
    var log := Run(site, w, events).log;
    assert log[i] in log && log[j] in log && SoundReceipt(site, log[i]) && SoundReceipt(site, log[j]);
    if ToldApart(word, log) && SignedAlike(word, log[i], log[j]) {
      SpellingDecidesTheKey(log[i].nonce, log[j].nonce);
    }
  }

  /** When different texts stand for different bytes, nothing signed is ever answered 200 three times. */
  lemma AtMostTwice(site: Site, w: World, events: seq<Event>, word: string -> Bytes, i: nat, j: nat, k: nat)
    requires Starts(site, w) && Timely(w.wall, events)
    requires i < j < k < |Run(site, w, events).log| && ToldApart(word, Run(site, w, events).log)
    ensures var log := Run(site, w, events).log;
            !(SignedAlike(word, log[i], log[j]) && SignedAlike(word, log[j], log[k]))
  {
    OncePerSpelling(site, w, events, word, i, j);
    OncePerSpelling(site, w, events, word, j, k);
    OncePerSpelling(site, w, events, word, i, k);
  }

  /** Every nonce presented in a run satisfies p. */
  ghost predicate AllPresented(events: seq<Event>, p: string -> bool) {
    forall e | e in events && (e.Query? || e.Add?) && e.header.Present? && HasFields(e.header.payment) ::
      p(NonceOf(e.header.payment))
  }

  lemma {:induction false} LogIsPresented(site: Site, w: World, events: seq<Event>, p: string -> bool)
    requires Guarded(site, w) && Timely(w.wall, events) && AllPresented(events, p)
    requires forall s | s in w.log :: p(s.nonce)
    ensures forall s | s in Run(site, w, events).log :: p(s.nonce)
    decreases |events|
  {
    if events != [] {
      assert events[0] in events;
      StepKeepsGuarded(site, w, events[0]);
      StepIsPresented(site, w, events[0], p);
      LogIsPresented(site, Step(site, w, events[0]), events[1..], p);
    }
  }

  lemma StepIsPresented(site: Site, w: World, e: Event, p: string -> bool)
    requires Guarded(site, w) && AllPresented([e], p)
    requires forall s | s in w.log :: p(s.nonce)
    ensures forall s | s in Step(site, w, e).log :: p(s.nonce)
  {
    if (e.Query? || e.Add?) && Presented(site, e.header, e.clock.wall).Some? {
      assert e in [e];
      assert p(NonceOf(e.header.payment));
      LogAfter(site, w, e);
    } else {
      assert Step(site, w, e).log == w.log;
    }
  }

  function InFullHex(): string -> bool {
    n => FullHex(SignedNonce(n))
  }

  function Spelled(prefixed: bool): string -> bool {
    n => Prefixed(n) == prefixed
  }

  lemma FullHexLog(site: Site, log: seq<Served>, word: string -> Bytes)
    requires ExactOnFullHex(word)
    requires forall s | s in log :: SoundReceipt(site, s) && InFullHex()(s.nonce)
    ensures ToldApart(word, log)
  {
    assert forall s | s in log :: s.typed.nonce == SignedNonce(s.nonce) && FullHex(s.typed.nonce);
  }

  /** Nonces of 32 bytes in full hex, with or without prefix, are told apart. */
  lemma FullHexIsToldApart(site: Site, w: World, events: seq<Event>, word: string -> Bytes)
    requires Starts(site, w) && Timely(w.wall, events) && ExactOnFullHex(word) && AllPresented(events, InFullHex())
    ensures ToldApart(word, Run(site, w, events).log)
  {
    LogIsPresented(site, w, events, InFullHex());
    RunKeepsGuarded(site, w, events);
    FullHexLog(site, Run(site, w, events).log, word);
  }

  /** Replay safety in full when nonces are full hex spelled one way: nothing signed is answered 200 twice. */
  lemma OnceWhenSpelledAlike(site: Site, w: World, events: seq<Event>, word: string -> Bytes, prefixed: bool)
    requires Starts(site, w) && Timely(w.wall, events)
    requires AllPresented(events, InFullHex()) && AllPresented(events, Spelled(prefixed))
    ensures var log := Run(site, w, events).log;
            ExactOnFullHex(word) ==> forall i, j | 0 <= i < j < |log| :: !SignedAlike(word, log[i], log[j])
  {
    var log := Run(site, w, events).log;
    if ExactOnFullHex(word) {
      FullHexIsToldApart(site, w, events, word);
      forall i, j | 0 <= i < j < |log| ensures !SignedAlike(word, log[i], log[j]) {
        LogIsSpelled(site, w, events, prefixed, i);
        LogIsSpelled(site, w, events, prefixed, j);
        OncePerSpelling(site, w, events, word, i, j);
      }
    }
  }

  lemma LogIsSpelled(site: Site, w: World, events: seq<Event>, prefixed: bool, i: nat)
    requires Starts(site, w) && Timely(w.wall, events) && AllPresented(events, Spelled(prefixed))
    requires i < |Run(site, w, events).log|
    ensures Prefixed(Run(site, w, events).log[i].nonce) == prefixed
  {
    LogIsPresented(site, w, events, Spelled(prefixed));
    var s := Run(site, w, events).log[i];
    assert s in Run(site, w, events).log && Spelled(prefixed)(s.nonce);
  }

  /** Without that it can be: the run of the two requests serves both exactly when the condition holds. */
  lemma RunOfTwoSpellings(site: Site, w: World, e: Event, s: Served, after: Pool, nonce: string, again: Event)
    requires Starts(site, w) && SentAgain(site, w.pool, e, s, after, nonce, again) && w.wall <= e.clock.wall
    ensures Run(site, w, [e, again]).log
            == if SecondIsServed(site, w.pool, s, after, nonce, again) then [s, SpelledAs(s, nonce)] else [s]
  {
    RespelledIsServedExactlyWhen(site, w.pool, e, s, after, nonce, again);
    LogOfTwo(site, w, e, again, after, s, SpelledAs(s, nonce), SecondIsServed(site, w.pool, s, after, nonce, again));
  }

  lemma LogOfTwo(site: Site, w: World, e: Event, f: Event, after: Pool, s: Served, t: Served, second: bool)
    requires Starts(site, w) && (e.Query? || e.Add?) && (f.Query? || f.Add?) && w.wall <= e.clock.wall <= f.clock.wall
    requires Presented(site, e.header, e.clock.wall) == Some(s) && Presented(site, f.header, f.clock.wall) == Some(t)
    requires Answered(site, w.pool, e) == Outcome(200, after) && Good(site, after)
    requires second <==> Answered(site, after, f).status == 200
    ensures Run(site, w, [e, f]).log == if second then [s, t] else [s]
  {
    RunOfTwo(site, w, e, f);
    LogAfter(site, w, e);
    LogAfter(site, Step(site, w, e), f);
  }

  /**
    And such runs exist: on an empty nonce store, with no bucket yet and a capacity of two tokens, a query answered 200
    under "0x" + h and sent again at the same time under h is answered 200 both times.
   */
  lemma BothSpellingsAreServed(site: Site, w: World, body: Option<QueryBody>, p: Payment, h: string, clock: Clock, s: Served)
    requires Starts(site, w) && w.wall <= clock.wall && w.pool.nonces == map[] && w.pool.buckets == map[]
    requires site.limits.capacity >= 2
    requires HasFields(p) && NonceOf(p) == "0x" + h && !Prefixed(h)
    requires Answered(site, w.pool, Query(body, Present(p), clock)).status == 200
    requires Presented(site, Present(p), clock.wall) == Some(s)
    ensures Run(site, w, [Query(body, Present(p), clock), Query(body, Present(Respelled(p, h)), clock)]).log
            == [s, SpelledAs(s, h)]
  {
    var e, again := Query(body, Present(p), clock), Query(body, Present(Respelled(p, h)), clock);
    var after := Answered(site, w.pool, e).pool;
    AfterFirstQuery(site, w.pool, e, s, after);
    BareAndPrefixed(h);
    assert s.nonce == NonceOf(p) && Prefixed(s.nonce);
    assert SentAgain(site, w.pool, e, s, after, h, again);
    assert SpelledAs(s, h).key !in w.pool.nonces && NewIn(after.memory, again);
    SecondToken(site.limits, clock.mono);
    RunOfTwoSpellings(site, w, e, s, after, h, again);
  }

  lemma AfterFirstQuery(site: Site, pool: Pool, e: Event, s: Served, after: Pool)
    requires Good(site, pool) && pool.buckets == map[] && e.Query? && Answered(site, pool, e) == Outcome(200, after)
    requires Presented(site, e.header, e.clock.wall) == Some(s)
    ensures after.memory == pool.memory && e.clock.wall < s.typed.validBefore
    ensures SlotOf(after.buckets, s.typed.from) == Some(Consumed(site.limits, None, 1, e.clock.mono))
  {
    NonceConsumedExactlyOn200(site, pool, e);
    AcceptedIsPresented(site, pool.nonces, e.header.payment, e.clock.wall);
  }

  /** A bucket opened with room for two tokens grants two at once. */
  lemma SecondToken(l: Limits, now: real)
    requires ValidLimits(l) && l.capacity >= 2
    ensures Grants(l, Some(Consumed(l, None, 1, now)), 1, now)
  {
  }

  lemma RunOfTwo(site: Site, w: World, e: Event, f: Event)
    requires Guarded(site, w) && Timely(w.wall, [e, f])
    ensures Guarded(site, Step(site, w, e)) && Run(site, w, [e, f]) == Step(site, Step(site, w, e), f)
  {
    StepKeepsGuarded(site, w, e);
    StepKeepsGuarded(site, Step(site, w, e), f);
    assert [e, f][1..] == [f] && [f][1..] == [];
    assert Run(site, Step(site, w, e), [f]) == Step(site, Step(site, w, e), f);
  }

  /** A request grows the log by what it presents when it is answered 200. */
  lemma LogAfter(site: Site, w: World, e: Event)
    requires Guarded(site, w) && (e.Query? || e.Add?) && Presented(site, e.header, e.clock.wall).Some?
    ensures Step(site, w, e).log ==
            w.log + if Answered(site, w.pool, e).status == 200 then [Presented(site, e.header, e.clock.wall).value] else []
  {
  }
}
