/** The limiter seen through the server: what a refused client can count on, and what one signer can get in a run. */
module DarkPoolRates {
  import opened Prelude
  import opened MemoryStore
  import opened RateLimiting
  import opened Payments
  import opened DarkPools
  import opened DarkPoolRuns

  /** The same request sent again at another time. */
  function Resent(e: Event, clock: Clock): Event
    requires e.Query? || e.Add?
  {
    match e
    case Query(body, header, _) => Query(body, header, clock)
    case Add(body, header, _) => Add(body, header, clock)
  }

  /**
    A request answered 429 does not cost its authorization: sent again unchanged after the seconds in the header of the
    response, with the authorization still valid and nothing in between, it is answered 200, or 409 if it adds an id
    that exists. What is required of the response is what the handlers ensure of it.
   */
  lemma RetryAfterIsHonoured(site: Site, pool: Pool, e: Event, resp: Response, again: Clock)
    requires Good(site, pool) && (e.Query? || e.Add?) && Answered(site, pool, e).status == 429
    requires e.clock.mono <= e.clock.retryMono && e.clock.wall <= again.wall
    requires var s := Presented(site, e.header, e.clock.wall);
             && s.Some? && again.wall < s.value.typed.validBefore
             && ValidSlot(site.limits, SlotOf(pool.buckets, s.value.typed.from), e.clock.mono)
    requires var gate := Gated(site.ecrecover, site.cfg, site.limits, pool, e.header, e.clock);
             && gate.Limited?
             && Announces(resp, site.limits, Answered(site, pool, e).pool.buckets, gate.signer, e.clock.retryMono)
    requires again.mono >= e.clock.retryMono + resp.header as real
    ensures var after := Answered(site, pool, e).pool;
            Answered(site, after, Resent(e, again)).status in if e.Query? then {200} else {200, 409}
  {
    NonceConsumedExactlyOn200(site, pool, e);
    var signer := Presented(site, e.header, e.clock.wall).value.typed.from;
    var after := Answered(site, pool, e).pool;
    var slot := SlotOf(after.buckets, signer);
    OpenedIsValid(site.limits, SlotOf(pool.buckets, signer), 1, e.clock.mono);
    var d := again.mono - e.clock.retryMono;
    WaitWithinCapacity(site.limits, slot, 1, e.clock.retryMono, d);
    assert Grants(site.limits, slot, 1, again.mono) by {
      assert e.clock.retryMono + d == again.mono;
    }
    StillScreened(site.cfg, e.header.payment, e.clock.wall, again.wall);
    AcceptedIsPresented(site, pool.nonces, e.header.payment, e.clock.wall);
    assert Checked(site.ecrecover, site.cfg, after.nonces, e.header, again.wall)
           == Checked(site.ecrecover, site.cfg, pool.nonces, e.header, e.clock.wall);
  }

  // ---- One signer's share of a run ----

  /** The call a request makes on the bucket of `signer`, if it gets that far. */
  function CallOf(site: Site, pool: Pool, e: Event, signer: string): seq<Call>
    requires |Centre(pool.memory)| == pool.memory.dim
  {
    if (e.Query? || e.Add?) && Answered(site, pool, e).status in {200, 409, 429}
       && Presented(site, e.header, e.clock.wall).Some?
       && Presented(site, e.header, e.clock.wall).value.typed.from == signer
    then [Call(e.clock.mono, 1)] else []
  }

  ghost function CallsOf(site: Site, w: World, events: seq<Event>, signer: string): seq<Call>
    requires Guarded(site, w) && Timely(w.wall, events)
    decreases |events|
  {
    if events == [] then []
    else
      StepKeepsGuarded(site, w, events[0]);
      CallOf(site, w.pool, events[0], signer) + CallsOf(site, Step(site, w, events[0]), events[1..], signer)
  }

  function ServedTo(log: seq<Served>, signer: string): nat {
    if log == [] then 0
    else ServedTo(log[..|log| - 1], signer) + (if log[|log| - 1].typed.from == signer then 1 else 0)
  }

  /** The limiter's clock does not go back. */
  ghost predicate MonoTimely(mono: real, events: seq<Event>)
    decreases |events|
  {
    events == []
    || (var e := events[0];
        if e.Query? || e.Add? then mono <= e.clock.mono && MonoTimely(e.clock.mono, events[1..])
        else MonoTimely(mono, events[1..]))
  }

  /** Single-token calls in order of time, none before mono. */
  ghost predicate InOrder(calls: seq<Call>, mono: real) {
    && ValidCalls(calls)
    && forall i | 0 <= i < |calls| :: calls[i].at >= mono && calls[i].tokens == 1
  }

  lemma InOrderCons(at: real, rest: seq<Call>, mono: real)
    requires InOrder(rest, at) && mono <= at
    ensures InOrder([Call(at, 1)] + rest, mono)
  {
  }

  lemma {:induction false} CallsAreTimely(site: Site, w: World, events: seq<Event>, signer: string, mono: real)
    requires Guarded(site, w) && Timely(w.wall, events) && MonoTimely(mono, events)
    ensures InOrder(CallsOf(site, w, events, signer), mono)
    decreases |events|
  {
    if events != [] {
      var e := events[0];
      StepKeepsGuarded(site, w, e);
      var w' := Step(site, w, e);
      var rest, call := CallsOf(site, w', events[1..], signer), CallOf(site, w.pool, e, signer);
      var next := if e.Query? || e.Add? then e.clock.mono else mono;
      CallsAreTimely(site, w', events[1..], signer, next);
      if call == [] {
        assert call + rest == rest;
      } else {
        InOrderCons(e.clock.mono, rest, mono);
      }
    }
  }

  lemma {:induction false} SlotBeforeCons(l: Limits, start: Option<Bucket>, c: Call, rest: seq<Call>, n: nat)
    requires n <= |rest|
    ensures SlotBefore(l, start, [c] + rest, n + 1)
            == SlotBefore(l, Some(Consumed(l, start, c.tokens, c.at)), rest, n)
  {
    var all := [c] + rest;
    if n == 0 {
      assert SlotBefore(l, start, all, 0) == start && all[0] == c;
    } else {
      SlotBeforeCons(l, start, c, rest, n - 1);
      assert all[n] == rest[n - 1];
    }
  }

  lemma DecisionsCons(l: Limits, start: Option<Bucket>, c: Call, rest: seq<Call>)
    ensures Decisions(l, start, [c] + rest) ==
            [Grants(l, start, c.tokens, c.at)] + Decisions(l, Some(Consumed(l, start, c.tokens, c.at)), rest)
  {
    var next := Some(Consumed(l, start, c.tokens, c.at));
    var all, head, tail := Decisions(l, start, [c] + rest), Grants(l, start, c.tokens, c.at), Decisions(l, next, rest);
    forall n | 0 <= n < |all| ensures all[n] == ([head] + tail)[n] {
      if n > 0 {
        SlotBeforeCons(l, start, c, rest, n - 1);
        assert ([c] + rest)[n] == rest[n - 1];
      }
    }
  }

  lemma {:induction false} GrantedSumCons(c: Call, rest: seq<Call>, g: bool, granted: seq<bool>, n: nat)
    requires n <= |rest| == |granted|
    ensures GrantedSum([c] + rest, [g] + granted, 0, n + 1)
            == (if g then c.tokens as real else 0.0) + GrantedSum(rest, granted, 0, n)
  {
    var calls, gs := [c] + rest, [g] + granted;
    if n == 0 {
      assert GrantedSum(calls, gs, 0, 0) == 0.0;
    } else {
      GrantedSumCons(c, rest, g, granted, n - 1);
      assert TakenBy(calls, gs, n) == TakenBy(rest, granted, n - 1);
    }
  }

  /** One step: how the signer's bucket, log and calls move together. */
  lemma StepForSigner(site: Site, w: World, e: Event, signer: string)
    requires Guarded(site, w)
    ensures var w', slot := Step(site, w, e), SlotOf(w.pool.buckets, signer);
            var call := CallOf(site, w.pool, e, signer);
            && (call == [] ==> SlotOf(w'.pool.buckets, signer) == slot
                               && ServedTo(w'.log, signer) == ServedTo(w.log, signer))
            && (call != [] ==>
                  && call == [Call(call[0].at, 1)]
                  && SlotOf(w'.pool.buckets, signer) == Some(Consumed(site.limits, slot, 1, call[0].at))
                  && ServedTo(w'.log, signer) <= ServedTo(w.log, signer)
                                                + (if Grants(site.limits, slot, 1, call[0].at) then 1 else 0))
  {
    if e.Query? || e.Add? {
      NonceConsumedExactlyOn200(site, w.pool, e);
      var w' := Step(site, w, e);
      if w'.log != w.log {
        assert w'.log[..|w'.log| - 1] == w.log;
      }
    }
  }

  lemma {:induction false} ServedWithinGranted(site: Site, w: World, events: seq<Event>, signer: string)
    requires Guarded(site, w) && Timely(w.wall, events)
    ensures var calls := CallsOf(site, w, events, signer);
            var granted := Decisions(site.limits, SlotOf(w.pool.buckets, signer), calls);
            (ServedTo(Run(site, w, events).log, signer) - ServedTo(w.log, signer)) as real
            <= GrantedSum(calls, granted, 0, |calls|)
    decreases |events|
  {
    if events != [] {
      var e := events[0];
      StepKeepsGuarded(site, w, e);
      var w' := Step(site, w, e);
      var rest, call := CallsOf(site, w', events[1..], signer), CallOf(site, w.pool, e, signer);
      var slot := SlotOf(w.pool.buckets, signer);
      ServedWithinGranted(site, w', events[1..], signer);
      StepForSigner(site, w, e, signer);
      if call == [] {
        assert call + rest == rest;
      } else {
        var granted := Decisions(site.limits, SlotOf(w'.pool.buckets, signer), rest);
        DecisionsCons(site.limits, slot, call[0], rest);
        GrantedSumCons(call[0], rest, Grants(site.limits, slot, 1, call[0].at), granted, |rest|);
        assert call == [call[0]];
      }
    }
  }

  /** What the limiter can have granted over these calls: capacity plus the refill from the first to the last. */
  function Share(l: Limits, calls: seq<Call>): real {
    if calls == [] then 0.0 else Allowance(l, calls[|calls| - 1].at - calls[0].at)
  }

  lemma CallsWithinShare(l: Limits, slot: Option<Bucket>, calls: seq<Call>, mono: real)
    requires ValidLimits(l) && InOrder(calls, mono) && ValidSlot(l, slot, mono)
    ensures GrantedSum(calls, Decisions(l, slot, calls), 0, |calls|) <= Share(l, calls)
  {
    if calls != [] {
      var last := |calls| - 1;
      assert ValidSlot(l, slot, calls[0].at);
      RateBound(l, slot, calls, 0, last);
      assert last + 1 == |calls|;
      assert Share(l, calls) == Allowance(l, calls[last].at - calls[0].at);
    }
  }

  lemma GrantedWithinShare(site: Site, w: World, events: seq<Event>, signer: string, mono: real)
    requires Guarded(site, w) && Timely(w.wall, events) && MonoTimely(mono, events)
    requires ValidSlot(site.limits, SlotOf(w.pool.buckets, signer), mono)
    ensures var calls := CallsOf(site, w, events, signer);
            GrantedSum(calls, Decisions(site.limits, SlotOf(w.pool.buckets, signer), calls), 0, |calls|)
            <= Share(site.limits, calls)
  {
    CallsAreTimely(site, w, events, signer, mono);
    CallsWithinShare(site.limits, SlotOf(w.pool.buckets, signer), CallsOf(site, w, events, signer), mono);
  }

  /** In any run one signer is answered 200 at most capacity plus refill times, from its first to its last call. */
  lemma SignerRate(site: Site, w: World, events: seq<Event>, signer: string, mono: real)
    requires Guarded(site, w) && Timely(w.wall, events) && MonoTimely(mono, events)
    requires ValidSlot(site.limits, SlotOf(w.pool.buckets, signer), mono)
    ensures (ServedTo(Run(site, w, events).log, signer) - ServedTo(w.log, signer)) as real
            <= Share(site.limits, CallsOf(site, w, events, signer))
  {
    GrantedWithinShare(site, w, events, signer, mono);
    ServedWithinGranted(site, w, events, signer);
  }
}
