/**
  The batching client: a queue of paid authorizations with at most one flush in flight. The awaits of the original
  are step boundaries here: a flush starts in one step and its settlement is delivered in a later one.
 */
module BatchClient {
  import opened Prelude

  const GATEWAY_DOMAIN := "GatewayWalletBatched"

  datatype Auth = Auth(nonce: string, value: int, domainName: string)

  datatype QueueEntry = QueueEntry(auth: Auth, url: string, enqueuedAt: int)

  datatype Mode = Immediate | Manual | Auto

  datatype Reason = BySize | ByAge | ByHand | Shutdown

  datatype Settlement = Settlement(items: seq<Auth>, totalValue: int, reason: Reason, broadcast: bool)

  datatype SettleError = NotGatewaySigned | NotWired

  /** A flush: the batch it drained and what the settler makes of it. */
  datatype Flight = Flight(items: seq<Auth>, outcome: Result<Settlement, SettleError>)

  datatype Settings = Settings(canBroadcast: bool, mode: Mode, maxBatchSize: int, maxBatchAge: int)

  /** `enqueued` and `finished` are histories: every authorization ever queued, every flush ever delivered. */
  datatype Client = Client(
    queue: seq<QueueEntry>, inFlight: Option<Flight>, closed: bool, timer: bool,
    enqueued: seq<Auth>, finished: seq<Flight>)

  datatype Step =
    | Paid(auth: Auth, url: string, mode: Mode, now: int)
    | FlushCall(reason: Reason)
    | TimerTick(now: int)
    | Delivered
    | CloseCall

  function Total(items: seq<Auth>): int {
    if items == [] then 0 else Total(items[..|items| - 1]) + items[|items| - 1].value
  }

  function Auths(queue: seq<QueueEntry>): (items: seq<Auth>)
    ensures |items| == |queue|
  {
    seq(|queue|, i requires 0 <= i < |queue| => queue[i].auth)
  }

  /** An empty batch always settles; without a gateway key so does every batch; with one, none does yet. */
  function Settled(canBroadcast: bool, items: seq<Auth>, reason: Reason): Result<Settlement, SettleError> {
    if items == [] then Ok(Settlement([], 0, reason, false))
    else if !canBroadcast then Ok(Settlement(items, Total(items), reason, false))
    else if exists a | a in items :: a.domainName != GATEWAY_DOMAIN then Err(NotGatewaySigned)
    else Err(NotWired)
  }

  function StartFlush(s: Settings, c: Client, reason: Reason): Client {
    if c.inFlight.Some? then c
    else c.(queue := [], inFlight := Some(Flight(Auths(c.queue), Settled(s.canBroadcast, Auths(c.queue), reason))))
  }

  function Next(s: Settings, c: Client, step: Step): Client {
    match step
    case Paid(auth, url, mode, now) =>
      if mode == Immediate then c
      else
        var queued := c.(queue := c.queue + [QueueEntry(auth, url, now)], enqueued := c.enqueued + [auth]);
        if mode == Auto && |queued.queue| >= s.maxBatchSize then StartFlush(s, queued, BySize) else queued
    case FlushCall(reason) => StartFlush(s, c, reason)
    case TimerTick(now) =>
      if c.timer && c.queue != [] && now - c.queue[0].enqueuedAt >= s.maxBatchAge then StartFlush(s, c, ByAge) else c
    case Delivered =>
      if c.inFlight.None? then c else c.(inFlight := None, finished := c.finished + [c.inFlight.value])
    case CloseCall =>
      if c.closed then c else StartFlush(s, c.(closed := true, timer := false), Shutdown)
  }

  // ---- The client object ----

  class X402BatchClient {
    const settings: Settings
    var queue: seq<QueueEntry>
    var flushInFlight: Option<Flight>
    var closed: bool
    var ageTimer: bool
    ghost var enqueued: seq<Auth>
    ghost var finished: seq<Flight>

    ghost function View(): Client
      reads this
    {
      Client(queue, flushInFlight, closed, ageTimer, enqueued, finished)
    }

    constructor (settings: Settings)
      ensures this.settings == settings
      ensures View() == Client([], None, false, settings.mode == Auto, [], [])
    {
      this.settings := settings;
      queue, flushInFlight, closed, ageTimer := [], None, false, settings.mode == Auto;
      enqueued, finished := [], [];
    }

    method TotalValueOf(items: seq<Auth>) returns (sum: int)
      ensures sum == Total(items)
    {
      sum := 0;
      var i := 0;
      while i < |items|
        invariant 0 <= i <= |items| && sum == Total(items[..i])
      {
        assert items[..i + 1][..i] == items[..i];
        sum := sum + items[i].value;
        i := i + 1;
      }
      assert items[..i] == items;
    }

    method Settle(items: seq<Auth>, reason: Reason) returns (r: Result<Settlement, SettleError>)
      ensures r == Settled(settings.canBroadcast, items, reason)
    {
      var total := TotalValueOf(items);
      if |items| == 0 {
        return Ok(Settlement([], 0, reason, false));
      }
      if !settings.canBroadcast {
        return Ok(Settlement(items, total, reason, false));
      }
      if exists a | a in items :: a.domainName != GATEWAY_DOMAIN {
        return Err(NotGatewaySigned);
      }
      return Err(NotWired);
    }

    /** Joins the flush in flight, or drains the queue into a new one. */
    method Flush(reason: Reason) returns (flight: Flight)
      modifies this
      ensures View() == StartFlush(settings, old(View()), reason)
      ensures flushInFlight == Some(flight)
    {
      if flushInFlight.Some? {
        return flushInFlight.value;
      }
      var items := Auths(queue);
      queue := [];
      var outcome := Settle(items, reason);
      flight := Flight(items, outcome);
      flushInFlight := Some(flight);
    }

    /** The last step of `pay`, once the server has answered 200. */
    method AfterPayment(auth: Auth, url: string, mode: Mode, now: int) returns (direct: Option<Result<Settlement, SettleError>>)
      modifies this
      ensures View() == Next(settings, old(View()), Paid(auth, url, mode, now))
      ensures direct == if mode == Immediate then Some(Settled(settings.canBroadcast, [auth], ByHand)) else None
    {
      direct := None;
      if mode == Immediate {
        var settled := Settle([auth], ByHand);
        direct := Some(settled);
      } else {
        queue, enqueued := queue + [QueueEntry(auth, url, now)], enqueued + [auth];
        if mode == Auto && |queue| >= settings.maxBatchSize {
          var flight := Flush(BySize);
        }
      }
    }

    method MaybeFlushByAge(now: int)
      modifies this
      ensures View() == Next(settings, old(View()), TimerTick(now))
    {
      if !ageTimer || |queue| == 0 {
        return;
      }
      if now - queue[0].enqueuedAt >= settings.maxBatchAge {
        var flight := Flush(ByAge);
      }
    }

    method Deliver()
      modifies this
      ensures View() == Next(settings, old(View()), Delivered)
    {
      if flushInFlight.Some? {
        finished := finished + [flushInFlight.value];
        flushInFlight := None;
      }
    }

    method Close() returns (r: Result<Settlement, SettleError>)
      modifies this
      ensures View() == Next(settings, old(View()), CloseCall)
      ensures old(closed) ==> r == Ok(Settlement([], 0, Shutdown, false))
      ensures !old(closed) ==> flushInFlight.Some? && r == flushInFlight.value.outcome
    {
      if closed {
        return Ok(Settlement([], 0, Shutdown, false));
      }
      closed := true;
      if ageTimer {
        ageTimer := false;
      }
      var flight := Flush(Shutdown);
      return flight.outcome;
    }
  }

  // ---- Conservation ----

  function Flown(flights: seq<Flight>): seq<Auth> {
    if flights == [] then [] else Flown(flights[..|flights| - 1]) + flights[|flights| - 1].items
  }

  function InFlightItems(c: Client): seq<Auth> {
    if c.inFlight.Some? then c.inFlight.value.items else []
  }

  /** Delivered batches in order, then the batch in flight, then the queue: exactly what was enqueued, in order. */
  ghost predicate Conserved(c: Client) {
    c.enqueued == Flown(c.finished) + InFlightItems(c) + Auths(c.queue)
  }

  /** A flush settled exactly its own batch, or failed because a gateway key is configured. */
  ghost predicate HonestFlight(s: Settings, f: Flight) {
    && (f.outcome.Ok? ==> f.outcome.value.items == f.items && f.outcome.value.totalValue == Total(f.items))
    && (f.outcome.Ok? <==> !s.canBroadcast || f.items == [])
  }

  ghost predicate Inv(s: Settings, c: Client) {
    && Conserved(c)
    && (c.closed ==> !c.timer)
    && (forall f | f in c.finished :: HonestFlight(s, f))
    && (c.inFlight.Some? ==> HonestFlight(s, c.inFlight.value))
  }

  lemma StartFlushKeepsInv(s: Settings, c: Client, reason: Reason)
    requires Inv(s, c)
    ensures Inv(s, StartFlush(s, c, reason))
  {
    if c.inFlight.None? {
      var c' := StartFlush(s, c, reason);
      assert Flown(c.finished) + [] + Auths(c.queue) == Flown(c.finished) + Auths(c.queue) + [];
      assert Auths(c'.queue) == [];
      if Auths(c.queue) == [] {
        assert Total([]) == 0;
      }
    }
  }

  lemma EnqueueKeepsInv(s: Settings, c: Client, entry: QueueEntry)
    requires Inv(s, c)
    ensures Inv(s, c.(queue := c.queue + [entry], enqueued := c.enqueued + [entry.auth]))
  {
    assert Auths(c.queue + [entry]) == Auths(c.queue) + [entry.auth];
  }

  lemma DeliveredKeepsInv(s: Settings, c: Client)
    requires Inv(s, c)
    ensures Inv(s, Next(s, c, Delivered))
  {
    if c.inFlight.Some? {
      var f := c.inFlight.value;
      var after := c.finished + [f];
      assert after[..|after| - 1] == c.finished;
      assert Flown(after) == Flown(c.finished) + f.items;
      assert Flown(after) + [] + Auths(c.queue) == Flown(c.finished) + f.items + Auths(c.queue);
      forall g | g in after ensures HonestFlight(s, g) {
      }
    }
  }

  lemma PaidKeepsInv(s: Settings, c: Client, auth: Auth, url: string, mode: Mode, now: int)
    requires Inv(s, c)
    ensures Inv(s, Next(s, c, Paid(auth, url, mode, now)))
  {
    if mode != Immediate {
      var queued := c.(queue := c.queue + [QueueEntry(auth, url, now)], enqueued := c.enqueued + [auth]);
      EnqueueKeepsInv(s, c, QueueEntry(auth, url, now));
      StartFlushKeepsInv(s, queued, BySize);
    }
  }

  lemma CloseKeepsInv(s: Settings, c: Client)
    requires Inv(s, c)
    ensures Inv(s, Next(s, c, CloseCall))
  {
    StartFlushKeepsInv(s, c.(closed := true, timer := false), Shutdown);
  }

  lemma NextKeepsInv(s: Settings, c: Client, step: Step)
    requires Inv(s, c)
    ensures Inv(s, Next(s, c, step))
  {
    match step {
      case Paid(auth, url, mode, now) => PaidKeepsInv(s, c, auth, url, mode, now);
      case FlushCall(reason) => StartFlushKeepsInv(s, c, reason);
      case TimerTick(_) => StartFlushKeepsInv(s, c, ByAge);
      case Delivered => DeliveredKeepsInv(s, c);
      case CloseCall => CloseKeepsInv(s, c);
    }
  }

  function RunClient(s: Settings, c: Client, steps: seq<Step>): Client
    decreases |steps|
  {
    if steps == [] then c else RunClient(s, Next(s, c, steps[0]), steps[1..])
  }

  lemma {:induction false} RunKeepsInv(s: Settings, c: Client, steps: seq<Step>)
    requires Inv(s, c)
    ensures Inv(s, RunClient(s, c, steps))
    decreases |steps|
  {
    if steps != [] {
      NextKeepsInv(s, c, steps[0]);
      RunKeepsInv(s, Next(s, c, steps[0]), steps[1..]);
    }
  }

  function NewClient(s: Settings): Client {
    Client([], None, false, s.mode == Auto, [], [])
  }

  /** Values of the delivered flushes that settled, and of those that failed and were dropped. */
  function SettledValue(flights: seq<Flight>): int {
    if flights == [] then 0
    else
      var last := flights[|flights| - 1];
      SettledValue(flights[..|flights| - 1]) + (if last.outcome.Ok? then last.outcome.value.totalValue else 0)
  }

  function DroppedValue(flights: seq<Flight>): int {
    if flights == [] then 0
    else
      var last := flights[|flights| - 1];
      DroppedValue(flights[..|flights| - 1]) + (if last.outcome.Ok? then 0 else Total(last.items))
  }

  lemma {:induction false} TotalAppend(a: seq<Auth>, b: seq<Auth>)
    ensures Total(a + b) == Total(a) + Total(b)
  {
    if b == [] {
      assert a + b == a;
    } else {
      TotalAppend(a, b[..|b| - 1]);
      assert (a + b)[..|a + b| - 1] == a + b[..|b| - 1];
    }
  }

  /** What makes it the sum of the values. */
  lemma TotalOfFew(a: Auth)
    ensures Total([]) == 0 && Total([a]) == a.value
  {
    assert [a][..0] == [];
  }

  lemma {:induction false} FlownValue(s: Settings, flights: seq<Flight>)
    requires forall f | f in flights :: HonestFlight(s, f)
    ensures Total(Flown(flights)) == SettledValue(flights) + DroppedValue(flights)
    ensures !s.canBroadcast ==> DroppedValue(flights) == 0
    ensures s.canBroadcast ==> SettledValue(flights) == 0
  {
    if flights != [] {
      var front, last := flights[..|flights| - 1], flights[|flights| - 1];
      assert last in flights;
      FlownValue(s, front);
      TotalAppend(Flown(front), last.items);
      if s.canBroadcast && last.outcome.Ok? {
        assert last.items == [] && Total([]) == 0;
      }
    }
  }

  /**
    Over every interleaving of payments, flushes, timer ticks, deliveries and close: nothing queued is lost, repeated or
    reordered, and its value is settled, dropped, in flight or pending. Without a gateway key nothing is dropped; with
    one, nothing that was queued is settled.
   */
  lemma NothingIsLost(s: Settings, steps: seq<Step>)
    ensures var c := RunClient(s, NewClient(s), steps);
            && Conserved(c)
            && Total(c.enqueued) == SettledValue(c.finished) + DroppedValue(c.finished)
                                    + Total(InFlightItems(c)) + Total(Auths(c.queue))
            && (!s.canBroadcast ==> DroppedValue(c.finished) == 0)
            && (s.canBroadcast ==> SettledValue(c.finished) == 0)
  {
    assert Auths([]) == [];
    RunKeepsInv(s, NewClient(s), steps);
    var c := RunClient(s, NewClient(s), steps);
    FlownValue(s, c.finished);
    TotalAppend(Flown(c.finished), InFlightItems(c));
    TotalAppend(Flown(c.finished) + InFlightItems(c), Auths(c.queue));
  }

  // ---- What close leaves behind ----

  /** After close neither the timer nor a delivery nor a second close flushes again. */
  lemma {:induction false} LeftoverStays(s: Settings, c: Client, steps: seq<Step>)
    requires Inv(s, c) && c.closed
    requires forall step | step in steps :: step.TimerTick? || step.Delivered? || step.CloseCall?
    ensures RunClient(s, c, steps).queue == c.queue
    decreases |steps|
  {
    if steps != [] {
      assert steps[0] in steps;
      NextKeepsInv(s, c, steps[0]);
      LeftoverStays(s, Next(s, c, steps[0]), steps[1..]);
    }
  }

  /**
    Whatever deliveries, timer ticks and further closes follow it, close leaves an empty queue if and only if no flush
    was in flight when it was called, or the queue was empty anyway.
   */
  lemma CloseDrains(s: Settings, c: Client, steps: seq<Step>)
    requires Inv(s, c) && !c.closed
    requires forall step | step in steps :: step.TimerTick? || step.Delivered? || step.CloseCall?
    ensures RunClient(s, Next(s, c, CloseCall), steps).queue == [] <==> c.inFlight.None? || c.queue == []
  {
    NextKeepsInv(s, c, CloseCall);
    LeftoverStays(s, Next(s, c, CloseCall), steps);
  }

  // ---- When a flush starts, and with what ----

  /** A flush of everything queued has started; nothing else of the client has changed. */
  ghost predicate Drained(s: Settings, c: Client, after: Client, reason: Reason) {
    && after.queue == [] && after.inFlight.Some?
    && after.closed == c.closed && after.timer == c.timer
    && after.enqueued == c.enqueued && after.finished == c.finished
    && var f := after.inFlight.value;
       && |f.items| == |c.queue| && (forall i | 0 <= i < |c.queue| :: f.items[i] == c.queue[i].auth)
       && (f.outcome.Ok? <==> !s.canBroadcast || c.queue == [])
       && (f.outcome.Ok? ==> f.outcome.value.reason == reason && !f.outcome.value.broadcast)
       && (f.outcome == Err(NotGatewaySigned) ==> exists q | q in c.queue :: q.auth.domainName != "GatewayWalletBatched")
       && (f.outcome == Err(NotWired) ==> forall q | q in c.queue :: q.auth.domainName == "GatewayWalletBatched")
  }

  lemma StartFlushDrains(s: Settings, c: Client, reason: Reason)
    requires c.inFlight.None?
    ensures Drained(s, c, StartFlush(s, c, reason), reason)
  {
    var items := Auths(c.queue);
    if a :| a in items && a.domainName != GATEWAY_DOMAIN {
      var i :| 0 <= i < |items| && items[i] == a;
      assert c.queue[i] in c.queue;
    }
    forall q | q in c.queue ensures q.auth in items {
      var i :| 0 <= i < |c.queue| && c.queue[i] == q;
      assert items[i] == q.auth;
    }
  }

  /** A flush asked for by hand drains the queue, or joins the flush in flight. */
  lemma FlushDrainsOrJoins(s: Settings, c: Client, reason: Reason)
    ensures var after := Next(s, c, FlushCall(reason));
            if c.inFlight.None? then Drained(s, c, after, reason) else after == c
  {
    if c.inFlight.None? {
      StartFlushDrains(s, c, reason);
    }
  }

  /** A tick flushes exactly when the timer is on, nothing is in flight and the head has reached the age limit. */
  lemma TickFlushesByAge(s: Settings, c: Client, now: int)
    ensures var after := Next(s, c, TimerTick(now));
            if c.timer && c.inFlight.None? && c.queue != [] && c.queue[0].enqueuedAt + s.maxBatchAge <= now
            then Drained(s, c, after, ByAge) else after == c
  {
    if c.inFlight.None? {
      StartFlushDrains(s, c, ByAge);
    }
  }

  /** A payment is queued unless it is immediate, and flushes exactly when it fills an automatic queue. */
  lemma PaymentFlushesBySize(s: Settings, c: Client, auth: Auth, url: string, mode: Mode, now: int)
    ensures var after := Next(s, c, Paid(auth, url, mode, now));
            var queued := c.(queue := c.queue + [QueueEntry(auth, url, now)], enqueued := c.enqueued + [auth]);
            if mode == Auto && c.inFlight.None? && |c.queue| + 1 >= s.maxBatchSize then Drained(s, queued, after, BySize)
            else after == if mode == Immediate then c else queued
  {
    if c.inFlight.None? {
      StartFlushDrains(s, c.(queue := c.queue + [QueueEntry(auth, url, now)], enqueued := c.enqueued + [auth]), BySize);
    }
  }

  /** A first close stops the timer and flushes unless a flush is in flight; a second one does nothing. */
  lemma CloseFlushesOnce(s: Settings, c: Client)
    ensures var after, stopped := Next(s, c, CloseCall), c.(closed := true, timer := false);
            if c.closed then after == c
            else if c.inFlight.None? then Drained(s, stopped, after, Shutdown)
            else after == stopped
  {
    if c.inFlight.None? {
      StartFlushDrains(s, c.(closed := true, timer := false), Shutdown);
    }
  }

  lemma {:induction false} TimerUntilClosed(s: Settings, c: Client, steps: seq<Step>)
    requires c.timer == !c.closed
    ensures var after := RunClient(s, c, steps); after.timer == !after.closed
    decreases |steps|
  {
    if steps != [] {
      TimerUntilClosed(s, Next(s, c, steps[0]), steps[1..]);
    }
  }

  /** In auto mode, after any run and one more tick, the head is younger than the limit unless a flush is in flight. */
  lemma NothingGrowsOld(s: Settings, steps: seq<Step>, now: int)
    requires s.mode == Auto
    ensures var c := Next(s, RunClient(s, NewClient(s), steps), TimerTick(now));
            c.queue == [] || now < c.queue[0].enqueuedAt + s.maxBatchAge || c.inFlight.Some? || c.closed
  {
    TimerUntilClosed(s, NewClient(s), steps);
    TickFlushesByAge(s, RunClient(s, NewClient(s), steps), now);
  }

  /** In auto mode a full queue never waits: after a payment it is below the limit or a flush is in flight. */
  lemma FullQueueIsFlushed(s: Settings, c: Client, auth: Auth, url: string, now: int)
    requires s.maxBatchSize > 0
    ensures var c' := Next(s, c, Paid(auth, url, Auto, now));
            |c'.queue| < s.maxBatchSize || c'.inFlight.Some?
  {
  }
}
