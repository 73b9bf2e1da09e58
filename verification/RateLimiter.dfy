/** The per-key token bucket: lazily refilled, never above its capacity. */
module RateLimiting {
  import opened Prelude

  datatype Bucket = Bucket(tokens: real, lastRefill: real)

  datatype Limits = Limits(capacity: int, refill: real)

  datatype LimiterError = TokensNotPositive

  predicate ValidLimits(l: Limits) {
    l.capacity > 0 && l.refill > 0.0
  }

  predicate ValidBucket(l: Limits, b: Bucket) {
    0.0 <= b.tokens <= l.capacity as real
  }

  predicate ValidSlot(l: Limits, slot: Option<Bucket>, now: real) {
    slot.Some? ==> ValidBucket(l, slot.value) && slot.value.lastRefill <= now
  }

  function Min(a: real, b: real): real {
    if a <= b then a else b
  }

  function Refilled(l: Limits, b: Bucket, now: real): Bucket {
    var elapsed := if now > b.lastRefill then now - b.lastRefill else 0.0;
    Bucket(Min(l.capacity as real, b.tokens + elapsed * l.refill), now)
  }

  /** The bucket of a key brought up to date; a key never seen starts full. */
  function Opened(l: Limits, slot: Option<Bucket>, now: real): Bucket {
    match slot
    case None => Bucket(l.capacity as real, now)
    case Some(b) => Refilled(l, b, now)
  }

  predicate Grants(l: Limits, slot: Option<Bucket>, tokens: int, now: real) {
    Opened(l, slot, now).tokens >= tokens as real
  }

  function Consumed(l: Limits, slot: Option<Bucket>, tokens: int, now: real): Bucket {
    var b := Opened(l, slot, now);
    if Grants(l, slot, tokens, now) then b.(tokens := b.tokens - tokens as real) else b
  }

  /** Seconds to wait; None is infinity. */
  function RetryAfter(l: Limits, slot: Option<Bucket>, tokens: int, now: real): Option<real>
    requires ValidLimits(l)
  {
    match slot
    case None => if tokens <= l.capacity then Some(0.0) else None
    case Some(b) =>
      var projected := Refilled(l, b, now).tokens;
      if projected >= tokens as real then Some(0.0) else Some((tokens as real - projected) / l.refill)
  }

  function SlotOf(buckets: map<string, Bucket>, key: string): Option<Bucket> {
    if key in buckets then Some(buckets[key]) else None
  }

  class RateLimiter {
    const limits: Limits
    var buckets: map<string, Bucket>

    constructor (limits: Limits)
      requires ValidLimits(limits)
      ensures this.limits == limits && buckets == map[]
    {
      this.limits, buckets := limits, map[];
    }

    /** Takes the tokens if they are there; only this key's bucket is touched. */
    method TryConsume(key: string, tokens: int, now: real) returns (r: Result<bool, LimiterError>)
      modifies this`buckets
      ensures tokens <= 0 ==> r == Err(TokensNotPositive) && buckets == old(buckets)
      ensures tokens > 0 ==> r == Ok(Grants(limits, SlotOf(old(buckets), key), tokens, now))
      ensures tokens > 0 ==> buckets == old(buckets)[key := Consumed(limits, SlotOf(old(buckets), key), tokens, now)]
    {
      if tokens <= 0 {
        return Err(TokensNotPositive);
      }
      var b: Bucket;
      if key !in buckets {
        b := Bucket(limits.capacity as real, now);
      } else {
        b := Refilled(limits, buckets[key], now);
      }
      buckets := buckets[key := b];
      if b.tokens >= tokens as real {
        buckets := buckets[key := b.(tokens := b.tokens - tokens as real)];
        return Ok(true);
      }
      return Ok(false);
    }

    method RetryAfterOf(key: string, tokens: int, now: real) returns (r: Result<Option<real>, LimiterError>)
      requires ValidLimits(limits)
      ensures r == if tokens <= 0 then Err(TokensNotPositive)
                   else Ok(RetryAfter(limits, SlotOf(buckets, key), tokens, now))
    {
      if tokens <= 0 {
        return Err(TokensNotPositive);
      }
      if key !in buckets {
        return Ok(if tokens <= limits.capacity then Some(0.0) else None);
      }
      var projected := Refilled(limits, buckets[key], now).tokens;
      if projected >= tokens as real {
        return Ok(Some(0.0));
      }
      return Ok(Some((tokens as real - projected) / limits.refill));
    }
  }

  // ---- Lazy refill is continuous refill ----

  lemma Distribute(r: real, a: real, b: real)
    ensures (a + b) * r == a * r + b * r
  {
  }

  lemma ProductNonNegative(a: real, b: real)
    requires a >= 0.0 && b >= 0.0
    ensures a * b >= 0.0
  {
  }

  lemma OpenedIsValid(l: Limits, slot: Option<Bucket>, tokens: int, now: real)
    requires ValidLimits(l) && ValidSlot(l, slot, now) && tokens > 0
    ensures ValidBucket(l, Opened(l, slot, now))
    ensures ValidSlot(l, Some(Consumed(l, slot, tokens, now)), now)
  {
    if slot.Some? {
      ProductNonNegative(now - slot.value.lastRefill, l.refill);
    }
  }

  lemma RefillTwice(l: Limits, b: Bucket, t1: real, t2: real)
    requires ValidLimits(l) && ValidBucket(l, b) && b.lastRefill <= t1 <= t2
    ensures Refilled(l, Refilled(l, b, t1), t2) == Refilled(l, b, t2)
  {
    var d1, d2 := t1 - b.lastRefill, t2 - t1;
    Distribute(l.refill, d1, d2);
    ProductNonNegative(d1, l.refill);
    ProductNonNegative(d2, l.refill);
    assert d1 + d2 == t2 - b.lastRefill;
  }

  /** A refused call leaves no trace: at every later time the bucket is what it would have been without it. */
  lemma RefusedCallIsInvisible(l: Limits, slot: Option<Bucket>, tokens: int, t1: real, t2: real)
    requires ValidLimits(l) && ValidSlot(l, slot, t1) && t1 <= t2 && !Grants(l, slot, tokens, t1)
    ensures Opened(l, Some(Consumed(l, slot, tokens, t1)), t2) == Opened(l, slot, t2)
  {
    match slot
    case None => ProductNonNegative(t2 - t1, l.refill);
    case Some(b) => RefillTwice(l, b, t1, t2);
  }

  /** A clock that goes back refills nothing but sets the stamp back, so that the time up to it is refilled again. */
  lemma ClockGoesBack(l: Limits, b: Bucket, back: real, later: real)
    requires ValidLimits(l) && ValidBucket(l, b) && back <= b.lastRefill <= later
    ensures var after := Refilled(l, b, back);
            && after == Bucket(b.tokens, back)
            && Refilled(l, after, later).tokens == Min(l.capacity as real, b.tokens + (later - back) * l.refill)
  {
    RefilledTokens(l, b, b.lastRefill, 0.0);
    RefilledTokens(l, Bucket(b.tokens, back), later, (later - back) * l.refill);
  }

  // ---- Runs of one key ----

  datatype Call = Call(at: real, tokens: int)

  ghost predicate ValidCalls(calls: seq<Call>) {
    && (forall i | 0 <= i < |calls| :: calls[i].tokens > 0)
    && forall i, j | 0 <= i < j < |calls| :: calls[i].at <= calls[j].at
  }

  /** The key's slot just before call n. */
  function SlotBefore(l: Limits, start: Option<Bucket>, calls: seq<Call>, n: nat): Option<Bucket>
    requires n <= |calls|
  {
    if n == 0 then start
    else Some(Consumed(l, SlotBefore(l, start, calls, n - 1), calls[n - 1].tokens, calls[n - 1].at))
  }

  predicate Granted(l: Limits, start: Option<Bucket>, calls: seq<Call>, n: nat)
    requires n < |calls|
  {
    Grants(l, SlotBefore(l, start, calls, n), calls[n].tokens, calls[n].at)
  }

  /** The balance call n finds. */
  function Found(l: Limits, start: Option<Bucket>, calls: seq<Call>, n: nat): real
    requires n < |calls|
  {
    Opened(l, SlotBefore(l, start, calls, n), calls[n].at).tokens
  }

  /** What call n takes. */
  function Taken(l: Limits, start: Option<Bucket>, calls: seq<Call>, n: nat): int
    requires n < |calls|
  {
    if Granted(l, start, calls, n) then calls[n].tokens else 0
  }

  /** Which calls of a run are granted. */
  function Decisions(l: Limits, start: Option<Bucket>, calls: seq<Call>): (granted: seq<bool>)
    ensures |granted| == |calls|
    ensures forall n | 0 <= n < |calls| :: granted[n] == Granted(l, start, calls, n)
  {
    seq(|calls|, n requires 0 <= n < |calls| => Granted(l, start, calls, n))
  }

  /** Tokens granted by calls i to j - 1. */
  function GrantedSum(calls: seq<Call>, granted: seq<bool>, i: nat, j: nat): real
    requires i <= j <= |calls| == |granted|
  {
    if i == j then 0.0 else GrantedSum(calls, granted, i, j - 1) + TakenBy(calls, granted, j - 1)
  }

  function TakenBy(calls: seq<Call>, granted: seq<bool>, n: nat): real
    requires n < |calls| == |granted|
  {
    if granted[n] then calls[n].tokens as real else 0.0
  }

  lemma {:induction false} SlotsValid(l: Limits, start: Option<Bucket>, calls: seq<Call>, n: nat)
    requires ValidLimits(l) && ValidCalls(calls) && n < |calls| && ValidSlot(l, start, calls[0].at)
    ensures ValidSlot(l, SlotBefore(l, start, calls, n), calls[n].at)
    ensures 0.0 <= Found(l, start, calls, n) <= l.capacity as real
  {
    if n > 0 {
      SlotsValid(l, start, calls, n - 1);
      OpenedIsValid(l, SlotBefore(l, start, calls, n - 1), calls[n - 1].tokens, calls[n - 1].at);
    }
    OpenedIsValid(l, SlotBefore(l, start, calls, n), calls[n].tokens, calls[n].at);
  }

  lemma RefilledTokens(l: Limits, b: Bucket, now: real, gain: real)
    requires b.lastRefill <= now && gain == (now - b.lastRefill) * l.refill
    ensures Refilled(l, b, now).tokens == Min(l.capacity as real, b.tokens + gain)
  {
    if now == b.lastRefill {
      var waited := now - b.lastRefill;
      assert waited == 0.0;
      assert gain == waited * l.refill == 0.0 * l.refill == 0.0;
    }
  }

  /** From one call to the next the balance loses what was taken, gains the refill and is capped. */
  lemma FoundNext(l: Limits, start: Option<Bucket>, calls: seq<Call>, n: nat, gain: real)
    requires n + 1 < |calls| && calls[n].at <= calls[n + 1].at
    requires gain == (calls[n + 1].at - calls[n].at) * l.refill
    ensures Found(l, start, calls, n + 1) ==
            Min(l.capacity as real, Found(l, start, calls, n) - Taken(l, start, calls, n) as real + gain)
  {
    var b := Consumed(l, SlotBefore(l, start, calls, n), calls[n].tokens, calls[n].at);
    RefilledTokens(l, b, calls[n + 1].at, gain);
  }

  // A walk that is capped from above: found[k + 1] = min(cap, found[k] - taken[k] + gain[k]).

  datatype Walk = Walk(cap: real, found: seq<real>, taken: seq<real>, gain: seq<real>)

  ghost predicate ValidWalk(w: Walk) {
    && |w.found| == |w.taken| == |w.gain|
    && (forall k | 0 <= k < |w.found| :: w.found[k] <= w.cap)
    && forall k | 0 <= k < |w.found| - 1 :: w.found[k + 1] == Min(w.cap, w.found[k] - w.taken[k] + w.gain[k])
  }

  function SumOf(s: seq<real>, i: nat, j: nat): real
    requires i <= j <= |s|
  {
    if i == j then 0.0 else SumOf(s, i, j - 1) + s[j - 1]
  }

  /** What the window from step i to step j still allows. */
  function Headroom(w: Walk, i: nat, j: nat): real
    requires i <= j < |w.taken| == |w.gain|
  {
    w.cap + SumOf(w.gain, i, j) - SumOf(w.taken, i, j)
  }

  /** The walk never exceeds what any window ending now still allows. */
  lemma {:induction false} WalkWithinHeadroom(w: Walk, i: nat, j: nat)
    requires ValidWalk(w) && i <= j < |w.found|
    ensures w.found[j] <= Headroom(w, i, j)
    decreases j
  {
    if i < j {
      WalkWithinHeadroom(w, i, j - 1);
      assert w.found[j - 1 + 1] == Min(w.cap, w.found[j - 1] - w.taken[j - 1] + w.gain[j - 1]);
    }
  }

  /** If it starts at the cap, some window ending now is exactly what limits it. */
  lemma {:induction false} WalkIsSomeHeadroom(w: Walk, j: nat) returns (i: nat)
    requires ValidWalk(w) && j < |w.found| && w.found[0] == w.cap
    ensures i <= j && w.found[j] == Headroom(w, i, j)
  {
    i := j;
    if j > 0 {
      var k := WalkIsSomeHeadroom(w, j - 1);
      assert w.found[j - 1 + 1] == Min(w.cap, w.found[j - 1] - w.taken[j - 1] + w.gain[j - 1]);
      if w.found[j] != w.cap {
        i := k;
      }
    }
  }

  function GainAt(l: Limits, calls: seq<Call>, n: nat): real
    requires n < |calls|
  {
    if n + 1 < |calls| then (calls[n + 1].at - calls[n].at) * l.refill else 0.0
  }

  /** The balances that successive calls find, as such a walk. */
  ghost function WalkOf(l: Limits, start: Option<Bucket>, calls: seq<Call>): (w: Walk)
    ensures |w.found| == |w.taken| == |w.gain| == |calls|
    ensures forall n | 0 <= n < |calls| :: w.found[n] == Found(l, start, calls, n)
    ensures forall n | 0 <= n < |calls| :: w.taken[n] == Taken(l, start, calls, n) as real
    ensures forall n | 0 <= n < |calls| :: w.gain[n] == GainAt(l, calls, n)
  {
    Walk(l.capacity as real,
         seq(|calls|, n requires 0 <= n < |calls| => Found(l, start, calls, n)),
         seq(|calls|, n requires 0 <= n < |calls| => Taken(l, start, calls, n) as real),
         seq(|calls|, n requires 0 <= n < |calls| => GainAt(l, calls, n)))
  }

  lemma WalkOfIsValid(l: Limits, start: Option<Bucket>, calls: seq<Call>)
    requires ValidLimits(l) && ValidCalls(calls) && (calls != [] ==> ValidSlot(l, start, calls[0].at))
    ensures ValidWalk(WalkOf(l, start, calls))
  {
    var w := WalkOf(l, start, calls);
    forall n | 0 <= n < |calls| ensures w.found[n] <= w.cap {
      SlotsValid(l, start, calls, n);
    }
    forall n | 0 <= n < |calls| - 1
      ensures w.found[n + 1] == Min(w.cap, w.found[n] - w.taken[n] + w.gain[n])
    {
      FoundNext(l, start, calls, n, GainAt(l, calls, n));
    }
  }

  lemma {:induction false} GainsAddUp(l: Limits, calls: seq<Call>, gain: seq<real>, i: nat, j: nat)
    requires i <= j < |calls| == |gain|
    requires forall n | 0 <= n < |calls| :: gain[n] == GainAt(l, calls, n)
    ensures SumOf(gain, i, j) == (calls[j].at - calls[i].at) * l.refill
  {
    if i < j {
      GainsAddUp(l, calls, gain, i, j - 1);
      Distribute(l.refill, calls[j].at - calls[j - 1].at, calls[j - 1].at - calls[i].at);
    }
  }

  lemma {:induction false} TakenAddsUp(calls: seq<Call>, granted: seq<bool>, taken: seq<real>, i: nat, j: nat)
    requires i <= j <= |calls| == |granted| == |taken|
    requires forall n | 0 <= n < |calls| :: taken[n] == TakenBy(calls, granted, n)
    ensures SumOf(taken, i, j) == GrantedSum(calls, granted, i, j)
  {
    if i < j {
      TakenAddsUp(calls, granted, taken, i, j - 1);
    }
  }

  /** What a window of dt seconds may be granted: the capacity plus the refill. */
  function Allowance(l: Limits, dt: real): real {
    l.capacity as real + dt * l.refill
  }

  /** Granting `more` tokens on top of `granted` in a window of dt seconds stays within capacity plus refill. */
  predicate Fits(l: Limits, granted: real, more: real, dt: real) {
    granted + more <= Allowance(l, dt)
  }

  /** What call j would have to respect in the window from call i, given the decisions before it. */
  ghost predicate FitsWindow(l: Limits, calls: seq<Call>, granted: seq<bool>, i: nat, j: nat, more: real)
    requires i <= j < |calls| == |granted|
  {
    Fits(l, GrantedSum(calls, granted, i, j), more, calls[j].at - calls[i].at)
  }

  lemma FitsHeadroom(l: Limits, calls: seq<Call>, granted: seq<bool>, w: Walk, i: nat, j: nat, more: real)
    requires i <= j < |calls| == |granted| == |w.gain| == |w.taken| && w.cap == l.capacity as real
    requires forall n | 0 <= n < |calls| :: w.gain[n] == GainAt(l, calls, n)
    requires forall n | 0 <= n < |calls| :: w.taken[n] == TakenBy(calls, granted, n)
    ensures FitsWindow(l, calls, granted, i, j, more) <==> more <= Headroom(w, i, j)
  {
    GainsAddUp(l, calls, w.gain, i, j);
    TakenAddsUp(calls, granted, w.taken, i, j);
  }

  lemma GrantedIsWithinFound(l: Limits, start: Option<Bucket>, calls: seq<Call>, n: nat, found: real)
    requires ValidLimits(l) && ValidCalls(calls) && n < |calls| && ValidSlot(l, start, calls[0].at)
    requires found == Found(l, start, calls, n)
    ensures Granted(l, start, calls, n) <==> calls[n].tokens as real <= found
    ensures 0.0 <= found
  {
    SlotsValid(l, start, calls, n);
  }

  lemma TakenByDecision(l: Limits, start: Option<Bucket>, calls: seq<Call>, granted: seq<bool>, w: Walk)
    requires granted == Decisions(l, start, calls) && w == WalkOf(l, start, calls)
    ensures forall n | 0 <= n < |calls| :: w.taken[n] == TakenBy(calls, granted, n)
  {
  }

  lemma BoundInWindow(l: Limits, start: Option<Bucket>, calls: seq<Call>, i: nat, j: nat)
    requires ValidLimits(l) && ValidCalls(calls) && i <= j < |calls| && ValidSlot(l, start, calls[0].at)
    ensures var granted := Decisions(l, start, calls);
            FitsWindow(l, calls, granted, i, j, TakenBy(calls, granted, j))
  {
    var granted, w := Decisions(l, start, calls), WalkOf(l, start, calls);
    TakenByDecision(l, start, calls, granted, w);
    WalkOfIsValid(l, start, calls);
    WalkWithinHeadroom(w, i, j);
    FitsHeadroom(l, calls, granted, w, i, j, TakenBy(calls, granted, j));
    GrantedIsWithinFound(l, start, calls, j, w.found[j]);
  }

  lemma WindowIsBound(l: Limits, calls: seq<Call>, granted: seq<bool>, i: nat, j: nat)
    requires i <= j < |calls| == |granted|
    requires FitsWindow(l, calls, granted, i, j, TakenBy(calls, granted, j))
    ensures GrantedSum(calls, granted, i, j + 1)
            <= Allowance(l, calls[j].at - calls[i].at)
  {
  }

  /** Rate bound: calls i to j together are granted at most capacity plus the refill of the time between them. */
  lemma RateBound(l: Limits, start: Option<Bucket>, calls: seq<Call>, i: nat, j: nat)
    requires ValidLimits(l) && ValidCalls(calls) && i <= j < |calls| && ValidSlot(l, start, calls[0].at)
    ensures GrantedSum(calls, Decisions(l, start, calls), i, j + 1)
            <= Allowance(l, calls[j].at - calls[i].at)
  {
    BoundInWindow(l, start, calls, i, j);
    WindowIsBound(l, calls, Decisions(l, start, calls), i, j);
  }

  /**
    The limiter refuses no call it could have granted: on a key that starts fresh, a call goes through exactly when
    every window that it would close stays within capacity plus refill.
   */
  lemma GrantedExactlyWithinAllWindows(l: Limits, calls: seq<Call>, j: nat)
    requires ValidLimits(l) && ValidCalls(calls) && j < |calls|
    ensures var granted := Decisions(l, None, calls);
            var more := calls[j].tokens as real;
            granted[j] <==> forall i | 0 <= i <= j :: FitsWindow(l, calls, granted, i, j, more)
  {
    var granted, w, more := Decisions(l, None, calls), WalkOf(l, None, calls), calls[j].tokens as real;
    TakenByDecision(l, None, calls, granted, w);
    WalkOfIsValid(l, None, calls);
    GrantedIsWithinFound(l, None, calls, j, w.found[j]);
    forall i | 0 <= i <= j
      ensures FitsWindow(l, calls, granted, i, j, more) <==> more <= Headroom(w, i, j)
      ensures w.found[j] <= Headroom(w, i, j)
    {
      FitsHeadroom(l, calls, granted, w, i, j, more);
      WalkWithinHeadroom(w, i, j);
    }
    var k := WalkIsSomeHeadroom(w, j);
  }

  // ---- Retry-After ----

  lemma QuotientBound(d: real, deficit: real, refill: real)
    requires refill > 0.0
    ensures d >= deficit / refill <==> d * refill >= deficit
  {
    var q := deficit / refill;
    assert q * refill == deficit;
    if d >= q {
      ProductNonNegative(d - q, refill);
      Distribute(refill, d - q, q);
    } else {
      assert (q - d) * refill > 0.0;
      Distribute(refill, q - d, d);
    }
  }

  lemma OpenedLater(l: Limits, slot: Option<Bucket>, now: real, d: real, gain: real)
    requires ValidLimits(l) && ValidSlot(l, slot, now) && d >= 0.0 && gain == d * l.refill
    ensures Opened(l, slot, now + d).tokens == Min(l.capacity as real, Opened(l, slot, now).tokens + gain)
  {
    ProductNonNegative(d, l.refill);
    if slot.Some? {
      RefillTwice(l, slot.value, now, now + d);
      RefilledTokens(l, Refilled(l, slot.value, now), now + d, gain);
    }
  }

  /** Taking the tokens d seconds from now, with no other call on the key, succeeds and is announced alike. */
  ghost predicate WaitIsRight(l: Limits, slot: Option<Bucket>, tokens: int, now: real, d: real)
    requires ValidLimits(l)
  {
    Grants(l, slot, tokens, now + d)
    <==> RetryAfter(l, slot, tokens, now).Some? && d >= RetryAfter(l, slot, tokens, now).value
  }

  lemma WaitWithinCapacity(l: Limits, slot: Option<Bucket>, tokens: int, now: real, d: real)
    requires ValidLimits(l) && ValidSlot(l, slot, now) && 0 < tokens <= l.capacity && d >= 0.0
    ensures WaitIsRight(l, slot, tokens, now, d)
  {
    var gain := d * l.refill;
    OpenedLater(l, slot, now, d, gain);
    ProductNonNegative(d, l.refill);
    var balance := Opened(l, slot, now).tokens;
    QuotientBound(d, tokens as real - balance, l.refill);
  }

  /**
    The wait is exact for every later time if and only if the request fits the capacity or the key was never seen.
    A request above the capacity can never succeed; a key that has a bucket is still told a finite wait.
   */
  lemma RetryAfterExact(l: Limits, slot: Option<Bucket>, tokens: int, now: real)
    requires ValidLimits(l) && ValidSlot(l, slot, now) && tokens > 0
    ensures (forall d: real | d >= 0.0 :: WaitIsRight(l, slot, tokens, now, d))
            <==> tokens <= l.capacity || slot.None?
  {
    if tokens <= l.capacity {
      forall d: real | d >= 0.0 ensures WaitIsRight(l, slot, tokens, now, d) {
        WaitWithinCapacity(l, slot, tokens, now, d);
      }
    } else if slot.None? {
      assert forall d: real | d >= 0.0 :: WaitIsRight(l, slot, tokens, now, d);
    } else {
      var deficit := tokens as real - Refilled(l, slot.value, now).tokens;
      OpenedIsValid(l, slot, tokens, now);
      QuotientBound(0.0, deficit, l.refill);
      var r := deficit / l.refill;
      OpenedLater(l, slot, now, r, r * l.refill);
      assert !WaitIsRight(l, slot, tokens, now, r);
    }
  }

  /** The Retry-After header: the wait rounded up to whole seconds, and at least one (section 7.1.3 of RFC 7231). */
  function HeaderSeconds(wait: real): int {
    var whole := wait.Floor + (if wait.Floor as real == wait then 0 else 1);
    if whole > 1 then whole else 1
  }

  /** The header is the least positive whole number of seconds after which the call succeeds. */
  lemma HeaderIsLeastWait(l: Limits, slot: Option<Bucket>, tokens: int, now: real, d: int)
    requires ValidLimits(l) && ValidSlot(l, slot, now) && 0 < tokens <= l.capacity && d >= 1
    ensures Grants(l, slot, tokens, now + d as real) <==> d >= HeaderSeconds(RetryAfter(l, slot, tokens, now).value)
  {
    WaitWithinCapacity(l, slot, tokens, now, d as real);
  }
}
