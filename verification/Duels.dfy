/**
  One duel of the arena with live polling: a block cursor walks the chain and hands each chaos injection to a scored
  cycle. The chain is the list of this duel's ChaosInjected logs; a poll may fail, and a head may go back.
 */
module Duels {
  import opened Prelude

  datatype ChaosLog = ChaosLog(block: nat, injectionId: int, target: string)

  type Injections = map<string, ChaosLog>

  /** What the RPC does for one poll. */
  datatype Poll = Failed | Head(head: nat)

  datatype Plan = Plan(cycles: nat, interval: int, duration: int, fixed: Injections, chain: seq<ChaosLog>)

  /** One call of run_cycle. */
  datatype CycleCall = CycleCall(number: int, injections: Injections)

  /** One scanned window of blocks, both ends included, and what was found in it. */
  datatype Scan = Scan(lo: nat, hi: nat, found: Injections)

  /** Cursor, number of straggler cycles so far, and the calls and scans made. */
  datatype Progress = Progress(from: nat, extra: nat, calls: seq<CycleCall>, scans: seq<Scan>)

  // ---- Polling ----

  /** eth_getLogs over a range of blocks. */
  function LogsIn(chain: seq<ChaosLog>, lo: nat, hi: nat): seq<ChaosLog> {
    Filter(chain, (l: ChaosLog) => lo <= l.block <= hi)
  }

  /** A later injection on a target supersedes an earlier one. */
  function Latest(logs: seq<ChaosLog>): Injections {
    if logs == [] then map[]
    else Latest(logs[..|logs| - 1])[Lower(logs[|logs| - 1].target) := logs[|logs| - 1]]
  }

  /** A fresh cursor only takes the head; a head behind the cursor is ignored; otherwise the window is scanned. */
  function PollInjections(chain: seq<ChaosLog>, from: nat, head: nat): (Injections, nat) {
    if from == 0 then (map[], head)
    else if head < from then (map[], from)
    else (Latest(LogsIn(chain, from, head)), head + 1)
  }

  method PollOnce(chain: seq<ChaosLog>, from: nat, head: nat) returns (found: Injections, next: nat)
    ensures (found, next) == PollInjections(chain, from, head)
  {
    if from == 0 {
      return map[], head;
    }
    if head < from {
      return map[], from;
    }
    var logs := LogsIn(chain, from, head);
    found := map[];
    var i := 0;
    while i < |logs|
      invariant 0 <= i <= |logs| && found == Latest(logs[..i])
    {
      assert logs[..i + 1][..i] == logs[..i];
      found := found[Lower(logs[i].target) := logs[i]];
      i := i + 1;
    }
    assert logs[..i] == logs;
    next := head + 1;
  }

  // ---- The step loop ----

  function Polled(plan: Plan, from: nat, poll: Poll): (Injections, nat) {
    match poll
    case Failed => (plan.fixed, from)
    case Head(head) =>
      var (found, next) := PollInjections(plan.chain, from, head);
      (if found == map[] then plan.fixed else found, next)
  }

  function ScansAfter(plan: Plan, p: Progress, poll: Poll): seq<Scan> {
    match poll
    case Failed => p.scans
    case Head(head) =>
      if 0 < p.from <= head then p.scans + [Scan(p.from, head, Latest(LogsIn(plan.chain, p.from, head)))] else p.scans
  }

  /** Scheduled steps always score; later ones only when there is an injection. */
  function StepOnce(plan: Plan, p: Progress, step: nat, poll: Poll): Progress {
    var (injections, from) := Polled(plan, p.from, poll);
    var scans := ScansAfter(plan, p, poll);
    if step <= plan.cycles then Progress(from, p.extra, p.calls + [CycleCall(step, injections)], scans)
    else if injections != map[] then
      Progress(from, p.extra + 1, p.calls + [CycleCall(plan.cycles + p.extra + 1, injections)], scans)
    else Progress(from, p.extra, p.calls, scans)
  }

  function TotalSteps(plan: Plan): nat {
    if plan.interval > 0 then
      var ceiling := -(-plan.duration / plan.interval);
      if ceiling > plan.cycles then ceiling else plan.cycles
    else plan.cycles
  }

  function After(plan: Plan, polls: seq<Poll>, n: nat): Progress
    requires n <= |polls|
  {
    if n == 0 then Progress(0, 0, [], []) else StepOnce(plan, After(plan, polls, n - 1), n, polls[n - 1])
  }

  /** Best-effort poll: the fixed injections when it fails or finds nothing. */
  method PollStep(plan: Plan, from: nat, poll: Poll) returns (injections: Injections, next: nat)
    ensures (injections, next) == Polled(plan, from, poll)
  {
    if poll.Failed? {
      return plan.fixed, from;
    }
    injections, next := PollOnce(plan.chain, from, poll.head);
    if injections == map[] {
      injections := plan.fixed;
    }
  }

  /** What the loop holds in variables after n steps. */
  ghost predicate Reached(plan: Plan, polls: seq<Poll>, n: nat, from: nat, extra: nat, calls: seq<CycleCall>)
    requires n <= |polls|
  {
    (from, extra, calls) == (After(plan, polls, n).from, After(plan, polls, n).extra, After(plan, polls, n).calls)
  }

  /** The body of the loop: poll, then score the step if it is scheduled or something was injected. */
  method TakeStep(plan: Plan, polls: seq<Poll>, n: nat, from: nat, extra: nat, calls: seq<CycleCall>)
    returns (next: nat, stragglers: nat, call: Option<CycleCall>)
    requires n < |polls| && Reached(plan, polls, n, from, extra, calls)
    ensures Reached(plan, polls, n + 1, next, stragglers, if call.Some? then calls + [call.value] else calls)
  {
    var injections;
    injections, next := PollStep(plan, from, polls[n]);
    stragglers, call := extra, None;
    if n + 1 <= plan.cycles {
      call := Some(CycleCall(n + 1, injections));
    } else if injections != map[] {
      stragglers := extra + 1;
      call := Some(CycleCall(plan.cycles + stragglers, injections));
    }
  }

  /** The loop over the steps, one poll each. A cycle that raises ends it; `raises` says which call, if any, does. */
  method RunSteps(plan: Plan, polls: seq<Poll>, raises: nat -> bool)
    returns (from: nat, calls: seq<CycleCall>, steps: nat)
    ensures steps <= |polls|
    ensures from == After(plan, polls, steps).from && calls == After(plan, polls, steps).calls
    ensures forall i | 0 <= i < |calls| - 1 :: !raises(i)
    ensures steps == |polls| || (calls != [] && raises(|calls| - 1))
  {
    from, calls, steps := 0, [], 0;
    var extra: nat := 0;
    while steps < |polls|
      invariant steps <= |polls|
      invariant Reached(plan, polls, steps, from, extra, calls)
      invariant forall i | 0 <= i < |calls| :: !raises(i)
    {
      var call;
      from, extra, call := TakeStep(plan, polls, steps, from, extra, calls);
      steps := steps + 1;
      if call.Some? {
        calls := calls + [call.value];
        if raises(|calls| - 1) {
          break;
        }
      }
    }
  }

  /** The loop over the whole trading window of a plan. */
  method RunWindow(plan: Plan, polls: seq<Poll>, raises: nat -> bool) returns (calls: seq<CycleCall>, steps: nat)
    requires |polls| == TotalSteps(plan)
    ensures steps <= TotalSteps(plan) && calls == After(plan, polls, steps).calls
    ensures (forall i | 0 <= i < |calls| :: !raises(i)) ==> steps == TotalSteps(plan)
  {
    var from;
    from, calls, steps := RunSteps(plan, polls, raises);
  }

  /** The steps span the trading window: interval by interval they reach its end, and no fewer would. */
  lemma StepsCoverWindow(plan: Plan)
    requires plan.interval > 0
    ensures TotalSteps(plan) * plan.interval >= plan.duration
    ensures TotalSteps(plan) > plan.cycles ==> (TotalSteps(plan) - 1) * plan.interval < plan.duration
  {
    var ceiling := -(-plan.duration / plan.interval);
    var q, r := -plan.duration / plan.interval, -plan.duration % plan.interval;
    assert q * plan.interval + r == -plan.duration && 0 <= r < plan.interval;
    assert ceiling * plan.interval == plan.duration + r;
    if plan.cycles > ceiling {
      MultiplyMonotone(ceiling, plan.cycles, plan.interval);
    }
  }

  lemma MultiplyMonotone(a: int, b: int, c: int)
    requires a <= b && c > 0
    ensures a * c <= b * c
  {
    assert (b - a) * c >= 0;
  }

  // ---- Windows ----

  /** The first positive head among the first n polls; 0 if there is none. */
  function FirstHead(polls: seq<Poll>, n: nat): nat
    requires n <= |polls|
  {
    if n == 0 then 0
    else
      var before := FirstHead(polls, n - 1);
      if before > 0 then before else if polls[n - 1].Head? then polls[n - 1].head else 0
  }

  /** Scans that tile the blocks from `start` up to `end`, which is not included. */
  ghost predicate Tiles(scans: seq<Scan>, start: nat, end: nat) {
    && (forall i | 0 <= i < |scans| :: scans[i].lo <= scans[i].hi)
    && (forall i | 0 <= i < |scans| - 1 :: scans[i + 1].lo == scans[i].hi + 1)
    && (if scans == [] then start == end else scans[0].lo == start && scans[|scans| - 1].hi + 1 == end)
  }

  ghost predicate Filled(plan: Plan, scans: seq<Scan>) {
    forall i | 0 <= i < |scans| :: scans[i].found == Latest(LogsIn(plan.chain, scans[i].lo, scans[i].hi))
  }

  lemma ScanKeepsTiles(scans: seq<Scan>, scan: Scan, start: nat)
    requires Tiles(scans, start, scan.lo) && scan.lo <= scan.hi
    ensures Tiles(scans + [scan], start, scan.hi + 1)
  {
  }

  lemma PollKeepsTiles(plan: Plan, p: Progress, poll: Poll, start: nat)
    requires Tiles(p.scans, start, p.from) && Filled(plan, p.scans) && (start == 0 ==> p.scans == [])
    ensures var scans, from := ScansAfter(plan, p, poll), Polled(plan, p.from, poll).1;
            var start' := if start > 0 then start else if poll.Head? then poll.head else 0;
            Tiles(scans, start', from) && Filled(plan, scans) && (start' == 0 ==> scans == [])
  {
    if poll.Head? && 0 < p.from <= poll.head {
      ScanKeepsTiles(p.scans, Scan(p.from, poll.head, Latest(LogsIn(plan.chain, p.from, poll.head))), start);
    }
  }

  lemma StepScans(plan: Plan, p: Progress, step: nat, poll: Poll)
    ensures StepOnce(plan, p, step, poll).scans == ScansAfter(plan, p, poll)
    ensures StepOnce(plan, p, step, poll).from == Polled(plan, p.from, poll).1
  {
  }

  /**
    Successive windows are disjoint and contiguous from the first positive head, whatever polls fail and however the
    head moves; and each window carries the latest injection per target of its blocks.
   */
  lemma {:induction false} WindowsTile(plan: Plan, polls: seq<Poll>, n: nat)
    requires n <= |polls|
    ensures var p := After(plan, polls, n);
            && Tiles(p.scans, FirstHead(polls, n), p.from)
            && (FirstHead(polls, n) == 0 ==> p.scans == [])
            && Filled(plan, p.scans)
  {
    if n > 0 {
      WindowsTile(plan, polls, n - 1);
      var p, poll := After(plan, polls, n - 1), polls[n - 1];
      PollKeepsTiles(plan, p, poll, FirstHead(polls, n - 1));
      StepScans(plan, p, n, poll);
    }
  }

  /** Every block between the first head and the cursor lies in exactly one window. */
  lemma {:induction false} BlockInOneWindow(scans: seq<Scan>, start: nat, end: nat, block: nat)
    requires Tiles(scans, start, end) && start <= block < end
    ensures exists i | 0 <= i < |scans| :: scans[i].lo <= block <= scans[i].hi
    ensures forall i, j | 0 <= i < j < |scans| :: scans[i].hi < scans[j].lo
  {
    TilesAscend(scans, start, end);
    if block < scans[|scans| - 1].lo {
      var front := scans[..|scans| - 1];
      BlockInOneWindow(front, start, scans[|scans| - 1].lo, block);
      var i :| 0 <= i < |front| && front[i].lo <= block <= front[i].hi;
      assert scans[i] == front[i];
    } else {
      assert scans[|scans| - 1].lo <= block <= scans[|scans| - 1].hi;
    }
  }

  lemma {:induction false} TilesAscend(scans: seq<Scan>, start: nat, end: nat)
    requires Tiles(scans, start, end)
    ensures forall i, j | 0 <= i < j < |scans| :: scans[i].hi < scans[j].lo
  {
    if |scans| > 1 {
      var front, last := scans[..|scans| - 1], scans[|scans| - 1];
      TilesAscend(front, start, last.lo);
      assert scans[|scans| - 2 + 1].lo == scans[|scans| - 2].hi + 1;
      forall i | 0 <= i < |front| ensures scans[i].hi < last.lo {
        if i < |front| - 1 {
          assert front[i].hi < front[|front| - 1].lo;
        }
      }
    }
  }

  // ---- What a step hands over ----

  /** What the poll of a step found: nothing if it failed or only set the cursor, else the latest per target. */
  function FoundBy(plan: Plan, from: nat, poll: Poll): Injections {
    if poll.Failed? || from == 0 || poll.head < from then map[]
    else Latest(LogsIn(plan.chain, from, poll.head))
  }

  /**
    A scheduled step makes one call, under its own number, with what the poll found or else the fixed injections; a
    later step does so under the next number, and only if that is not nothing.
   */
  lemma StepHandsOver(plan: Plan, polls: seq<Poll>, n: nat)
    requires n < |polls|
    ensures var p, after := After(plan, polls, n), After(plan, polls, n + 1);
            var found := FoundBy(plan, p.from, polls[n]);
            var given := if found == map[] then plan.fixed else found;
            after.calls ==
            if n < plan.cycles then p.calls + [CycleCall(n + 1, given)]
            else if given == map[] then p.calls
            else p.calls + [CycleCall(|p.calls| + 1, given)]
  {
    CycleNumbersAreConsecutive(plan, polls, n);
    StepCalls(plan, After(plan, polls, n), n + 1, polls[n]);
  }

  lemma StepCalls(plan: Plan, p: Progress, step: nat, poll: Poll)
    ensures var found := FoundBy(plan, p.from, poll);
            var given := if found == map[] then plan.fixed else found;
            StepOnce(plan, p, step, poll).calls ==
            if step <= plan.cycles then p.calls + [CycleCall(step, given)]
            else if given == map[] then p.calls
            else p.calls + [CycleCall(plan.cycles + p.extra + 1, given)]
  {
  }

  // ---- Delivery ----

  /** The nonempty injection maps, in order, of the calls made and of the windows scanned. */
  function Delivered(calls: seq<CycleCall>): seq<Injections> {
    if calls == [] then []
    else Delivered(calls[..|calls| - 1])
         + (if calls[|calls| - 1].injections == map[] then [] else [calls[|calls| - 1].injections])
  }

  function Found(scans: seq<Scan>): seq<Injections> {
    if scans == [] then []
    else Found(scans[..|scans| - 1]) + (if scans[|scans| - 1].found == map[] then [] else [scans[|scans| - 1].found])
  }

  function Only(m: Injections): seq<Injections> {
    if m == map[] then [] else [m]
  }

  lemma DeliveredSnoc(calls: seq<CycleCall>, call: CycleCall)
    ensures Delivered(calls + [call]) == Delivered(calls) + Only(call.injections)
  {
    assert (calls + [call])[..|calls|] == calls;
  }

  lemma FoundSnoc(scans: seq<Scan>, scan: Scan)
    ensures Found(scans + [scan]) == Found(scans) + Only(scan.found)
  {
    assert (scans + [scan])[..|scans|] == scans;
  }

  lemma CallsOfStep(plan: Plan, p: Progress, step: nat, poll: Poll)
    ensures Delivered(StepOnce(plan, p, step, poll).calls) == Delivered(p.calls) + Only(Polled(plan, p.from, poll).0)
  {
    var injections := Polled(plan, p.from, poll).0;
    DeliveredSnoc(p.calls, CycleCall(step, injections));
    DeliveredSnoc(p.calls, CycleCall(plan.cycles + p.extra + 1, injections));
    assert Delivered(p.calls) + [] == Delivered(p.calls);
  }

  lemma ScansOfStep(plan: Plan, p: Progress, poll: Poll)
    requires plan.fixed == map[]
    ensures Found(ScansAfter(plan, p, poll)) == Found(p.scans) + Only(Polled(plan, p.from, poll).0)
  {
    assert Found(p.scans) + [] == Found(p.scans);
    if poll.Head? && 0 < p.from <= poll.head {
      FoundSnoc(p.scans, Scan(p.from, poll.head, Latest(LogsIn(plan.chain, p.from, poll.head))));
    }
  }

  /**
    With live polling, the windows that found something and the cycles that were given something are the same, one for
    one and in order: each window's injections reach exactly one run_cycle call.
   */
  lemma {:induction false} EachWindowReachesOneCycle(plan: Plan, polls: seq<Poll>, n: nat)
    requires n <= |polls| && plan.fixed == map[]
    ensures Delivered(After(plan, polls, n).calls) == Found(After(plan, polls, n).scans)
  {
    if n > 0 {
      EachWindowReachesOneCycle(plan, polls, n - 1);
      var p := After(plan, polls, n - 1);
      CallsOfStep(plan, p, n, polls[n - 1]);
      ScansOfStep(plan, p, polls[n - 1]);
      StepScans(plan, p, n, polls[n - 1]);
    }
  }

  /** The cycle numbers used are exactly 1, 2, 3, ... with no gap and no repeat. */
  lemma {:induction false} CycleNumbersAreConsecutive(plan: Plan, polls: seq<Poll>, n: nat)
    requires n <= |polls|
    ensures var p := After(plan, polls, n);
            && |p.calls| == (if n < plan.cycles then n else plan.cycles) + p.extra
            && (n <= plan.cycles ==> p.extra == 0)
            && forall i | 0 <= i < |p.calls| :: p.calls[i].number == i + 1
  {
    if n > 0 {
      CycleNumbersAreConsecutive(plan, polls, n - 1);
    }
  }

  /** What `Latest` keeps for a target: a log of that target after which none follows. */
  lemma {:induction false} LatestIsLast(logs: seq<ChaosLog>)
    ensures forall t | t in Latest(logs) :: Latest(logs)[t] in logs && Lower(Latest(logs)[t].target) == t
    ensures forall i | 0 <= i < |logs| :: Lower(logs[i].target) in Latest(logs)
    ensures forall i | 0 <= i < |logs| ::
              (forall j | i < j < |logs| :: Lower(logs[j].target) != Lower(logs[i].target))
              ==> Latest(logs)[Lower(logs[i].target)] == logs[i]
  {
    if logs != [] {
      var front, last := logs[..|logs| - 1], logs[|logs| - 1];
      LatestIsLast(front);
      assert logs == front + [last];
      forall i | 0 <= i < |logs| && forall j | i < j < |logs| :: Lower(logs[j].target) != Lower(logs[i].target)
        ensures Latest(logs)[Lower(logs[i].target)] == logs[i]
      {
        if i < |front| {
          assert Lower(logs[|logs| - 1].target) != Lower(logs[i].target);
          assert front[i] == logs[i];
          assert forall j | i < j < |front| :: Lower(front[j].target) == Lower(logs[j].target);
        }
      }
    }
  }

  // ---- No injection is reported twice ----

  /** The injection ids a cycle reports: for each of the two agents, the one that targets it, if any. */
  function ReportedIn(call: Injections, a: string, b: string): seq<int> {
    IdFor(call, a) + IdFor(call, b)
  }

  function IdFor(call: Injections, agent: string): seq<int> {
    if Lower(agent) in call then [call[Lower(agent)].injectionId] else []
  }

  function Reported(given: seq<Injections>, a: string, b: string): seq<int> {
    if given == [] then []
    else Reported(given[..|given| - 1], a, b) + ReportedIn(given[|given| - 1], a, b)
  }

  ghost predicate NoRepeat(ids: seq<int>) {
    forall i, j | 0 <= i < j < |ids| :: ids[i] != ids[j]
  }

  /** Injection maps that share no log, each keyed by its logs' own targets. */
  ghost predicate Separate(given: seq<Injections>) {
    && (forall i | 0 <= i < |given| :: forall t | t in given[i] :: Lower(given[i][t].target) == t)
    && forall i, j | 0 <= i < j < |given| ::
         forall t, u | t in given[i] && u in given[j] :: given[i][t].injectionId != given[j][u].injectionId
  }

  ghost predicate Identified(given: seq<Injections>) {
    forall i | 0 <= i < |given| ::
      forall t, u | t in given[i] && u in given[i] && t != u :: given[i][t].injectionId != given[i][u].injectionId
  }

  lemma {:induction false} ReportedOrigin(given: seq<Injections>, a: string, b: string)
    ensures forall id | id in Reported(given, a, b) ::
              exists i, t | 0 <= i < |given| && t in given[i] :: given[i][t].injectionId == id
  {
    if given != [] {
      var front, last := given[..|given| - 1], given[|given| - 1];
      ReportedOrigin(front, a, b);
      forall id | id in Reported(given, a, b)
        ensures exists i, t | 0 <= i < |given| && t in given[i] :: given[i][t].injectionId == id
      {
        if id in Reported(front, a, b) {
          var i, t :| 0 <= i < |front| && t in front[i] && front[i][t].injectionId == id;
          assert given[i] == front[i];
        } else {
          assert id in ReportedIn(last, a, b);
          assert given[|given| - 1] == last;
        }
      }
    }
  }

  lemma NoRepeatAppend(x: seq<int>, y: seq<int>)
    requires NoRepeat(x) && NoRepeat(y) && forall i, j | 0 <= i < |x| && 0 <= j < |y| :: x[i] != y[j]
    ensures NoRepeat(x + y)
  {
  }

  lemma CycleNoRepeat(given: seq<Injections>, k: nat, a: string, b: string)
    requires Identified(given) && k < |given| && Lower(a) != Lower(b)
    ensures NoRepeat(ReportedIn(given[k], a, b))
    ensures forall id | id in ReportedIn(given[k], a, b) :: exists t | t in given[k] :: given[k][t].injectionId == id
  {
  }

  lemma {:induction false} DistinctAgentsNoRepeat(given: seq<Injections>, a: string, b: string)
    requires Separate(given) && Identified(given) && Lower(a) != Lower(b)
    ensures NoRepeat(Reported(given, a, b))
  {
    if given != [] {
      var front, last := given[..|given| - 1], given[|given| - 1];
      DistinctAgentsNoRepeat(front, a, b);
      ReportedOrigin(front, a, b);
      CycleNoRepeat(given, |given| - 1, a, b);
      var x, y := Reported(front, a, b), ReportedIn(last, a, b);
      forall i, j | 0 <= i < |x| && 0 <= j < |y| ensures x[i] != y[j] {
        assert x[i] in x && y[j] in y;
        var k, t :| 0 <= k < |front| && t in front[k] && front[k][t].injectionId == x[i];
        assert given[k] == front[k] && given[|given| - 1] == last;
      }
      NoRepeatAppend(x, y);
    }
  }

  lemma {:induction false} SameAgentRepeats(given: seq<Injections>, a: string, b: string)
    requires Lower(a) == Lower(b)
    ensures NoRepeat(Reported(given, a, b)) <==> forall i | 0 <= i < |given| :: Lower(a) !in given[i]
    ensures (forall i | 0 <= i < |given| :: Lower(a) !in given[i]) ==> Reported(given, a, b) == []
  {
    if given != [] {
      var front, last := given[..|given| - 1], given[|given| - 1];
      SameAgentRepeats(front, a, b);
      var x, y := Reported(front, a, b), ReportedIn(last, a, b);
      if Lower(a) in last {
        assert y == IdFor(last, a) + IdFor(last, a) && |y| == 2 && y[0] == y[1];
        assert (x + y)[|x|] == (x + y)[|x| + 1];
        assert given[|given| - 1] == last;
      } else {
        assert x + y == x;
        assert forall i | 0 <= i < |front| :: given[i] == front[i];
      }
    }
  }

  ghost predicate UniqueInjectionIds(chain: seq<ChaosLog>) {
    forall i, j | 0 <= i < j < |chain| :: chain[i].injectionId != chain[j].injectionId
  }

  lemma DifferentLogsDifferentIds(chain: seq<ChaosLog>, x: ChaosLog, y: ChaosLog)
    requires UniqueInjectionIds(chain) && x in chain && y in chain && x != y
    ensures x.injectionId != y.injectionId
  {
    var i :| 0 <= i < |chain| && chain[i] == x;
    var j :| 0 <= j < |chain| && chain[j] == y;
  }

  lemma FoundInChain(plan: Plan, scans: seq<Scan>, k: nat, t: string)
    requires Filled(plan, scans) && k < |scans| && t in scans[k].found
    ensures scans[k].found[t] in plan.chain && Lower(scans[k].found[t].target) == t
    ensures scans[k].lo <= scans[k].found[t].block <= scans[k].hi
  {
    var logs := LogsIn(plan.chain, scans[k].lo, scans[k].hi);
    LatestIsLast(logs);
    FilterMembers(plan.chain, (l: ChaosLog) => scans[k].lo <= l.block <= scans[k].hi);
    assert scans[k].found[t] in logs;
    InLogsIn(plan.chain, scans[k].lo, scans[k].hi, scans[k].found[t]);
  }

  lemma InLogsIn(chain: seq<ChaosLog>, lo: nat, hi: nat, l: ChaosLog)
    ensures l in LogsIn(chain, lo, hi) <==> l in chain && lo <= l.block <= hi
  {
    FilterMembers(chain, (x: ChaosLog) => lo <= x.block <= hi);
  }

  lemma {:induction false} FoundOrigin(scans: seq<Scan>)
    ensures forall m | m in Found(scans) :: exists k | 0 <= k < |scans| :: scans[k].found == m
  {
    if scans != [] {
      var front, last := scans[..|scans| - 1], scans[|scans| - 1];
      FoundOrigin(front);
      forall m | m in Found(scans) ensures exists k | 0 <= k < |scans| :: scans[k].found == m {
        if m in Found(front) {
          var k :| 0 <= k < |front| && front[k].found == m;
          assert scans[k].found == m;
        } else {
          assert scans[|scans| - 1].found == m;
        }
      }
    }
  }

  lemma WindowIsIdentified(plan: Plan, scans: seq<Scan>, k: nat)
    requires Filled(plan, scans) && UniqueInjectionIds(plan.chain) && k < |scans|
    ensures Identified([scans[k].found])
    ensures forall t | t in scans[k].found :: Lower(scans[k].found[t].target) == t
  {
    var m := scans[k].found;
    forall t | t in m ensures Lower(m[t].target) == t {
      FoundInChain(plan, scans, k, t);
    }
    forall t, u | t in m && u in m && t != u ensures m[t].injectionId != m[u].injectionId {
      FoundInChain(plan, scans, k, t);
      FoundInChain(plan, scans, k, u);
      DifferentLogsDifferentIds(plan.chain, m[t], m[u]);
    }
  }

  lemma WindowsAreSeparate(plan: Plan, scans: seq<Scan>, k: nat, j: nat, t: string, u: string)
    requires Filled(plan, scans) && UniqueInjectionIds(plan.chain) && k < j < |scans| && scans[k].hi < scans[j].lo
    requires t in scans[k].found && u in scans[j].found
    ensures scans[k].found[t].injectionId != scans[j].found[u].injectionId
  {
    FoundInChain(plan, scans, k, t);
    FoundInChain(plan, scans, j, u);
    DifferentLogsDifferentIds(plan.chain, scans[k].found[t], scans[j].found[u]);
  }

  lemma {:induction false} FoundIsSeparate(plan: Plan, scans: seq<Scan>)
    requires Filled(plan, scans) && UniqueInjectionIds(plan.chain)
    requires forall i, j | 0 <= i < j < |scans| :: scans[i].hi < scans[j].lo
    ensures Separate(Found(scans)) && Identified(Found(scans))
  {
    if scans != [] {
      var front, n := scans[..|scans| - 1], |scans| - 1;
      FoundIsSeparate(plan, front);
      FoundOrigin(front);
      WindowIsIdentified(plan, scans, n);
      var given: seq<Injections> := Found(front);
      var last: Injections := scans[n].found;
      assert [last][0] == last;
      forall i: nat, t: string, u: string | i < |given| && t in given[i] && u in last
        ensures given[i][t].injectionId != last[u].injectionId
      {
        assert given[i] in given;
        var k :| 0 <= k < |front| && front[k].found == given[i];
        WindowsAreSeparate(plan, scans, k, n, t, u);
      }
      AppendSeparate(given, last);
    }
  }

  lemma AppendSeparate(given: seq<Injections>, last: Injections)
    requires Separate(given) && Identified(given) && Identified([last])
    requires forall t | t in last :: Lower(last[t].target) == t
    requires forall i: nat, t: string, u: string | i < |given| && t in given[i] && u in last ::
               given[i][t].injectionId != last[u].injectionId
    ensures Separate(given + Only(last)) && Identified(given + Only(last))
  {
    assert [last][0] == last;
  }

  lemma {:induction false} FoundKeepsNonempty(scans: seq<Scan>)
    ensures forall k | 0 <= k < |scans| && scans[k].found != map[] :: scans[k].found in Found(scans)
  {
    if scans != [] {
      var front, last := scans[..|scans| - 1], scans[|scans| - 1];
      FoundKeepsNonempty(front);
      forall k | 0 <= k < |scans| && scans[k].found != map[] ensures scans[k].found in Found(scans) {
        if k < |front| {
          assert front[k].found in Found(front);
        }
      }
    }
  }

  /** Some log of the chain lies in a scanned window and targets this agent. */
  ghost predicate Targeted(plan: Plan, scans: seq<Scan>, agent: string) {
    exists k, l | 0 <= k < |scans| && l in plan.chain ::
      scans[k].lo <= l.block <= scans[k].hi && Lower(l.target) == Lower(agent)
  }

  lemma TargetedIsGiven(plan: Plan, scans: seq<Scan>, agent: string)
    requires Filled(plan, scans)
    ensures Targeted(plan, scans, agent) <==> exists m | m in Found(scans) :: Lower(agent) in m
  {
    if Targeted(plan, scans, agent) {
      var k, l :| 0 <= k < |scans| && l in plan.chain
                  && scans[k].lo <= l.block <= scans[k].hi && Lower(l.target) == Lower(agent);
      var logs := LogsIn(plan.chain, scans[k].lo, scans[k].hi);
      InLogsIn(plan.chain, scans[k].lo, scans[k].hi, l);
      var i :| 0 <= i < |logs| && logs[i] == l;
      LatestIsLast(logs);
      FoundKeepsNonempty(scans);
      assert Lower(agent) in scans[k].found;
    }
    if m :| m in Found(scans) && Lower(agent) in m {
      FoundOrigin(scans);
      var k :| 0 <= k < |scans| && scans[k].found == m;
      FoundInChain(plan, scans, k, Lower(agent));
    }
  }

  lemma SameAgentExactly(plan: Plan, scans: seq<Scan>, a: string, b: string)
    requires Filled(plan, scans) && Lower(a) == Lower(b)
    ensures NoRepeat(Reported(Found(scans), a, b)) <==> !Targeted(plan, scans, a)
  {
    var given := Found(scans);
    SameAgentRepeats(given, a, b);
    TargetedIsGiven(plan, scans, a);
    if i :| 0 <= i < |given| && Lower(a) in given[i] {
      assert given[i] in given;
    }
  }

  /**
    With live polling and ids that are unique on the chain, two different agents are never given one injection id twice
    over the whole duel.
   */
  lemma NoRepeatForTwoAgents(plan: Plan, polls: seq<Poll>, n: nat, a: string, b: string)
    requires n <= |polls| && plan.fixed == map[] && UniqueInjectionIds(plan.chain) && Lower(a) != Lower(b)
    ensures NoRepeat(Reported(Delivered(After(plan, polls, n).calls), a, b))
  {
    var p := After(plan, polls, n);
    EachWindowReachesOneCycle(plan, polls, n);
    WindowsTile(plan, polls, n);
    TilesAscend(p.scans, FirstHead(polls, n), p.from);
    FoundIsSeparate(plan, p.scans);
    DistinctAgentsNoRepeat(Found(p.scans), a, b);
  }

  /**
    Why creation has to refuse a duel of an agent with itself: if its cycles ran and completed, an id would be reported
    twice exactly when some log in a scanned window targets it.
   */
  lemma RepeatWithoutTheGuard(plan: Plan, polls: seq<Poll>, n: nat, a: string, b: string)
    requires n <= |polls| && plan.fixed == map[] && Lower(a) == Lower(b)
    ensures var p := After(plan, polls, n);
            !NoRepeat(Reported(Delivered(p.calls), a, b)) <==> Targeted(plan, p.scans, a)
  {
    EachWindowReachesOneCycle(plan, polls, n);
    WindowsTile(plan, polls, n);
    SameAgentExactly(plan, After(plan, polls, n).scans, a, b);
  }
}
