/**
  The runner of one duel: it must create the duel on chain before it may score a cycle, each cycle reports one call per
  agent, and the arena runs its cycles step by step.
 */
module DuelRunners {
  import opened Prelude
  import opened Duels

  /** Why `createDuel` reverts. */
  datatype Revert = NotRecorder | ZeroAgent | SameAgent | ZeroAmount | NotRegistered

  datatype RunnerError = CreateReverted | NotCreated | CycleRaised

  /** The contract as `createDuel` finds it: registered addresses in lower case, and the number of duels so far. */
  datatype Colosseum = Colosseum(byRecorder: bool, registered: set<string>, duelCount: nat)

  /** The guards of `createDuel`, in order, and the id it gives out. Addresses that differ only in case are one. */
  function CreateDuel(c: Colosseum, a: string, b: string, tradingSecs: nat): Result<nat, Revert> {
    if !c.byRecorder then Err(NotRecorder)
    else if Lower(a) == ZERO_ADDRESS || Lower(b) == ZERO_ADDRESS then Err(ZeroAgent)
    else if Lower(a) == Lower(b) then Err(SameAgent)
    else if tradingSecs == 0 then Err(ZeroAmount)
    else if Lower(a) !in c.registered || Lower(b) !in c.registered then Err(NotRegistered)
    else Ok(c.duelCount + 1)
  }

  class DuelRunner {
    const agentA: string
    const agentB: string
    var duelId: Option<nat>

    /** A duel that exists has two different agents. */
    ghost predicate Valid()
      reads this
    {
      duelId.Some? ==> Lower(agentA) != Lower(agentB)
    }

    constructor (agentA: string, agentB: string)
      ensures this.agentA == agentA && this.agentB == agentB && duelId == None && Valid()
    {
      this.agentA, this.agentB, duelId := agentA, agentB, None;
    }

    method Create(c: Colosseum, tradingSecs: nat) returns (r: Result<nat, RunnerError>)
      requires Valid()
      modifies this
      ensures Valid()
      ensures match CreateDuel(c, agentA, agentB, tradingSecs)
              case Ok(id) => r == Ok(id) && duelId == Some(id)
              case Err(_) => r == Err(CreateReverted) && duelId == old(duelId)
      ensures r.Ok? <==>
                && c.byRecorder && tradingSecs > 0
                && Lower(agentA) != ZERO_ADDRESS && Lower(agentB) != ZERO_ADDRESS && Lower(agentA) != Lower(agentB)
                && Lower(agentA) in c.registered && Lower(agentB) in c.registered
    {
      var receipt := CreateDuel(c, agentA, agentB, tradingSecs);
      if receipt.Err? {
        return Err(CreateReverted);
      }
      duelId := Some(receipt.value);
      return Ok(receipt.value);
    }

    /**
      One call per agent, with the id of the injection that targets it, if any. `sent` says whether the report of agent
      k is mined, `noted` whether everything after it succeeds; a failure raises and leaves a prefix reported.
     */
    method RunCycle(injections: Injections, sent: nat -> bool, noted: nat -> bool)
      returns (r: Result<(), RunnerError>, reported: seq<int>)
      ensures duelId.None? ==> r == Err(NotCreated) && reported == []
      ensures duelId.Some? ==>
                && reported <= ReportedIn(injections, agentA, agentB)
                && (r.Ok? <==> forall k: nat | k < 2 :: sent(k) && noted(k))
                && (r.Ok? ==> reported == ReportedIn(injections, agentA, agentB))
                && (r.Err? ==> r.error == CycleRaised)
    {
      reported := [];
      if duelId.None? {
        return Err(NotCreated), reported;
      }
      var agents := [agentA, agentB];
      var i := 0;
      while i < |agents|
        invariant 0 <= i <= 2
        invariant reported == if i == 0 then [] else if i == 1 then IdFor(injections, agentA)
                              else ReportedIn(injections, agentA, agentB)
        invariant forall k: nat | k < i :: sent(k) && noted(k)
      {
        if !sent(i) {
          return Err(CycleRaised), reported;
        }
        reported := reported + IdFor(injections, agents[i]);
        if !noted(i) {
          return Err(CycleRaised), reported;
        }
        i := i + 1;
      }
      r := Ok(());
    }
  }

  lemma ReportedSnoc(calls: seq<CycleCall>, call: CycleCall, a: string, b: string)
    ensures Reported(Delivered(calls + [call]), a, b)
            == Reported(Delivered(calls), a, b) + ReportedIn(call.injections, a, b)
  {
    var given, m := Delivered(calls), call.injections;
    DeliveredSnoc(calls, call);
    if m == map[] {
      assert Only(m) == [] && given + [] == given;
      assert ReportedIn(m, a, b) == [];
    } else {
      assert (given + [m])[..|given|] == given;
    }
  }

  lemma PrefixNoRepeat(ids: seq<int>, all: seq<int>)
    requires ids <= all && NoRepeat(all)
    ensures NoRepeat(ids)
  {
  }

  /** In a created duel no injection id is reported twice, whatever was sent of the last cycle if it raised. */
  lemma NoInjectionReportedTwice(c: Colosseum, a: string, b: string, tradingSecs: nat, plan: Plan, polls: seq<Poll>,
                                 n: nat, ids: seq<int>)
    requires CreateDuel(c, a, b, tradingSecs).Ok?
    requires n <= |polls| && plan.fixed == map[] && UniqueInjectionIds(plan.chain)
    requires ids <= Reported(Delivered(After(plan, polls, n).calls), a, b)
    ensures NoRepeat(ids)
  {
    NoRepeatForTwoAgents(plan, polls, n, a, b);
    PrefixNoRepeat(ids, Reported(Delivered(After(plan, polls, n).calls), a, b));
  }

  /** One step of the loop: poll, and run the cycle if there is one. */
  method PlayStep(runner: DuelRunner, plan: Plan, polls: seq<Poll>, n: nat, from: nat, extra: nat, calls: seq<CycleCall>,
                  sent: (int, nat) -> bool, noted: (int, nat) -> bool)
    returns (r: Result<(), RunnerError>, next: nat, stragglers: nat, made: seq<CycleCall>, ids: seq<int>)
    requires runner.duelId.Some? && n < |polls| && Reached(plan, polls, n, from, extra, calls)
    ensures Reached(plan, polls, n + 1, next, stragglers, made)
    ensures var before := Reported(Delivered(calls), runner.agentA, runner.agentB);
            var after := Reported(Delivered(made), runner.agentA, runner.agentB);
            before + ids <= after && (r.Ok? ==> before + ids == after)
  {
    r, made, ids := Ok(()), calls, [];
    var call;
    next, stragglers, call := TakeStep(plan, polls, n, from, extra, calls);
    if call.Some? {
      var cycle := call.value.number;
      r, ids := runner.RunCycle(call.value.injections, (k: nat) => sent(cycle, k), (k: nat) => noted(cycle, k));
      ReportedSnoc(calls, call.value, runner.agentA, runner.agentB);
      made := calls + [call.value];
    }
  }

  /** The loop over the steps, which a cycle that raises ends. */
  method PlaySteps(runner: DuelRunner, plan: Plan, polls: seq<Poll>, sent: (int, nat) -> bool, noted: (int, nat) -> bool)
    returns (r: Result<(), RunnerError>, reported: seq<int>, steps: nat)
    requires runner.duelId.Some?
    ensures steps <= |polls| && (r.Ok? ==> steps == |polls|)
    ensures var all := Reported(Delivered(After(plan, polls, steps).calls), runner.agentA, runner.agentB);
            reported <= all && (r.Ok? ==> reported == all)
  {
    r, reported, steps := Ok(()), [], 0;
    var from: nat, extra: nat, calls: seq<CycleCall> := 0, 0, [];
    while steps < |polls| && r.Ok?
      invariant steps <= |polls| && Reached(plan, polls, steps, from, extra, calls)
      invariant reported <= Reported(Delivered(calls), runner.agentA, runner.agentB)
      invariant r.Ok? ==> reported == Reported(Delivered(calls), runner.agentA, runner.agentB)
    {
      var ids;
      r, from, extra, calls, ids := PlayStep(runner, plan, polls, steps, from, extra, calls, sent, noted);
      reported, steps := reported + ids, steps + 1;
    }
  }

  /**
    A whole duel: create it, then poll and score step by step until the polls end or a cycle raises. Whatever fails,
    the ids reported are those handed to the cycles in order, and none is reported twice.
   */
  method RunDuel(runner: DuelRunner, c: Colosseum, tradingSecs: nat, plan: Plan, polls: seq<Poll>,
                 sent: (int, nat) -> bool, noted: (int, nat) -> bool)
    returns (r: Result<(), RunnerError>, reported: seq<int>, steps: nat)
    requires runner.Valid()
    requires plan.fixed == map[] && UniqueInjectionIds(plan.chain)
    modifies runner
    ensures runner.Valid() && steps <= |polls|
    ensures CreateDuel(c, runner.agentA, runner.agentB, tradingSecs).Err? ==> r == Err(CreateReverted) && reported == []
    ensures var all := Reported(Delivered(After(plan, polls, steps).calls), runner.agentA, runner.agentB);
            reported <= all && (r.Ok? ==> steps == |polls| && reported == all)
    ensures NoRepeat(reported)
  {
    var created := runner.Create(c, tradingSecs);
    if created.Err? {
      return Err(created.error), [], 0;
    }
    r, reported, steps := PlaySteps(runner, plan, polls, sent, noted);
    NoInjectionReportedTwice(c, runner.agentA, runner.agentB, tradingSecs, plan, polls, steps, reported);
  }
}
