/** Pairing of the agents, the fold of cycle reports into standings, and the two rankings. */
module Leaderboard {
  import opened Prelude
  import opened Sorting

  datatype Report = Report(agent: string, rBps: int, ingested: bool, survived: bool)

  datatype Standing = Standing(address: string, alphaBps: int, ingested: nat, survived: nat)

  datatype Slot = Slot(alphaBps: int, ingested: nat, survived: nat)

  function Resilience(s: Standing): real {
    if s.ingested == 0 then 0.0 else s.survived as real / s.ingested as real
  }

  // ---- Pairing ----

  function Pairs<T>(agents: seq<T>): seq<(T, T)> {
    if |agents| < 2 then [] else [(agents[0], agents[1])] + Pairs(agents[2..])
  }

  function Unpaired<T>(pairs: seq<(T, T)>): seq<T> {
    if pairs == [] then [] else [pairs[0].0, pairs[0].1] + Unpaired(pairs[1..])
  }

  /** Every agent plays exactly once in its place, but the last of an odd number sits out. */
  lemma {:induction false} PairsInOrder<T>(agents: seq<T>)
    ensures |Pairs(agents)| == |agents| / 2
    ensures Unpaired(Pairs(agents)) == agents[..2 * (|agents| / 2)]
    decreases |agents|
  {
    if |agents| >= 2 {
      PairsInOrder(agents[2..]);
      var n := 2 * (|agents| / 2);
      assert agents[..n] == [agents[0], agents[1]] + agents[2..][..n - 2];
    }
  }

  // ---- Filtered sums ----

  function AlphaOf(reports: seq<Report>, agent: string): int {
    if reports == [] then 0
    else
      var last := reports[|reports| - 1];
      AlphaOf(reports[..|reports| - 1], agent) + (if last.agent == agent then last.rBps else 0)
  }

  function IngestedOf(reports: seq<Report>, agent: string): nat {
    if reports == [] then 0
    else
      var last := reports[|reports| - 1];
      IngestedOf(reports[..|reports| - 1], agent) + (if last.agent == agent && last.ingested then 1 else 0)
  }

  function SurvivedOf(reports: seq<Report>, agent: string): nat {
    if reports == [] then 0
    else
      var last := reports[|reports| - 1];
      SurvivedOf(reports[..|reports| - 1], agent)
      + (if last.agent == agent && last.ingested && last.survived then 1 else 0)
  }

  function AlphaTotal(reports: seq<Report>): int {
    if reports == [] then 0 else AlphaTotal(reports[..|reports| - 1]) + reports[|reports| - 1].rBps
  }

  /** Agents in order of first appearance. */
  function FirstAppearances(reports: seq<Report>): seq<string> {
    if reports == [] then []
    else
      var before, agent := FirstAppearances(reports[..|reports| - 1]), reports[|reports| - 1].agent;
      if agent in before then before else before + [agent]
  }

  function SlotFor(reports: seq<Report>, agent: string): Slot {
    Slot(AlphaOf(reports, agent), IngestedOf(reports, agent), SurvivedOf(reports, agent))
  }

  function StandingFor(reports: seq<Report>, agent: string): Standing {
    Standing(agent, AlphaOf(reports, agent), IngestedOf(reports, agent), SurvivedOf(reports, agent))
  }

  function Standings(reports: seq<Report>): (s: seq<Standing>)
    ensures |s| == |FirstAppearances(reports)|
  {
    var order := FirstAppearances(reports);
    seq(|order|, i requires 0 <= i < |order| => StandingFor(reports, order[i]))
  }

  /** A slot once one more report of its agent is counted. */
  function Counted(slot: Slot, r: Report): Slot {
    Slot(slot.alphaBps + r.rBps,
         slot.ingested + (if r.ingested then 1 else 0),
         slot.survived + (if r.ingested && r.survived then 1 else 0))
  }

  lemma SlotStep(reports: seq<Report>, i: nat, agent: string)
    requires i < |reports|
    ensures SlotFor(reports[..i + 1], agent) ==
            if reports[i].agent == agent then Counted(SlotFor(reports[..i], agent), reports[i])
            else SlotFor(reports[..i], agent)
  {
    assert reports[..i + 1][..i] == reports[..i];
  }

  /** The slots hold the sums of the first i reports, for the agents seen so far and for nobody else. */
  ghost predicate Tallies(slots: map<string, Slot>, reports: seq<Report>) {
    forall a :: SlotFor(reports, a) == if a in slots then slots[a] else Slot(0, 0, 0)
  }

  lemma TalliesStep(slots: map<string, Slot>, reports: seq<Report>, i: nat)
    requires i < |reports| && Tallies(slots, reports[..i])
    ensures var r := reports[i];
            var slot := if r.agent in slots then slots[r.agent] else Slot(0, 0, 0);
            Tallies(slots[r.agent := Counted(slot, r)], reports[..i + 1])
  {
    var r := reports[i];
    var slot := if r.agent in slots then slots[r.agent] else Slot(0, 0, 0);
    var slots' := slots[r.agent := Counted(slot, r)];
    forall a ensures SlotFor(reports[..i + 1], a) == if a in slots' then slots'[a] else Slot(0, 0, 0) {
      SlotStep(reports, i, a);
    }
  }

  lemma OrderStep(reports: seq<Report>, i: nat)
    requires i < |reports|
    ensures var before := FirstAppearances(reports[..i]);
            FirstAppearances(reports[..i + 1]) == if reports[i].agent in before then before else before + [reports[i].agent]
  {
    assert reports[..i + 1][..i] == reports[..i];
  }

  /** The fold: a dictionary of slots updated per report, and the order of first appearance. */
  method Tally(reports: seq<Report>) returns (order: seq<string>, slots: map<string, Slot>)
    ensures order == FirstAppearances(reports) && Tallies(slots, reports)
    ensures forall a | a in order :: a in slots
  {
    order, slots := [], map[];
    var i := 0;
    while i < |reports|
      invariant 0 <= i <= |reports|
      invariant order == FirstAppearances(reports[..i]) && Tallies(slots, reports[..i])
      invariant forall a :: a in slots <==> a in order
    {
      var r := reports[i];
      OrderStep(reports, i);
      TalliesStep(slots, reports, i);
      if r.agent !in slots {
        slots := slots[r.agent := Slot(0, 0, 0)];
        order := order + [r.agent];
      }
      var slot := slots[r.agent];
      slot := slot.(alphaBps := slot.alphaBps + r.rBps);
      if r.ingested {
        slot := slot.(ingested := slot.ingested + 1);
        if r.survived {
          slot := slot.(survived := slot.survived + 1);
        }
      }
      slots := slots[r.agent := slot];
      i := i + 1;
    }
    assert reports[..i] == reports;
  }

  method Aggregate(reports: seq<Report>) returns (standings: seq<Standing>)
    ensures standings == Standings(reports)
  {
    var order, slots := Tally(reports);
    standings := [];
    var k := 0;
    while k < |order|
      invariant 0 <= k <= |order| && standings == Standings(reports)[..k]
    {
      assert order[k] in order && SlotFor(reports, order[k]) == slots[order[k]];
      var slot := slots[order[k]];
      standings := standings + [Standing(order[k], slot.alphaBps, slot.ingested, slot.survived)];
      k := k + 1;
    }
  }

  // ---- What the standings say ----

  /** Every reporting agent is listed, once. */
  lemma {:induction false} AppearancesSpec(reports: seq<Report>)
    ensures forall i, j | 0 <= i < j < |FirstAppearances(reports)| ::
              FirstAppearances(reports)[i] != FirstAppearances(reports)[j]
    ensures forall r | r in reports :: r.agent in FirstAppearances(reports)
    ensures forall a | a in FirstAppearances(reports) :: exists r | r in reports :: r.agent == a
  {
    if reports != [] {
      var front, last := reports[..|reports| - 1], reports[|reports| - 1];
      AppearancesSpec(front);
      var before, order := FirstAppearances(front), FirstAppearances(reports);
      assert order == if last.agent in before then before else before + [last.agent];
      assert reports == front + [last];
      assert last in reports;
      forall a | a in order ensures exists r | r in reports :: r.agent == a {
        if a in before {
          var r :| r in front && r.agent == a;
          assert r in reports;
        }
      }
      if last.agent !in before {
        forall i, j | 0 <= i < j < |order| ensures order[i] != order[j] {
          assert order[i] == before[i];
          assert before[i] in before;
        }
      }
    }
  }

  /** Agents appear in the order of their first report: a shorter run's standings list a prefix of the agents. */
  lemma {:induction false} AppearancesGrow(reports: seq<Report>, n: nat)
    requires n <= |reports|
    ensures FirstAppearances(reports[..n]) <= FirstAppearances(reports)
    decreases |reports| - n
  {
    if n < |reports| {
      AppearancesGrow(reports, n + 1);
      assert reports[..n + 1][..n] == reports[..n];
    } else {
      assert reports[..n] == reports;
    }
  }

  lemma {:induction false} SurvivedWithinIngested(reports: seq<Report>, agent: string)
    ensures SurvivedOf(reports, agent) <= IngestedOf(reports, agent)
  {
    if reports != [] {
      SurvivedWithinIngested(reports[..|reports| - 1], agent);
    }
  }

  lemma FractionBounds(x: real, y: real)
    requires 0.0 <= x <= y && 0.0 < y
    ensures 0.0 <= x / y <= 1.0 && (x / y == 1.0 <==> x == y)
  {
    var q := x / y;
    assert q * y == x;
  }

  /** Resilience is a fraction, and 1 exactly when something was ingested and all of it survived. */
  lemma ResilienceRange(reports: seq<Report>, agent: string)
    ensures var s := StandingFor(reports, agent);
            0.0 <= Resilience(s) <= 1.0 && (Resilience(s) == 1.0 <==> s.ingested > 0 && s.survived == s.ingested)
  {
    var s := StandingFor(reports, agent);
    SurvivedWithinIngested(reports, agent);
    if s.ingested > 0 {
      FractionBounds(s.survived as real, s.ingested as real);
    }
  }

  function IngestedBy(agent: string): Report -> bool {
    (r: Report) => r.agent == agent && r.ingested
  }

  function SurvivedBy(agent: string): Report -> bool {
    (r: Report) => r.agent == agent && r.ingested && r.survived
  }

  lemma {:induction false} CountsAreFiltered(reports: seq<Report>, agent: string)
    ensures IngestedOf(reports, agent) == |Filter(reports, IngestedBy(agent))|
    ensures SurvivedOf(reports, agent) == |Filter(reports, SurvivedBy(agent))|
  {
    if reports != [] {
      var front, last := reports[..|reports| - 1], reports[|reports| - 1];
      CountsAreFiltered(front, agent);
      assert reports == front + [last];
      FilterAppend(front, [last], IngestedBy(agent));
      FilterAppend(front, [last], SurvivedBy(agent));
    }
  }

  /** Resilience is the share of an agent's injections that it survived, 0 if it took in none. */
  lemma ResilienceIsShare(reports: seq<Report>, agent: string)
    ensures var all, kept := |Filter(reports, IngestedBy(agent))|, |Filter(reports, SurvivedBy(agent))|;
            var s := StandingFor(reports, agent);
            && s.address == agent && s.ingested == all && s.survived == kept
            && Resilience(s) == if all > 0 then kept as real / all as real else 0.0
  {
    CountsAreFiltered(reports, agent);
  }

  /** An agent that moved alone has all the alpha; one more report adds its move to its own agent only. */
  lemma AlphaGrows(reports: seq<Report>, r: Report, agent: string)
    ensures AlphaOf([], agent) == 0
    ensures AlphaOf(reports + [r], agent) == AlphaOf(reports, agent) + (if r.agent == agent then r.rBps else 0)
  {
    assert (reports + [r])[..|reports|] == reports;
  }

  function SumOver(reports: seq<Report>, agents: seq<string>): int {
    if agents == [] then 0 else SumOver(reports, agents[..|agents| - 1]) + AlphaOf(reports, agents[|agents| - 1])
  }

  lemma {:induction false} SumOverSnoc(reports: seq<Report>, agents: seq<string>)
    requires reports != [] && forall i, j | 0 <= i < j < |agents| :: agents[i] != agents[j]
    ensures SumOver(reports, agents) == SumOver(reports[..|reports| - 1], agents)
            + (if reports[|reports| - 1].agent in agents then reports[|reports| - 1].rBps else 0)
  {
    if agents != [] {
      var front, last := agents[..|agents| - 1], agents[|agents| - 1];
      SumOverSnoc(reports, front);
      assert agents == front + [last];
    }
  }

  lemma {:induction false} NoReportsNoAlpha(reports: seq<Report>, agent: string)
    requires forall r | r in reports :: r.agent != agent
    ensures AlphaOf(reports, agent) == 0
  {
    if reports != [] {
      NoReportsNoAlpha(reports[..|reports| - 1], agent);
      assert reports[|reports| - 1] in reports;
    }
  }

  lemma LastIsListed(reports: seq<Report>)
    requires reports != []
    ensures reports[|reports| - 1].agent in FirstAppearances(reports)
  {
    var before, agent := FirstAppearances(reports[..|reports| - 1]), reports[|reports| - 1].agent;
    if agent !in before {
      assert (before + [agent])[|before|] == agent;
    }
  }

  lemma Distinct(reports: seq<Report>)
    ensures forall i, j | 0 <= i < j < |FirstAppearances(reports)| ::
              FirstAppearances(reports)[i] != FirstAppearances(reports)[j]
  {
    AppearancesSpec(reports);
  }

  lemma {:induction false} AlphaConservedByAgent(reports: seq<Report>)
    ensures SumOver(reports, FirstAppearances(reports)) == AlphaTotal(reports)
  {
    if reports != [] {
      var front, last := reports[..|reports| - 1], reports[|reports| - 1];
      var before, order := FirstAppearances(front), FirstAppearances(reports);
      AlphaConservedByAgent(front);
      Distinct(reports);
      LastIsListed(reports);
      SumOverSnoc(reports, order);
      AlphaOverOrder(front, before, order, last.agent);
    }
  }

  function AlphaSum(standings: seq<Standing>): int {
    if standings == [] then 0 else AlphaSum(standings[..|standings| - 1]) + standings[|standings| - 1].alphaBps
  }

  lemma {:induction false} AlphaSumOver(reports: seq<Report>, n: nat)
    requires n <= |FirstAppearances(reports)|
    ensures AlphaSum(Standings(reports)[..n]) == SumOver(reports, FirstAppearances(reports)[..n])
  {
    if n > 0 {
      AlphaSumOver(reports, n - 1);
      assert Standings(reports)[..n][..n - 1] == Standings(reports)[..n - 1];
      assert FirstAppearances(reports)[..n][..n - 1] == FirstAppearances(reports)[..n - 1];
    }
  }

  /** No basis point is lost or counted twice: the alphas of the standings add up to all reported moves. */
  lemma AlphaConserved(reports: seq<Report>)
    ensures AlphaSum(Standings(reports)) == AlphaTotal(reports)
  {
    var n := |Standings(reports)|;
    AlphaConservedByAgent(reports);
    AlphaSumOver(reports, n);
    assert Standings(reports)[..n] == Standings(reports);
    assert FirstAppearances(reports)[..n] == FirstAppearances(reports);
  }

  /** A newcomer had no alpha before its first report. */
  lemma AlphaOverOrder(front: seq<Report>, before: seq<string>, order: seq<string>, agent: string)
    requires before == FirstAppearances(front)
    requires order == if agent in before then before else before + [agent]
    ensures SumOver(front, order) == SumOver(front, before)
  {
    if agent !in before {
      AppearancesSpec(front);
      assert order[..|order| - 1] == before;
      NoReportsNoAlpha(front, agent);
    }
  }

  // ---- Rankings ----

  function ByAlpha(): (Standing, Standing) -> bool {
    (x: Standing, y: Standing) => x.alphaBps >= y.alphaBps
  }

  function ByShield(): (Standing, Standing) -> bool {
    (x: Standing, y: Standing) =>
      Resilience(x) > Resilience(y) || (Resilience(x) == Resilience(y) && x.alphaBps >= y.alphaBps)
  }

  function AlphaRanking(standings: seq<Standing>): seq<Standing> {
    Sort(standings, ByAlpha())
  }

  function ShieldRanking(standings: seq<Standing>): seq<Standing> {
    Sort(standings, ByShield())
  }

  /** Both rankings are permutations of the standings, best first. */
  lemma RankingsAreSorted(standings: seq<Standing>)
    ensures multiset(AlphaRanking(standings)) == multiset(standings)
    ensures multiset(ShieldRanking(standings)) == multiset(standings)
    ensures var r := AlphaRanking(standings); forall i, j | 0 <= i < j < |r| :: r[i].alphaBps >= r[j].alphaBps
    ensures var r := ShieldRanking(standings);
            forall i, j | 0 <= i < j < |r| ::
              && Resilience(r[i]) >= Resilience(r[j])
              && (Resilience(r[i]) == Resilience(r[j]) ==> r[i].alphaBps >= r[j].alphaBps)
  {
    SortSpec(standings, ByAlpha());
    ShieldIsTotalPreorder();
    SortSpec(standings, ByShield());
    var alpha, shield := AlphaRanking(standings), ShieldRanking(standings);
    forall i, j | 0 <= i < j < |alpha| ensures alpha[i].alphaBps >= alpha[j].alphaBps {
      assert ByAlpha()(alpha[i], alpha[j]);
    }
    forall i, j | 0 <= i < j < |shield|
      ensures Resilience(shield[i]) >= Resilience(shield[j])
      ensures Resilience(shield[i]) == Resilience(shield[j]) ==> shield[i].alphaBps >= shield[j].alphaBps
    {
      assert ByShield()(shield[i], shield[j]);
    }
  }

  lemma ShieldIsTotalPreorder()
    ensures TotalPreorder(ByShield())
  {
  }

  /** Ties keep the order of the standings. */
  lemma RankingsAreStable(standings: seq<Standing>, alpha: int, resilience: real)
    ensures var tied := (s: Standing) => s.alphaBps == alpha;
            Filter(AlphaRanking(standings), tied) == Filter(standings, tied)
    ensures var tied := (s: Standing) => s.alphaBps == alpha && Resilience(s) == resilience;
            Filter(ShieldRanking(standings), tied) == Filter(standings, tied)
  {
    SortStable(standings, ByAlpha(), (s: Standing) => s.alphaBps == alpha);
    SortStable(standings, ByShield(), (s: Standing) => s.alphaBps == alpha && Resilience(s) == resilience);
  }
}
