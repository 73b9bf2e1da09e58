/**
  Requests that overlap: validation and commit of different requests in any order, with purges between them. This is
  why the commit checks the store again.
 */
module DarkPoolRaces {
  import opened Prelude
  import opened NonceStores
  import opened Payments
  import opened DarkPools
  import opened DarkPoolRuns

  datatype RaceStep = Validate(header: Header, wall: int) | Commit(k: nat) | Purge(now: int)

  /** `pending` are the requests that validated and have not committed; `log` are those answered 200. */
  datatype Race = Race(nonces: Rows, pending: seq<Served>, log: seq<Served>, lastPurge: int)

  function Next(site: Site, r: Race, step: RaceStep): Race {
    match step
    case Validate(header, wall) =>
      var served := Presented(site, header, wall);
      if Checked(site.ecrecover, site.cfg, r.nonces, header, wall).Ok? && served.Some?
      then r.(pending := r.pending + [served.value]) else r
    case Commit(k) =>
      if k >= |r.pending| then r
      else
        var s, rest := r.pending[k], r.pending[..k] + r.pending[k + 1..];
        if s.key in r.nonces then r.(pending := rest)
        else r.(pending := rest, nonces := Inserted(r.nonces, s.key, s.typed.validBefore), log := r.log + [s])
    case Purge(now) =>
      r.(nonces := Purged(r.nonces, now), lastPurge := if now > r.lastPurge then now else r.lastPurge)
  }

  /** A request commits before any purge reaches the expiry it was validated with. */
  predicate InTime(r: Race, step: RaceStep) {
    step.Commit? && step.k < |r.pending| ==> r.pending[step.k].typed.validBefore > r.lastPurge
  }

  ghost predicate RaceInv(site: Site, r: Race) {
    && (forall s | s in r.pending || s in r.log :: SoundReceipt(site, s))
    && (forall s | s in r.log && s.typed.validBefore > r.lastPurge ::
          s.key in r.nonces && r.nonces[s.key] == s.typed.validBefore)
    && (forall i, j | 0 <= i < j < |r.log| :: r.log[i].key == r.log[j].key ==>
          r.log[i].typed.validBefore < r.log[j].typed.validBefore)
  }

  lemma CommitKeepsInv(site: Site, r: Race, k: nat)
    requires RaceInv(site, r) && k < |r.pending| && InTime(r, Commit(k))
    ensures RaceInv(site, Next(site, r, Commit(k)))
  {
    var s, r' := r.pending[k], Next(site, r, Commit(k));
    assert s in r.pending;
    if s.key !in r.nonces {
      forall i, j | 0 <= i < j < |r'.log| && r'.log[i].key == r'.log[j].key
        ensures r'.log[i].typed.validBefore < r'.log[j].typed.validBefore
      {
        assert r'.log[i] in r.log;
      }
    }
  }

  lemma StepKeepsRaceInv(site: Site, r: Race, step: RaceStep)
    requires RaceInv(site, r) && InTime(r, step)
    ensures RaceInv(site, Next(site, r, step))
  {
    match step {
      case Validate(header, wall) =>
        if Checked(site.ecrecover, site.cfg, r.nonces, header, wall).Ok? {
          AcceptedIsPresented(site, r.nonces, header.payment, wall);
        }
      case Commit(k) =>
        if k < |r.pending| {
          CommitKeepsInv(site, r, k);
        }
      case Purge(_) =>
    }
  }

  ghost predicate AllInTime(site: Site, r: Race, steps: seq<RaceStep>)
    decreases |steps|
  {
    steps == [] || (InTime(r, steps[0]) && AllInTime(site, Next(site, r, steps[0]), steps[1..]))
  }

  function RunRace(site: Site, r: Race, steps: seq<RaceStep>): Race
    decreases |steps|
  {
    if steps == [] then r else RunRace(site, Next(site, r, steps[0]), steps[1..])
  }

  lemma {:induction false} RaceKeepsInv(site: Site, r: Race, steps: seq<RaceStep>)
    requires RaceInv(site, r) && AllInTime(site, r, steps)
    ensures RaceInv(site, RunRace(site, r, steps))
    decreases |steps|
  {
    if steps != [] {
      StepKeepsRaceInv(site, r, steps[0]);
      RaceKeepsInv(site, Next(site, r, steps[0]), steps[1..]);
    }
  }

  /**
    However validations and commits overlap, a key is served again only with a later expiry, and an authorization that
    several requests validated at once is answered 200 once per lower-cased spelling of its nonce, as long as no request outlives a
    purge at or past its expiry.
   */
  lemma OneWinnerPerRace(site: Site, nonces: Rows, lastPurge: int, steps: seq<RaceStep>, i: nat, j: nat)
    requires AllInTime(site, Race(nonces, [], [], lastPurge), steps)
    requires i < j < |RunRace(site, Race(nonces, [], [], lastPurge), steps).log|
    ensures var log := RunRace(site, Race(nonces, [], [], lastPurge), steps).log;
            && (log[i].key == log[j].key ==> log[i].typed.validBefore < log[j].typed.validBefore)
            && (SameButNonce(log[i].typed, log[j].typed) ==> Lower(log[i].nonce) != Lower(log[j].nonce))
  {
    RaceKeepsInv(site, Race(nonces, [], [], lastPurge), steps);
    var log := RunRace(site, Race(nonces, [], [], lastPurge), steps).log;
    assert log[i] in log && log[j] in log;
  }
}
