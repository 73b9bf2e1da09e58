/** What a right answer to a query is, coordinate by coordinate and without the codes' byte tables. */
module Scoring {
  import opened Prelude
  import opened BitCodes
  import opened MemoryStore

  /** The entry stores the code and the l1 of v. */
  predicate Coded(e: Entry, v: Vec, dim: nat) {
    |v| == dim && e.code == PackBits(Signs(v)) && e.l1 == L1(v)
  }

  /** The calibrated cosine of q and a vector stored as the signs and the l1 of v. */
  function Cosine(v: Vec, q: Vec): real
    requires |v| == |q|
  {
    SignDot(v, q) / (if L1(v) > 0.0 then L1(v) else 1.0)
  }

  ghost predicate Listed(results: seq<(Bytes, real)>, id: Bytes) {
    exists r | r in results :: r.0 == id
  }

  /** Best first, no id twice, every score deserved, and nothing left out deserves more than anything listed. */
  ghost predicate RightAnswer(entries: seq<Entry>, q: Vec, k: nat, results: seq<(Bytes, real)>) {
    && |results| == (if k < |entries| then k else |entries|)
    && (forall i, j | 0 <= i < j < |results| :: results[i].1 >= results[j].1 && results[i].0 != results[j].0)
    && (forall r | r in results :: HasId(entries, r.0))
    && (forall r, e, v | r in results && e in entries && e.traceId == r.0 && Coded(e, v, |q|) ::
          r.1 == Cosine(v, q) * e.weight)
    && (forall r, e, v | r in results && e in entries && !Listed(results, e.traceId) && Coded(e, v, |q|) ::
          Cosine(v, q) * e.weight <= r.1)
  }

  lemma EstimateIsCosine(e: Entry, v: Vec, q: Vec)
    requires Coded(e, v, |q|)
    ensures Estimate(q, e.code, e.l1) == Cosine(v, q)
  {
    ScanIsSignDot(v, q);
  }

  lemma ScoreIsDeserved(e: Entry, v: Vec, q: Vec)
    requires Coded(e, v, |q|)
    ensures Score(q, e) == Cosine(v, q) * e.weight
  {
    EstimateIsCosine(e, v, q);
    ScoreIsProduct(q, e, Cosine(v, q));
  }

  lemma ScoreIsProduct(q: Vec, e: Entry, x: real)
    requires Estimate(q, e.code, e.l1) == x
    ensures Score(q, e) == x * e.weight
  {
  }

  lemma ScoredEntry(entries: seq<Entry>, q: Vec, e: Entry)
    requires e in entries
    ensures (e.traceId, Score(q, e)) in Scores(q, entries)
  {
    var i :| 0 <= i < |entries| && entries[i] == e;
    assert Scores(q, entries)[i] == (e.traceId, Score(q, e));
  }

  /** A scored pair comes from the one entry with its id. */
  lemma PairOrigin(entries: seq<Entry>, q: Vec, r: (Bytes, real))
    requires DistinctIds(entries) && r in Scores(q, entries)
    ensures HasId(entries, r.0)
    ensures forall e | e in entries && e.traceId == r.0 :: r.1 == Score(q, e)
  {
    var i :| 0 <= i < |entries| && Scores(q, entries)[i] == r;
    assert entries[i] in entries;
    forall e | e in entries && e.traceId == r.0 ensures r.1 == Score(q, e) {
      var j :| 0 <= j < |entries| && entries[j] == e;
      assert i == j;
    }
  }

  lemma {:induction false} ScoresUnique(entries: seq<Entry>, q: Vec, id: Bytes, s: seq<(Bytes, real)>)
    requires DistinctIds(entries) && s == Scores(q, entries)
    ensures forall i, j | 0 <= i < j < |s| :: s[i].0 != s[j].0
  {
  }

  /** Two places of a list are two members of any list it is part of. */
  lemma {:induction false} TwicePresent(results: seq<(Bytes, real)>, i: nat, j: nat)
    requires i < j < |results| && results[i] == results[j]
    ensures multiset(results)[results[i]] >= 2
  {
    assert results == results[..j] + results[j..];
    assert results[..j][i] == results[i] && results[j..][0] == results[i];
    assert multiset(results) == multiset(results[..j]) + multiset(results[j..]);
    assert multiset(results[..j])[results[i]] >= 1 && multiset(results[j..])[results[i]] >= 1;
  }

  lemma {:induction false} OncePresent(s: seq<(Bytes, real)>, p: (Bytes, real))
    requires forall i, j | 0 <= i < j < |s| :: s[i].0 != s[j].0
    ensures multiset(s)[p] <= 1
  {
    if s != [] {
      OncePresent(s[1..], p);
      assert s == [s[0]] + s[1..];
      if p in s[1..] {
        var j :| 0 <= j < |s[1..]| && s[1..][j] == p;
        assert s[j + 1] == p;
      }
    }
  }

  lemma NoIdTwice(entries: seq<Entry>, q: Vec, results: seq<(Bytes, real)>, rest: seq<(Bytes, real)>, i: nat, j: nat)
    requires DistinctIds(entries) && multiset(results) + multiset(rest) == multiset(Scores(q, entries))
    requires i < j < |results|
    ensures results[i].0 != results[j].0
  {
    var all := Scores(q, entries);
    if results[i].0 == results[j].0 {
      assert results[i] in multiset(all) && results[j] in multiset(all);
      PairOrigin(entries, q, results[i]);
      PairOrigin(entries, q, results[j]);
      var e :| e in entries && e.traceId == results[i].0;
      assert results[i] == results[j];
      TwicePresent(results, i, j);
      ScoresUnique(entries, q, results[i].0, all);
      OncePresent(all, results[i]);
    }
  }

  /** The best k of the scored pairs are a right answer. */
  lemma TopKIsRight(entries: seq<Entry>, q: Vec, k: nat, results: seq<(Bytes, real)>)
    requires DistinctIds(entries) && IsTopK(results, Scores(q, entries), k)
    ensures RightAnswer(entries, q, k, results)
  {
    var all := Scores(q, entries);
    var rest: seq<(Bytes, real)> :| multiset(results) + multiset(rest) == multiset(all)
                                    && forall r, o | r in results && o in rest :: r.1 >= o.1;
    forall i, j | 0 <= i < j < |results| ensures results[i].0 != results[j].0 {
      NoIdTwice(entries, q, results, rest, i, j);
    }
    forall r | r in results ensures r in all {
      assert r in multiset(all);
    }
    forall r | r in results ensures HasId(entries, r.0) {
      PairOrigin(entries, q, r);
    }
    forall r, e, v | r in results && e in entries && e.traceId == r.0 && Coded(e, v, |q|)
      ensures r.1 == Cosine(v, q) * e.weight
    {
      PairOrigin(entries, q, r);
      ScoreIsDeserved(e, v, q);
    }
    forall r, e, v | r in results && e in entries && !Listed(results, e.traceId) && Coded(e, v, |q|)
      ensures Cosine(v, q) * e.weight <= r.1
    {
      LeftOut(entries, q, results, rest, e);
      ScoreIsDeserved(e, v, q);
    }
  }

  lemma LeftOut(entries: seq<Entry>, q: Vec, results: seq<(Bytes, real)>, rest: seq<(Bytes, real)>, e: Entry)
    requires multiset(results) + multiset(rest) == multiset(Scores(q, entries))
    requires e in entries && !Listed(results, e.traceId)
    ensures (e.traceId, Score(q, e)) in rest
  {
    var p := (e.traceId, Score(q, e));
    ScoredEntry(entries, q, e);
    assert p in multiset(Scores(q, entries));
    assert p !in results;
    assert p in multiset(rest);
  }
}
