/** The memory a parent agent hands to a child: the whole pinned slot and its best working entries. */
module ChildClone {
  import opened Prelude
  import opened Sorting
  import opened BitCodes
  import opened PinnedSlot
  import opened PinnedLayout
  import opened MemoryStore
  import opened MemoryLaws
  import opened MemoryServices

  /** The sort key (-weight, -last_decay_ts, trace_id). */
  function Precedes(): (Entry, Entry) -> bool {
    (x: Entry, y: Entry) =>
      x.weight > y.weight
      || (x.weight == y.weight
          && (x.lastDecay > y.lastDecay || (x.lastDecay == y.lastDecay && BytesLe(x.traceId, y.traceId))))
  }

  function PinnedEntries(entries: seq<Entry>): seq<Entry> {
    Filter(entries, (e: Entry) => e.pinned)
  }

  function WorkingEntries(entries: seq<Entry>): seq<Entry> {
    Filter(entries, (e: Entry) => !e.pinned)
  }

  /** The first `cap` working entries in sort order; a cap that is not positive takes none. */
  function Inherited(entries: seq<Entry>, cap: int): seq<Entry> {
    var working := Sort(WorkingEntries(entries), Precedes());
    if cap <= 0 then [] else if cap < |working| then working[..cap] else working
  }

  function Cloned(st: Store, cap: int): Store {
    st.(entries := PinnedEntries(st.entries) + Inherited(st.entries, cap))
  }

  /** First loop: every pinned entry, verbatim. */
  method CopyPinned(child: MemoryService, es: seq<Entry>)
    requires DistinctIds(es) && child.entries == []
    modifies child`entries
    ensures child.entries == PinnedEntries(es)
  {
    var i := 0;
    while i < |es|
      invariant 0 <= i <= |es| && child.entries == PinnedEntries(es[..i])
    {
      assert es[..i + 1] == es[..i] + [es[i]];
      FilterAppend(es[..i], [es[i]], (e: Entry) => e.pinned);
      if es[i].pinned {
        FilteredIdsAreNew(es, i);
        PutNew(child.entries, es[i]);
        child.entries := Put(child.entries, es[i]);
      }
      i := i + 1;
    }
    assert es[..i] == es;
  }

  /** Second loop: the chosen working entries, verbatim. */
  method CopyWorking(child: MemoryService, top: seq<Entry>)
    requires DistinctIds(child.entries + top)
    modifies child`entries
    ensures child.entries == old(child.entries) + top
  {
    ghost var all := child.entries + top;
    ghost var n := |child.entries|;
    var w := 0;
    while w < |top|
      invariant 0 <= w <= |top| && child.entries == all[..n + w]
    {
      assert top[w] == all[n + w];
      PutNew(child.entries, top[w]);
      child.entries := Put(child.entries, top[w]);
      w := w + 1;
    }
    assert all[..n + w] == all;
  }

  method CloneMemoryForChild(parent: MemoryService, workingCap: int) returns (child: MemoryService)
    requires Valid(parent.View())
    ensures fresh(child) && child.env == parent.env
    ensures child.View() == Cloned(parent.View(), workingCap)
  {
    child := new MemoryService(parent.env, parent.dim, parent.factors, parent.seed);
    if parent.centroid.Some? {
      child.centroid := parent.centroid;
    }
    CopyPinned(child, parent.entries);
    var working := Sort(WorkingEntries(parent.entries), Precedes());
    CloneIsDictionary(parent.View(), workingCap);
    if workingCap > 0 {
      CopyWorking(child, if workingCap < |working| then working[..workingCap] else working);
    }
  }

  lemma FilteredIdsAreNew(es: seq<Entry>, i: nat)
    requires DistinctIds(es) && i < |es|
    ensures !HasId(PinnedEntries(es[..i]), es[i].traceId)
  {
    FilterMembers(es[..i], (e: Entry) => e.pinned);
    forall e | e in PinnedEntries(es[..i]) ensures e.traceId != es[i].traceId {
      var j :| 0 <= j < i && es[..i][j] == e;
    }
  }

  // ---- Facts about the two parts ----

  lemma PrecedesIsTotalPreorder()
    ensures TotalPreorder(Precedes())
  {
    var le := Precedes();
    forall x, y ensures le(x, y) || le(y, x) {
      BytesLeTotal(x.traceId, y.traceId);
    }
    forall x, y, z | le(x, y) && le(y, z) ensures le(x, z) {
      if BytesLe(x.traceId, y.traceId) && BytesLe(y.traceId, z.traceId) {
        BytesLeTransitive(x.traceId, y.traceId, z.traceId);
      }
    }
  }

  lemma {:induction false} FilterDistinct(entries: seq<Entry>, p: Entry -> bool)
    requires DistinctIds(entries)
    ensures DistinctIds(Filter(entries, p))
  {
    if entries != [] {
      FilterDistinct(entries[1..], p);
      FilterMembers(entries[1..], p);
      var tail := Filter(entries[1..], p);
      forall i | 0 <= i < |tail| ensures tail[i].traceId != entries[0].traceId {
        assert tail[i] in tail && tail[i] in entries[1..];
      }
    }
  }

  lemma {:induction false} CountOf(s: seq<Entry>, e: Entry)
    requires DistinctIds(s)
    ensures multiset(s)[e] == if e in s then 1 else 0
  {
    if s != [] {
      CountOf(s[1..], e);
      assert s == [s[0]] + s[1..];
    }
  }

  lemma DistinctPermutation(a: seq<Entry>, b: seq<Entry>)
    requires DistinctIds(a) && multiset(a) == multiset(b)
    ensures DistinctIds(b)
  {
    forall i, j | 0 <= i < j < |b| ensures b[i].traceId != b[j].traceId {
      assert b[i] in multiset(a) && b[j] in multiset(a);
      var k :| 0 <= k < |a| && a[k] == b[i];
      var l :| 0 <= l < |a| && a[l] == b[j];
      CountOf(a, b[i]);
      assert b == b[..j] + [b[j]] + b[j + 1..];
      assert b[..j][i] == b[i];
      assert multiset(b[..j])[b[i]] >= 1;
    }
  }

  /** Working entries sorted: the same entries, each once, in the order of the key. */
  lemma WorkingSorted(entries: seq<Entry>)
    requires DistinctIds(entries)
    ensures var working := Sort(WorkingEntries(entries), Precedes());
            && Sorted(working, Precedes()) && DistinctIds(working)
            && |working| == |WorkingEntries(entries)|
            && forall e :: e in working <==> e in entries && !e.pinned
  {
    var p := (e: Entry) => !e.pinned;
    PrecedesIsTotalPreorder();
    SortSpec(WorkingEntries(entries), Precedes());
    FilterMembers(entries, p);
    FilterDistinct(entries, p);
    DistinctPermutation(WorkingEntries(entries), Sort(WorkingEntries(entries), Precedes()));
  }

  /** No id is inherited twice and nothing is invented. */
  lemma CloneIsDictionary(st: Store, cap: int)
    requires DistinctIds(st.entries)
    ensures DistinctIds(Cloned(st, cap).entries)
    ensures forall e | e in Cloned(st, cap).entries :: e in st.entries
    ensures forall e | e in Inherited(st.entries, cap) :: !e.pinned
  {
    var pinned, top := PinnedEntries(st.entries), Inherited(st.entries, cap);
    WorkingSorted(st.entries);
    FilterMembers(st.entries, (e: Entry) => e.pinned);
    FilterDistinct(st.entries, (e: Entry) => e.pinned);
    forall i, j | 0 <= i < |pinned| && 0 <= j < |top| ensures pinned[i].traceId != top[j].traceId {
      assert pinned[i] in pinned && top[j] in top;
      DifferentEntries(st.entries, pinned[i], top[j]);
    }
  }

  lemma DifferentEntries(entries: seq<Entry>, x: Entry, y: Entry)
    requires DistinctIds(entries) && x in entries && y in entries && x != y
    ensures x.traceId != y.traceId
  {
    var k :| 0 <= k < |entries| && entries[k] == x;
    var l :| 0 <= l < |entries| && entries[l] == y;
  }

  // ---- What the child gets ----

  lemma {:induction false} PinnedOfFiltered(entries: seq<Entry>)
    ensures Pinned(PinnedEntries(entries)) == Pinned(entries)
  {
    if entries != [] {
      PinnedOfFiltered(entries[1..]);
      PinnedAppend(if entries[0].pinned then [entries[0]] else [], PinnedEntries(entries[1..]));
    }
  }

  lemma {:induction false} NothingPinned(entries: seq<Entry>)
    requires forall e | e in entries :: !e.pinned
    ensures Pinned(entries) == []
  {
    if entries != [] {
      NothingPinned(entries[1..]);
    }
  }

  /** The child has the parent's pinned root and satisfies the store invariant. */
  lemma CloneKeepsRoot(env: Platform, st: Store, cap: int)
    requires Valid(st)
    ensures Valid(Cloned(st, cap)) && StoreRoot(env, Cloned(st, cap)) == StoreRoot(env, st)
  {
    CloneIsDictionary(st, cap);
    PinnedOfFiltered(st.entries);
    NothingPinned(Inherited(st.entries, cap));
    PinnedAppend(PinnedEntries(st.entries), Inherited(st.entries, cap));
    assert Pinned(st.entries) + [] == Pinned(st.entries);
    if Cloned(st, cap).entries != [] {
      assert Cloned(st, cap).entries[0] in st.entries;
    }
  }

  /** Exactly min(cap, n) working entries are inherited, each of them strictly before every one left behind. */
  lemma InheritsTheBest(st: Store, cap: int)
    requires DistinctIds(st.entries)
    ensures |Inherited(st.entries, cap)| ==
            var n := |WorkingEntries(st.entries)|; if cap <= 0 then 0 else if cap < n then cap else n
    ensures forall e, o | e in Inherited(st.entries, cap) && o in WorkingEntries(st.entries)
                          && o !in Inherited(st.entries, cap) :: Precedes()(e, o) && !Precedes()(o, e)
  {
    WorkingSorted(st.entries);
    FilterMembers(st.entries, (e: Entry) => !e.pinned);
    var working, top := Sort(WorkingEntries(st.entries), Precedes()), Inherited(st.entries, cap);
    var rest := working[|top|..];
    assert working == top + rest;
    forall e, o | e in top && o in WorkingEntries(st.entries) && o !in top
      ensures Precedes()(e, o) && !Precedes()(o, e)
    {
      assert o in working;
      assert o in rest;
      PrefixPrecedes(top, rest, e, o);
    }
  }

  /** Heavier, or as heavy and stamped later, or as both and of a smaller id. */
  ghost predicate Sooner(e: Entry, o: Entry) {
    || e.weight > o.weight
    || (e.weight == o.weight && e.lastDecay > o.lastDecay)
    || (e.weight == o.weight && e.lastDecay == o.lastDecay && Before(e.traceId, o.traceId))
  }

  /**
    The child holds entries of the parent only: every pinned one, and as many working ones as the cap allows, each
    sooner than any left behind; nothing is left behind while there is room.
   */
  lemma ChildHoldsTheHeaviest(st: Store, cap: int)
    requires DistinctIds(st.entries)
    ensures var child := Cloned(st, cap).entries;
            && (forall e | e in child :: e in st.entries)
            && (forall e | e in st.entries && e.pinned :: e in child)
            && (forall e, o | e in child && !e.pinned && o in st.entries && !o.pinned && o !in child :: Sooner(e, o))
            && ((exists o :: o in st.entries && o !in child) ==>
                  |Inherited(st.entries, cap)| == (if cap > 0 then cap else 0))
  {
    var child, top := Cloned(st, cap).entries, Inherited(st.entries, cap);
    CloneIsDictionary(st, cap);
    InheritsTheBest(st, cap);
    WorkingSorted(st.entries);
    FilterMembers(st.entries, (e: Entry) => e.pinned);
    FilterMembers(st.entries, (e: Entry) => !e.pinned);
    forall e, o | e in child && !e.pinned && o in st.entries && !o.pinned && o !in child ensures Sooner(e, o) {
      assert e in top && o !in top && o in WorkingEntries(st.entries);
      StrictlyPrecedes(e, o);
    }
    if o :| o in st.entries && o !in child {
      assert o in WorkingEntries(st.entries) && o !in top;
    }
  }

  lemma StrictlyPrecedes(e: Entry, o: Entry)
    requires Precedes()(e, o) && !Precedes()(o, e)
    ensures Sooner(e, o)
  {
    if e.weight == o.weight && e.lastDecay == o.lastDecay {
      LeIsBefore(e.traceId, o.traceId);
    }
  }

  lemma PrefixPrecedes(top: seq<Entry>, rest: seq<Entry>, e: Entry, o: Entry)
    requires Sorted(top + rest, Precedes()) && DistinctIds(top + rest)
    requires e in top && o in rest
    ensures Precedes()(e, o) && !Precedes()(o, e)
  {
    var all := top + rest;
    var i :| 0 <= i < |top| && top[i] == e;
    var j :| 0 <= j < |rest| && rest[j] == o;
    assert all[i] == e && all[|top| + j] == o;
    assert Precedes()(all[i], all[|top| + j]);
    BytesLeTotal(e.traceId, o.traceId);
  }

  lemma WorkingMultiset(a: seq<Entry>, b: seq<Entry>)
    requires DistinctIds(a) && DistinctIds(b) && multiset(a) == multiset(b)
    ensures multiset(Sort(WorkingEntries(a), Precedes())) == multiset(Sort(WorkingEntries(b), Precedes()))
  {
    WorkingSorted(a);
    WorkingSorted(b);
    var wa, wb := Sort(WorkingEntries(a), Precedes()), Sort(WorkingEntries(b), Precedes());
    forall e ensures multiset(wa)[e] == multiset(wb)[e] {
      CountOf(wa, e);
      CountOf(wb, e);
      assert e in a <==> e in multiset(a);
      assert e in b <==> e in multiset(b);
    }
  }

  lemma NoTies(s: seq<Entry>)
    requires DistinctIds(s)
    ensures forall x, y | x in s && y in s && Precedes()(x, y) && Precedes()(y, x) :: x == y
  {
    forall x, y | x in s && y in s && Precedes()(x, y) && Precedes()(y, x) ensures x == y {
      BytesLeTotal(x.traceId, y.traceId);
      if x != y {
        DifferentEntries(s, x, y);
      }
    }
  }

  /** What is inherited does not depend on the order of the parent's map. */
  lemma InheritanceIgnoresOrder(a: seq<Entry>, b: seq<Entry>, cap: int)
    requires DistinctIds(a) && multiset(a) == multiset(b)
    ensures Inherited(a, cap) == Inherited(b, cap)
  {
    DistinctPermutation(a, b);
    WorkingMultiset(a, b);
    SameWorkingOrder(a, b);
  }

  lemma SameWorkingOrder(a: seq<Entry>, b: seq<Entry>)
    requires DistinctIds(a) && DistinctIds(b)
    requires multiset(Sort(WorkingEntries(a), Precedes())) == multiset(Sort(WorkingEntries(b), Precedes()))
    ensures Sort(WorkingEntries(a), Precedes()) == Sort(WorkingEntries(b), Precedes())
  {
    WorkingSorted(a);
    WorkingSorted(b);
    var wa := Sort(WorkingEntries(a), Precedes());
    NoTies(wa);
    SortedUnique(wa, Sort(WorkingEntries(b), Precedes()), Precedes());
  }

  lemma ScoresOfSubset(q: Vec, some: seq<Entry>, all: seq<Entry>)
    requires forall e | e in some :: e in all
    ensures forall p | p in Scores(q, some) :: p in Scores(q, all)
  {
    forall p | p in Scores(q, some) ensures p in Scores(q, all) {
      var i :| 0 <= i < |some| && Scores(q, some)[i] == p;
      assert some[i] in all;
      var j :| 0 <= j < |all| && all[j] == some[i];
      assert Scores(q, all)[j] == p;
    }
  }

  lemma ScoreOfInherited(q: Vec, some: seq<Entry>, all: seq<Entry>, p: (Bytes, real))
    requires DistinctIds(all) && (forall e | e in some :: e in all)
    requires p in Scores(q, all) && HasId(some, p.0)
    ensures p in Scores(q, some)
  {
    var j :| 0 <= j < |all| && Scores(q, all)[j] == p;
    var e :| e in some && e.traceId == p.0;
    var i :| 0 <= i < |some| && some[i] == e;
    var l :| 0 <= l < |all| && all[l] == e;
    assert l == j;
    assert Scores(q, some)[i] == p;
  }

  /**
    The child's rotated query is the parent's, every score it knows is the parent's score of the same id, and a best
    answer of the parent that was inherited is still a best answer of the child.
   */
  lemma InheritedTopHit(env: Platform, st: Store, cap: int, vec: Vec, k: nat,
                        atParent: seq<(Bytes, real)>, atChild: seq<(Bytes, real)>)
    requires Valid(st) && |vec| == st.dim && k > 0
    requires var q := Encode(env, st.dim, st.seed, Centre(st), vec).rotated;
             IsTopK(atParent, Scores(q, st.entries), k)
    requires var child := Cloned(st, cap);
             var q := Encode(env, child.dim, child.seed, Centre(child), vec).rotated;
             IsTopK(atChild, Scores(q, child.entries), k)
    ensures var q := Encode(env, st.dim, st.seed, Centre(st), vec).rotated;
            forall p | p in Scores(q, Cloned(st, cap).entries) :: p in Scores(q, st.entries)
    ensures atParent != [] && HasId(Cloned(st, cap).entries, atParent[0].0) ==>
              atChild != [] && atChild[0].1 == atParent[0].1
  {
    var child := Cloned(st, cap);
    var q := Encode(env, st.dim, st.seed, Centre(st), vec).rotated;
    var all, some := Scores(q, st.entries), Scores(q, child.entries);
    CloneIsDictionary(st, cap);
    ScoresOfSubset(q, child.entries, st.entries);
    if atParent != [] && HasId(child.entries, atParent[0].0) {
      TopIsBest(atParent, all, k);
      TopIsBest(atChild, some, k);
      ScoreOfInherited(q, child.entries, st.entries, atParent[0]);
    }
  }

  lemma TopIsBest(results: seq<(Bytes, real)>, scored: seq<(Bytes, real)>, k: nat)
    requires IsTopK(results, scored, k) && k > 0
    ensures scored != [] ==> results != []
    ensures results != [] ==> results[0] in scored && forall p | p in scored :: p.1 <= results[0].1
  {
    if results != [] {
      var rest: seq<(Bytes, real)> :| multiset(results) + multiset(rest) == multiset(scored)
                  && forall r, o | r in results && o in rest :: r.1 >= o.1;
      assert results[0] in multiset(scored);
      forall p | p in scored ensures p.1 <= results[0].1 {
        assert p in multiset(scored);
        assert p in results || p in rest by {
          assert p in multiset(results) || p in multiset(rest);
        }
      }
    }
  }
}
