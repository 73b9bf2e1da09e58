/** The pinned root spelled out in bytes: which leaves there are, what each one hashes, and in which order. */
module PinnedLayout {
  import opened Prelude
  import opened Sorting
  import opened Merkle
  import opened PinnedSlot
  import opened MemoryStore
  import opened MemoryLaws

  /** x is before y from byte k on: they agree up to k, and there x ends or has the smaller byte. */
  predicate BeforeAt(x: Bytes, y: Bytes, k: nat) {
    && k <= |x| && k < |y| && x[..k] == y[..k]
    && (k == |x| || x[k] < y[k])
  }

  ghost predicate Before(x: Bytes, y: Bytes) {
    exists k: nat :: BeforeAt(x, y, k)
  }

  /** The bytes of a leaf, from the fields of its entry. */
  function LeafBytes(e: Entry): Bytes {
    e.traceId + [0] + e.code + [0] + e.payload
  }

  lemma {:induction false} BeforeIsLe(x: Bytes, y: Bytes, k: nat)
    requires BeforeAt(x, y, k)
    ensures BytesLe(x, y) && !BytesLe(y, x)
  {
    if k > 0 {
      assert x[0] == x[..k][0] == y[..k][0] == y[0];
      assert x[1..][..k - 1] == x[..k][1..] && y[1..][..k - 1] == y[..k][1..];
      assert BeforeAt(x[1..], y[1..], k - 1);
      BeforeIsLe(x[1..], y[1..], k - 1);
    }
  }

  ghost predicate InIdOrder(es: seq<Entry>) {
    forall i, j | 0 <= i < j < |es| :: Before(es[i].traceId, es[j].traceId)
  }

  function Records(es: seq<Entry>): (r: seq<Record>)
    ensures |r| == |es|
  {
    seq(|es|, i requires 0 <= i < |es| => RecordOf(es[i]))
  }

  lemma OrderedRecords(es: seq<Entry>)
    requires InIdOrder(es)
    ensures Sorted(Records(es), ById()) && UniqueIds(Records(es))
  {
    var rs := Records(es);
    forall i, j | 0 <= i < j < |rs| ensures ById()(rs[i], rs[j]) && rs[i].traceId != rs[j].traceId {
      var k: nat :| BeforeAt(es[i].traceId, es[j].traceId, k);
      BeforeIsLe(es[i].traceId, es[j].traceId, k);
    }
  }

  lemma SortOfOrdered(rs: seq<Record>)
    requires Sorted(rs, ById()) && UniqueIds(rs)
    ensures Sort(rs, ById()) == rs
  {
    ByIdIsTotalPreorder();
    SortSpec(rs, ById());
    var sorted := Sort(rs, ById());
    forall x, y | x in sorted && y in sorted && ById()(x, y) && ById()(y, x) ensures x == y {
      BytesLeTotal(x.traceId, y.traceId);
      var i :| 0 <= i < |rs| && rs[i] == x;
      var j :| 0 <= j < |rs| && rs[j] == y;
    }
    SortedUnique(sorted, rs, ById());
  }

  lemma SameSlot(entries: seq<Entry>, es: seq<Entry>)
    requires forall e :: e in es <==> e in entries && e.pinned
    ensures SameRecords(Pinned(entries), Records(es))
  {
    PinnedMembers(entries);
    forall r ensures r in Pinned(entries) <==> r in Records(es) {
      if r in Pinned(entries) {
        var e :| e in entries && e.pinned && RecordOf(e) == r;
        assert e in es;
        var i :| 0 <= i < |es| && es[i] == e;
        assert Records(es)[i] == r;
      }
      if r in Records(es) {
        var i :| 0 <= i < |es| && Records(es)[i] == r;
        assert es[i] in es;
      }
    }
  }

  /**
    The root of a store is the root over the digests of its pinned entries, taken in ascending byte order of their ids,
    each digest that of id, NUL, code, NUL and payload; of an empty slot it is the digest of nothing.
   */
  lemma RootLayout(env: Platform, st: Store, es: seq<Entry>, leaves: seq<Digest>)
    requires DistinctIds(st.entries) && InIdOrder(es) && forall e :: e in es <==> e in st.entries && e.pinned
    requires |leaves| == |es| && forall i | 0 <= i < |es| :: leaves[i] == env.sha256(LeafBytes(es[i]))
    ensures StoreRoot(env, st) == if es == [] then env.sha256([]) else Root(env.sha256, leaves)
  {
    var rs := Records(es);
    SameSlot(st.entries, es);
    PinnedUnique(st.entries);
    OrderedRecords(es);
    RootIgnoresOrder(env.sha256, Pinned(st.entries), rs);
    SortOfOrdered(rs);
    LeavesOf(env.sha256, es, leaves);
  }

  lemma LeavesOf(hash: Hash, es: seq<Entry>, leaves: seq<Digest>)
    requires |leaves| == |es| && forall i | 0 <= i < |es| :: leaves[i] == hash(LeafBytes(es[i]))
    ensures Leaves(hash, Records(es)) == leaves
  {
    forall i | 0 <= i < |es| ensures Leaves(hash, Records(es))[i] == leaves[i] {
      assert LeafInput(Records(es)[i]) == LeafBytes(es[i]);
    }
  }

  lemma {:induction false} LeIsBefore(x: Bytes, y: Bytes)
    requires BytesLe(x, y) && x != y
    ensures Before(x, y)
  {
    if x == [] || x[0] != y[0] {
      assert BeforeAt(x, y, 0);
    } else {
      assert x == [x[0]] + x[1..] && y == [y[0]] + y[1..];
      LeIsBefore(x[1..], y[1..]);
      var k: nat :| BeforeAt(x[1..], y[1..], k);
      assert x[..k + 1] == [x[0]] + x[1..][..k] && y[..k + 1] == [y[0]] + y[1..][..k];
      assert BeforeAt(x, y, k + 1);
    }
  }

  /** Every memory has such an order of its pinned entries. */
  lemma {:induction false} IdOrderExists(entries: seq<Entry>) returns (es: seq<Entry>)
    requires DistinctIds(entries)
    ensures InIdOrder(es) && forall e :: e in es <==> e in entries && e.pinned
  {
    if entries == [] {
      es := [];
    } else {
      var e := entries[0];
      var rest := IdOrderExists(entries[1..]);
      assert entries == [e] + entries[1..];
      es := rest;
      if e.pinned {
        es := InsertById(rest, e);
      }
    }
  }

  lemma {:induction false} InsertById(es: seq<Entry>, e: Entry) returns (r: seq<Entry>)
    requires InIdOrder(es) && forall x | x in es :: x.traceId != e.traceId
    ensures InIdOrder(r) && forall x :: x in r <==> x == e || x in es
  {
    if es == [] {
      r := [e];
    } else {
      BytesLeTotal(e.traceId, es[0].traceId);
      assert es[0] in es && es == [es[0]] + es[1..];
      if BytesLe(e.traceId, es[0].traceId) {
        LeIsBefore(e.traceId, es[0].traceId);
        r := [e] + es;
        forall j | 0 <= j < |es| ensures Before(e.traceId, es[j].traceId) {
          if j > 0 {
            BeforeTransitive(e.traceId, es[0].traceId, es[j].traceId);
          }
        }
      } else {
        LeIsBefore(es[0].traceId, e.traceId);
        var rest := InsertById(es[1..], e);
        r := [es[0]] + rest;
        forall j | 0 <= j < |rest| ensures Before(es[0].traceId, rest[j].traceId) {
          assert rest[j] in rest;
          if rest[j] != e {
            var i :| 0 <= i < |es[1..]| && es[1..][i] == rest[j];
            assert Before(es[0].traceId, es[i + 1].traceId);
          }
        }
      }
    }
  }

  lemma BeforeTransitive(x: Bytes, y: Bytes, z: Bytes)
    requires Before(x, y) && Before(y, z)
    ensures Before(x, z)
  {
    var k: nat :| BeforeAt(x, y, k);
    var l: nat :| BeforeAt(y, z, l);
    var m := if k < l then k else l;
    assert x[..m] == x[..k][..m] == y[..k][..m] == y[..m];
    assert y[..m] == y[..l][..m] == z[..l][..m] == z[..m];
    if k < l {
      assert y[k] == y[..l][k] == z[..l][k] == z[k];
    } else if l < k {
      assert x[l] == x[..k][l] == y[..k][l] == y[l];
    }
    assert BeforeAt(x, z, m);
  }

  /** Two pinned entries, stored in either order: the one with the smaller id is hashed on the left. */
  lemma RootOfTwo(env: Platform, st: Store, x: Entry, y: Entry, k: nat)
    requires st.entries == [x, y] || st.entries == [y, x]
    requires x.pinned && y.pinned && BeforeAt(x.traceId, y.traceId, k)
    ensures StoreRoot(env, st) ==
            env.sha256(Join(env.sha256(x.traceId + [0] + x.code + [0] + x.payload),
                            env.sha256(y.traceId + [0] + y.code + [0] + y.payload)))
  {
    var hash, es := env.sha256, [x, y];
    var left: Digest, right: Digest := hash(LeafBytes(x)), hash(LeafBytes(y));
    BeforeIsLe(x.traceId, y.traceId, k);
    assert Before(x.traceId, y.traceId);
    RootLayout(env, st, es, [left, right]);
    ParentsOfFew(hash, left, right);
    assert Root(hash, [left, right]) == Root(hash, Parents(hash, [left, right]));
  }
}
