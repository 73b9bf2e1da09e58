/** What the pinned Merkle root commits to: the pinned records, whatever the order they are stored in. */
module PinnedSlot {
  import opened Prelude
  import opened Sorting
  import opened Merkle

  /** The part of a pinned entry that enters its leaf. Ids are UTF-8 and payloads are canonical JSON, as bytes. */
  datatype Record = Record(traceId: Bytes, code: Bytes, payload: Bytes)

  /** Lexicographic order of ids: code-point order on strings is byte order on their UTF-8 forms. */
  predicate BytesLe(a: Bytes, b: Bytes) {
    if a == [] then true
    else if b == [] then false
    else if a[0] != b[0] then a[0] < b[0]
    else BytesLe(a[1..], b[1..])
  }

  function ById(): (Record, Record) -> bool {
    (x: Record, y: Record) => BytesLe(x.traceId, y.traceId)
  }

  /** The bytes hashed into a leaf: id, NUL, code, NUL, payload. */
  function LeafInput(r: Record): Bytes {
    r.traceId + [0] + r.code + [0] + r.payload
  }

  function Leaves(hash: Hash, records: seq<Record>): (leaves: seq<Digest>)
    ensures |leaves| == |records|
  {
    seq<Digest>(|records|, i requires 0 <= i < |records| => hash(LeafInput(records[i])))
  }

  /** `pinned_merkle_root` as a function of the pinned records in storage order. */
  function PinnedRoot(hash: Hash, records: seq<Record>): Digest {
    var sorted := Sort(records, ById());
    if sorted == [] then hash([]) else Root(hash, Leaves(hash, sorted))
  }

  ghost predicate UniqueIds(records: seq<Record>) {
    forall i, j | 0 <= i < j < |records| :: records[i].traceId != records[j].traceId
  }

  ghost predicate SameRecords(a: seq<Record>, b: seq<Record>) {
    forall r :: r in a <==> r in b
  }

  lemma {:induction false} BytesLeTotal(a: Bytes, b: Bytes)
    ensures BytesLe(a, b) || BytesLe(b, a)
    ensures BytesLe(a, b) && BytesLe(b, a) ==> a == b
  {
    if a != [] && b != [] {
      BytesLeTotal(a[1..], b[1..]);
      assert a == [a[0]] + a[1..] && b == [b[0]] + b[1..];
    }
  }

  lemma {:induction false} BytesLeTransitive(a: Bytes, b: Bytes, c: Bytes)
    requires BytesLe(a, b) && BytesLe(b, c)
    ensures BytesLe(a, c)
  {
    if a != [] && a[0] == b[0] == c[0] {
      BytesLeTransitive(a[1..], b[1..], c[1..]);
    }
  }

  lemma ByIdIsTotalPreorder()
    ensures TotalPreorder(ById())
  {
    var le := ById();
    forall x, y ensures le(x, y) || le(y, x) {
      BytesLeTotal(x.traceId, y.traceId);
    }
    forall x, y, z | le(x, y) && le(y, z) ensures le(x, z) {
      BytesLeTransitive(x.traceId, y.traceId, z.traceId);
    }
  }

  lemma {:induction false} UniqueCounts(s: seq<Record>, r: Record)
    requires UniqueIds(s)
    ensures multiset(s)[r] == if r in s then 1 else 0
  {
    if s != [] {
      UniqueCounts(s[1..], r);
      assert s == [s[0]] + s[1..];
    }
  }

  /** The root depends only on which records are pinned: storage order, and so insertion order, does not matter. */
  lemma RootIgnoresOrder(hash: Hash, a: seq<Record>, b: seq<Record>)
    requires UniqueIds(a) && UniqueIds(b) && SameRecords(a, b)
    ensures PinnedRoot(hash, a) == PinnedRoot(hash, b)
  {
    forall r ensures multiset(a)[r] == multiset(b)[r] {
      UniqueCounts(a, r);
      UniqueCounts(b, r);
    }
    assert multiset(a) == multiset(b);
    ByIdIsTotalPreorder();
    SortSpec(a, ById());
    SortSpec(b, ById());
    var sa := Sort(a, ById());
    forall x, y | x in sa && y in sa && ById()(x, y) && ById()(y, x) ensures x == y {
      BytesLeTotal(x.traceId, y.traceId);
      assert x in a && y in a;
      var i :| 0 <= i < |a| && a[i] == x;
      var j :| 0 <= j < |a| && a[j] == y;
    }
    SortedUnique(sa, Sort(b, ById()), ById());
  }

  // ---- Binding ----

  /** Every byte string hashed while the root is computed. */
  function HashInputs(hash: Hash, records: seq<Record>): set<Bytes> {
    var sorted := Sort(records, ById());
    if sorted == [] then {[]}
    else (set r | r in sorted :: LeafInput(r)) + NodeInputs(hash, Leaves(hash, sorted))
  }

  ghost predicate NulFree(records: seq<Record>) {
    forall r | r in records :: (0 as byte) !in r.traceId
  }

  ghost predicate CodesOfLength(records: seq<Record>, n: nat) {
    forall r | r in records :: |r.code| == n
  }

  /** Where the first NUL of a leaf input is, hence what its three parts are. */
  lemma LeafInputInjective(x: Record, y: Record)
    requires LeafInput(x) == LeafInput(y) && |x.code| == |y.code|
    requires (0 as byte) !in x.traceId && (0 as byte) !in y.traceId
    ensures x == y
  {
    var s, n, m := LeafInput(x), |x.traceId|, |y.traceId|;
    assert s[n] == 0 && s[m] == 0;
    assert s[..n] == x.traceId && s[..m] == y.traceId;
    assert forall i | 0 <= i < n :: s[i] == x.traceId[i] != 0;
    assert forall i | 0 <= i < m :: s[i] == y.traceId[i] != 0;
    assert n == m;
    var k := n + 1 + |x.code|;
    assert s[n + 1..k] == x.code && s[n + 1..k] == y.code;
    assert s[k + 1..] == x.payload && s[k + 1..] == y.payload;
  }

  /** The root of an empty slot is the digest of the empty string, which nothing else on the way hashes. */
  lemma EmptyBinds(hash: Hash, b: seq<Record>, inputs: set<Bytes>)
    requires b != [] && PinnedRoot(hash, b) == hash([])
    requires [] in inputs && HashInputs(hash, b) <= inputs
    ensures Collides(hash, inputs)
  {
    ByIdIsTotalPreorder();
    SortSpec(b, ById());
    var sorted := Sort(b, ById());
    var leaves := Leaves(hash, sorted);
    assert LeafInput(sorted[0]) in inputs;
    if |leaves| > 1 {
      var top, x := RootIsAHash(hash, leaves);
      assert x in inputs && x != [];
    }
  }

  lemma {:induction false} RootIsAHash(hash: Hash, layer: seq<Digest>) returns (top: Digest, x: Bytes)
    requires |layer| > 1
    ensures x in NodeInputs(hash, layer) && |x| == 64 && Root(hash, layer) == hash(x) == top
    decreases |layer|
  {
    var next := Parents(hash, layer);
    PairsAreInputs(hash, layer);
    if |next| == 1 {
      x := PairInput(layer, 0);
      top := next[0];
    } else {
      top, x := RootIsAHash(hash, next);
    }
  }

  function LeafStrings(records: seq<Record>): (r: seq<Bytes>)
    ensures |r| == |records|
  {
    seq(|records|, i requires 0 <= i < |records| => LeafInput(records[i]))
  }

  /**
    The leaf strings of the lower tree, in id order, are byte for byte the strings hashed for the layer of the higher
    tree that lies at the difference of the heights.
   */
  ghost predicate LeavesReadAsLayer(hash: Hash, low: seq<Record>, high: seq<Record>) {
    && low != []
    && exists d: nat :: Height(|low|) + d + 1 == Height(|high|)
                        && LeafStrings(Sort(low, ById())) == StringsAbove(hash, high, d)
  }

  /** The strings hashed for the nodes right above the d-th layer of a slot's tree. */
  function StringsAbove(hash: Hash, records: seq<Record>, d: nat): seq<Bytes> {
    NodeStrings(Up(hash, Leaves(hash, Sort(records, ById())), d))
  }

  lemma LeavesDistinct(hash: Hash, s: seq<Record>, n: nat, inputs: set<Bytes>)
    requires NulFree(s) && UniqueIds(s) && CodesOfLength(s, n) && !Collides(hash, inputs)
    requires forall r | r in s :: LeafInput(r) in inputs
    ensures AllDistinct(Leaves(hash, s))
  {
    forall i, j | 0 <= i < j < |s| ensures Leaves(hash, s)[i] != Leaves(hash, s)[j] {
      assert s[i] in s && s[j] in s;
      if LeafInput(s[i]) == LeafInput(s[j]) {
        LeafInputInjective(s[i], s[j]);
      }
    }
  }

  lemma LeavesInjective(hash: Hash, a: seq<Record>, b: seq<Record>, n: nat, inputs: set<Bytes>)
    requires NulFree(a) && NulFree(b) && CodesOfLength(a, n) && CodesOfLength(b, n) && !Collides(hash, inputs)
    requires forall r | r in a || r in b :: LeafInput(r) in inputs
    requires Leaves(hash, a) == Leaves(hash, b)
    ensures a == b
  {
    assert |a| == |Leaves(hash, a)| == |b|;
    forall i | 0 <= i < |a| ensures a[i] == b[i] {
      assert a[i] in a && b[i] in b;
      assert Leaves(hash, a)[i] == hash(LeafInput(a[i])) && Leaves(hash, b)[i] == hash(LeafInput(b[i]));
      LeafInputInjective(a[i], b[i]);
    }
  }

  lemma SortedHasUniqueIds(s: seq<Record>)
    requires UniqueIds(s)
    ensures UniqueIds(Sort(s, ById()))
  {
    ByIdIsTotalPreorder();
    SortSpec(s, ById());
    var sorted := Sort(s, ById());
    forall i, j | 0 <= i < j < |sorted| ensures sorted[i].traceId != sorted[j].traceId {
      if sorted[i].traceId == sorted[j].traceId {
        assert sorted[i] in s && sorted[j] in s;
        UniqueCounts(s, sorted[i]);
        TwiceInMultiset(sorted, i, j);
      }
    }
  }

  lemma TwiceInMultiset(s: seq<Record>, i: nat, j: nat)
    requires i < j < |s| && s[i] == s[j]
    ensures multiset(s)[s[i]] >= 2
  {
    assert s == s[..j] + s[j..];
    assert s[..j][i] == s[i] && s[j..][0] == s[i];
    assert multiset(s) == multiset(s[..j]) + multiset(s[j..]);
    assert multiset(s[..j])[s[i]] >= 1 && multiset(s[j..])[s[i]] >= 1;
  }

  /** Then the trees have one root, collisions or not. */
  lemma ReadAsLayerSameRoot(hash: Hash, low: seq<Record>, high: seq<Record>)
    requires LeavesReadAsLayer(hash, low, high)
    ensures PinnedRoot(hash, low) == PinnedRoot(hash, high)
  {
    ByIdIsTotalPreorder();
    SortSpec(low, ById());
    SortSpec(high, ById());
    var sl, leaves := Sort(low, ById()), Leaves(hash, Sort(high, ById()));
    var d: nat :| Height(|low|) + d + 1 == Height(|high|) && LeafStrings(sl) == StringsAbove(hash, high, d);
    var prev := Up(hash, leaves, d);
    UpSnoc(hash, leaves, d + 1);
    forall i | 0 <= i < |sl| ensures Leaves(hash, sl)[i] == Parents(hash, prev)[i] {
      assert LeafStrings(sl)[i] == NodeStrings(prev)[i];
    }
    assert |LeafStrings(sl)| == |NodeStrings(prev)|;
    assert Leaves(hash, sl) == Parents(hash, prev);
    ClimbLayers(hash, leaves, d + 1);
  }

  /** Every string hashed for a layer of a tree is among all those hashed. */
  lemma LayerStringsAreInputs(hash: Hash, leaves: seq<Digest>, d: nat)
    requires leaves != [] && d < Height(|leaves|)
    ensures forall x | x in NodeStrings(Up(hash, leaves, d)) :: x in NodeInputs(hash, leaves)
  {
    ClimbLayers(hash, leaves, d);
    NodeStringsAreInputs(hash, Up(hash, leaves, d));
  }

  /** A slot in id order whose leaf strings and node strings are among inputs that do not collide. */
  ghost predicate CleanSlot(hash: Hash, sorted: seq<Record>, n: nat, inputs: set<Bytes>) {
    && NulFree(sorted) && CodesOfLength(sorted, n) && (forall r | r in sorted :: LeafInput(r) in inputs)
    && Clean(hash, Leaves(hash, sorted), inputs)
  }

  lemma SortedLeaves(hash: Hash, s: seq<Record>, n: nat, inputs: set<Bytes>)
    requires s != [] && NulFree(s) && UniqueIds(s) && CodesOfLength(s, n)
    requires HashInputs(hash, s) <= inputs && !Collides(hash, inputs)
    ensures var sorted := Sort(s, ById());
            && CleanSlot(hash, sorted, n, inputs) && |sorted| == |s| && (forall r :: r in sorted <==> r in s)
            && PinnedRoot(hash, s) == Root(hash, Leaves(hash, sorted))
  {
    ByIdIsTotalPreorder();
    SortSpec(s, ById());
    SortedHasUniqueIds(s);
    var sorted := Sort(s, ById());
    assert forall r | r in sorted :: LeafInput(r) in HashInputs(hash, s);
    LeavesDistinct(hash, sorted, n, inputs);
  }

  lemma LeavesAreDigests(hash: Hash, s: seq<Record>)
    ensures forall i | 0 <= i < |s| :: Leaves(hash, s)[i] == hash(LeafStrings(s)[i])
  {
  }

  /** Of two slots with one root, the leaf strings of the lower are a layer of the other. */
  lemma LayerStrings(hash: Hash, low: seq<Record>, leaves: seq<Digest>, n: nat, d: nat, inputs: set<Bytes>)
    requires CleanSlot(hash, low, n, inputs) && Clean(hash, leaves, inputs)
    requires Height(|low|) + d + 1 == Height(|leaves|) && Root(hash, Leaves(hash, low)) == Root(hash, leaves)
    ensures LeafStrings(low) == NodeStrings(Up(hash, leaves, d))
  {
    LowerTreeIsALayer(hash, Leaves(hash, low), leaves, d + 1, inputs);
    UpSnoc(hash, leaves, d + 1);
    LayerStringsAreInputs(hash, leaves, d);
    SameLayerSameStrings(hash, low, Up(hash, leaves, d), inputs);
  }

  lemma SameLayerSameStrings(hash: Hash, low: seq<Record>, prev: seq<Digest>, inputs: set<Bytes>)
    requires Leaves(hash, low) == Parents(hash, prev) && !Collides(hash, inputs)
    requires forall r | r in low :: LeafInput(r) in inputs
    requires forall x | x in NodeStrings(prev) :: x in inputs
    ensures LeafStrings(low) == NodeStrings(prev)
  {
    LeavesAreDigests(hash, low);
    ParentsAreDigests(hash, prev);
    assert |LeafStrings(low)| == |Leaves(hash, low)| == |NodeStrings(prev)|;
    SameDigests(hash, LeafStrings(low), NodeStrings(prev), inputs);
  }

  lemma LowerReadsAsLayer(hash: Hash, low: seq<Record>, high: seq<Record>, n: nat, inputs: set<Bytes>)
    requires NulFree(low) && NulFree(high) && UniqueIds(low) && UniqueIds(high)
    requires CodesOfLength(low, n) && CodesOfLength(high, n)
    requires low != [] && Height(|low|) < Height(|high|) && PinnedRoot(hash, low) == PinnedRoot(hash, high)
    requires HashInputs(hash, low) <= inputs && HashInputs(hash, high) <= inputs && !Collides(hash, inputs)
    ensures LeavesReadAsLayer(hash, low, high)
  {
    SortedLeaves(hash, low, n, inputs);
    SortedLeaves(hash, high, n, inputs);
    var sl, leaves, d := Sort(low, ById()), Leaves(hash, Sort(high, ById())), Height(|high|) - Height(|low|) - 1;
    assert |sl| == |low| && |leaves| == |high|;
    LayerStrings(hash, sl, leaves, n, d, inputs);
    assert LeafStrings(sl) == StringsAbove(hash, high, d);
  }

  lemma EqualHeightsBind(hash: Hash, a: seq<Record>, b: seq<Record>, n: nat, inputs: set<Bytes>)
    requires NulFree(a) && NulFree(b) && UniqueIds(a) && UniqueIds(b) && CodesOfLength(a, n) && CodesOfLength(b, n)
    requires a != [] && b != [] && Height(|a|) == Height(|b|) && PinnedRoot(hash, a) == PinnedRoot(hash, b)
    requires HashInputs(hash, a) <= inputs && HashInputs(hash, b) <= inputs && !Collides(hash, inputs)
    ensures SameRecords(a, b)
  {
    SortedLeaves(hash, a, n, inputs);
    SortedLeaves(hash, b, n, inputs);
    var sa, sb := Sort(a, ById()), Sort(b, ById());
    EqualRootsEqualLayers(hash, Leaves(hash, sa), Leaves(hash, sb), inputs);
    LeavesInjective(hash, sa, sb, n, inputs);
  }

  /**
    Binding, exactly. Slots with the same contents have one root, and so have slots of different heights where one's
    leaf strings are a layer of the other's tree; in any other case, equal roots exhibit two different strings among
    those hashed for them that share a digest.
   */
  lemma PinnedRootBinds(hash: Hash, a: seq<Record>, b: seq<Record>, codeLength: nat)
    requires NulFree(a) && NulFree(b) && UniqueIds(a) && UniqueIds(b)
    requires CodesOfLength(a, codeLength) && CodesOfLength(b, codeLength)
    ensures SameRecords(a, b) || LeavesReadAsLayer(hash, a, b) || LeavesReadAsLayer(hash, b, a) ==>
              PinnedRoot(hash, a) == PinnedRoot(hash, b)
    ensures PinnedRoot(hash, a) == PinnedRoot(hash, b) ==>
              || SameRecords(a, b) || LeavesReadAsLayer(hash, a, b) || LeavesReadAsLayer(hash, b, a)
              || Collides(hash, HashInputs(hash, a) + HashInputs(hash, b))
  {
    if SameRecords(a, b) {
      RootIgnoresOrder(hash, a, b);
    } else if LeavesReadAsLayer(hash, a, b) {
      ReadAsLayerSameRoot(hash, a, b);
    } else if LeavesReadAsLayer(hash, b, a) {
      ReadAsLayerSameRoot(hash, b, a);
    } else if PinnedRoot(hash, a) == PinnedRoot(hash, b) && !Collides(hash, HashInputs(hash, a) + HashInputs(hash, b)) {
      NothingElseBinds(hash, a, b, codeLength, HashInputs(hash, a) + HashInputs(hash, b));
    }
  }

  lemma NothingElseBinds(hash: Hash, a: seq<Record>, b: seq<Record>, n: nat, inputs: set<Bytes>)
    requires NulFree(a) && NulFree(b) && UniqueIds(a) && UniqueIds(b) && CodesOfLength(a, n) && CodesOfLength(b, n)
    requires PinnedRoot(hash, a) == PinnedRoot(hash, b)
    requires inputs == HashInputs(hash, a) + HashInputs(hash, b) && !Collides(hash, inputs)
    ensures SameRecords(a, b) || LeavesReadAsLayer(hash, a, b) || LeavesReadAsLayer(hash, b, a)
  {
    if a == [] {
      if b != [] {
        EmptyBinds(hash, b, inputs);
      }
    } else if b == [] {
      EmptyBinds(hash, a, inputs);
    } else if Height(|a|) == Height(|b|) {
      EqualHeightsBind(hash, a, b, n, inputs);
    } else if Height(|a|) < Height(|b|) {
      LowerReadsAsLayer(hash, a, b, n, inputs);
    } else {
      LowerReadsAsLayer(hash, b, a, n, inputs);
    }
  }

  /** Node strings are 64 bytes long, so slots of any two sizes bind unless every leaf string of one has that length. */
  lemma NoNodeSizedLeafBinds(hash: Hash, a: seq<Record>, b: seq<Record>, codeLength: nat)
    requires NulFree(a) && NulFree(b) && UniqueIds(a) && UniqueIds(b)
    requires CodesOfLength(a, codeLength) && CodesOfLength(b, codeLength)
    requires PinnedRoot(hash, a) == PinnedRoot(hash, b)
    requires a != [] ==> exists r | r in a :: |LeafInput(r)| != 64
    requires b != [] ==> exists r | r in b :: |LeafInput(r)| != 64
    ensures SameRecords(a, b) || Collides(hash, HashInputs(hash, a) + HashInputs(hash, b))
  {
    PinnedRootBinds(hash, a, b, codeLength);
    if LeavesReadAsLayer(hash, a, b) {
      ReadAsLayerIsNodeSized(hash, a, b);
    }
    if LeavesReadAsLayer(hash, b, a) {
      ReadAsLayerIsNodeSized(hash, b, a);
    }
  }

  lemma ReadAsLayerIsNodeSized(hash: Hash, low: seq<Record>, high: seq<Record>)
    requires LeavesReadAsLayer(hash, low, high)
    ensures forall r | r in low :: |LeafInput(r)| == 64
  {
    ByIdIsTotalPreorder();
    SortSpec(low, ById());
    var sl := Sort(low, ById());
    var d: nat :| LeafStrings(sl) == StringsAbove(hash, high, d);
    forall r | r in low ensures |LeafInput(r)| == 64 {
      var i :| 0 <= i < |sl| && sl[i] == r;
      assert LeafStrings(sl)[i] == LeafInput(r);
    }
  }

  lemma SortOne(r: Record)
    ensures Sort([r], ById()) == [r]
  {
    assert [r][1..] == [];
    assert Sort([r], ById()) == Insert(r, Sort([], ById()), ById());
  }

  lemma SortTwo(r: Record, s: Record)
    requires BytesLe(r.traceId, s.traceId)
    ensures Sort([r, s], ById()) == [r, s]
  {
    SortOne(s);
    assert [r, s][1..] == [s];
    assert Sort([r, s], ById()) == Insert(r, [s], ById()) == [r] + [s];
  }

  /** And the exception is real: one record whose leaf string is the join of two leaf digests has the root of those two. */
  lemma LeafAsNodeHasSameRoot(hash: Hash, r: Record, s1: Record, s2: Record)
    requires s1.traceId != s2.traceId && BytesLe(s1.traceId, s2.traceId)
    requires LeafInput(r) == Join(hash(LeafInput(s1)), hash(LeafInput(s2)))
    ensures PinnedRoot(hash, [r]) == PinnedRoot(hash, [s1, s2]) && !SameRecords([r], [s1, s2])
  {
    SortOne(r);
    SortTwo(s1, s2);
    var leaves := Leaves(hash, [s1, s2]);
    assert PairInput(leaves, 0) == Join(leaves[0], leaves[1]);
    assert Height(1) == 0 && Height(2) == 1 && Up(hash, leaves, 0) == leaves;
    assert LeafStrings([r]) == NodeStrings(leaves) == StringsAbove(hash, [s1, s2], 0);
    ReadAsLayerSameRoot(hash, [r], [s1, s2]);
    assert s1 in [s1, s2] && s2 in [s1, s2];
  }
}
