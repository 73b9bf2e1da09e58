/**
  The Merkle tree over the pinned slot. The service rebuilds one layer at a time, repeating the last digest of an odd
  layer; `TreeHash` is the recursive tree that this is meant to be. `hash` stands for SHA-256.
 */
module Merkle {
  import opened Prelude

  type Digest = d: Bytes | |d| == 32 witness seq(32, _ => 0)

  type Hash = Bytes -> Digest

  function Join(left: Digest, right: Digest): (r: Bytes)
    ensures |r| == 64 && r[..32] == left && r[32..] == right
  {
    var l: Bytes, r: Bytes := left, right;
    l + r
  }

  /** The two digests hashed into node i of the next layer, the last one of an odd layer being its own partner. */
  function PairInput(layer: seq<Digest>, i: nat): Bytes
    requires 2 * i < |layer|
  {
    Join(layer[2 * i], layer[if 2 * i + 1 < |layer| then 2 * i + 1 else 2 * i])
  }

  function Parents(hash: Hash, layer: seq<Digest>): (next: seq<Digest>)
    ensures |next| == (|layer| + 1) / 2
  {
    seq<Digest>((|layer| + 1) / 2, i requires 0 <= i < (|layer| + 1) / 2 => hash(PairInput(layer, i)))
  }

  /** The fold of the while loop: one layer at a time until one digest is left. */
  function Root(hash: Hash, layer: seq<Digest>): Digest
    requires layer != []
    decreases |layer|
  {
    if |layer| == 1 then layer[0] else Root(hash, Parents(hash, layer))
  }

  /** The while loop itself, with its padding step and its inner loop over pairs. */
  method RootByLayers(hash: Hash, leaves: seq<Digest>) returns (root: Digest)
    requires leaves != []
    ensures root == Root(hash, leaves)
  {
    var layer := leaves;
    while |layer| > 1
      invariant layer != [] && Root(hash, layer) == Root(hash, leaves)
      decreases |layer|
    {
      ghost var before := layer;
      if |layer| % 2 == 1 {
        layer := layer + [layer[|layer| - 1]];
      }
      var next: seq<Digest> := [];
      var i := 0;
      while i < |layer|
        invariant 0 <= i <= |layer| && i % 2 == 0 && |next| == i / 2
        invariant forall j | 0 <= j < |next| :: next[j] == Parents(hash, before)[j]
      {
        assert Join(layer[i], layer[i + 1]) == PairInput(before, i / 2);
        next := next + [hash(Join(layer[i], layer[i + 1]))];
        i := i + 2;
      }
      assert next == Parents(hash, before);
      layer := next;
    }
    return layer[0];
  }

  // ---- The loop is the recursive duplicate-last tree ----

  function Height(n: nat): nat {
    if n <= 1 then 0 else 1 + Height((n + 1) / 2)
  }

  function Pow2(h: nat): (p: nat)
    ensures p > 0
  {
    if h == 0 then 1 else 2 * Pow2(h - 1)
  }

  /** The perfect binary tree of height h over the leaves, a missing right half being a copy of the left one. */
  function TreeHash(hash: Hash, leaves: seq<Digest>, h: nat): Digest
    requires 1 <= |leaves| <= Pow2(h)
    decreases h
  {
    if h == 0 then leaves[0]
    else if |leaves| <= Pow2(h - 1) then
      var left := TreeHash(hash, leaves, h - 1);
      hash(Join(left, left))
    else
      hash(Join(TreeHash(hash, leaves[..Pow2(h - 1)], h - 1), TreeHash(hash, leaves[Pow2(h - 1)..], h - 1)))
  }

  /** h layers up, a single digest being paired with itself as well. */
  function Up(hash: Hash, layer: seq<Digest>, h: nat): seq<Digest>
    decreases h
  {
    if h == 0 then layer else Up(hash, Parents(hash, layer), h - 1)
  }

  lemma UpSnoc(hash: Hash, layer: seq<Digest>, h: nat)
    requires h > 0
    ensures Up(hash, layer, h) == Parents(hash, Up(hash, layer, h - 1))
    decreases h
  {
    if h > 1 {
      UpSnoc(hash, Parents(hash, layer), h - 1);
    }
  }

  lemma ParentsAppend(hash: Hash, a: seq<Digest>, b: seq<Digest>)
    requires |a| % 2 == 0
    ensures Parents(hash, a + b) == Parents(hash, a) + Parents(hash, b)
  {
    var whole, halves := Parents(hash, a + b), Parents(hash, a) + Parents(hash, b);
    forall i | 0 <= i < |whole| ensures whole[i] == halves[i] {
      if i < |a| / 2 {
        assert PairInput(a + b, i) == PairInput(a, i);
      } else {
        assert PairInput(a + b, i) == PairInput(b, i - |a| / 2);
      }
    }
  }

  lemma UpAppend(hash: Hash, a: seq<Digest>, b: seq<Digest>, h: nat)
    requires |a| == Pow2(h)
    ensures Up(hash, a + b, h) == Up(hash, a, h) + Up(hash, b, h)
    decreases h
  {
    if h > 0 {
      ParentsAppend(hash, a, b);
      UpAppend(hash, Parents(hash, a), Parents(hash, b), h - 1);
    }
  }

  lemma ParentsOfFew(hash: Hash, l: Digest, r: Digest)
    ensures Parents(hash, [l]) == [hash(Join(l, l))]
    ensures Parents(hash, [l, r]) == [hash(Join(l, r))]
  {
    assert PairInput([l], 0) == Join(l, l);
    assert PairInput([l, r], 0) == Join(l, r);
  }

  lemma UpOfHalves(hash: Hash, leaves: seq<Digest>, h: nat, l: Digest, r: Digest)
    requires h > 0 && Pow2(h - 1) < |leaves| <= Pow2(h)
    requires Up(hash, leaves[..Pow2(h - 1)], h - 1) == [l]
    requires Up(hash, leaves[Pow2(h - 1)..], h - 1) == [r]
    ensures Up(hash, leaves, h) == [hash(Join(l, r))]
  {
    var half := Pow2(h - 1);
    UpSnoc(hash, leaves, h);
    assert leaves == leaves[..half] + leaves[half..];
    UpAppend(hash, leaves[..half], leaves[half..], h - 1);
    assert [l] + [r] == [l, r];
    ParentsOfFew(hash, l, r);
  }

  lemma UpOfSmall(hash: Hash, leaves: seq<Digest>, h: nat, l: Digest)
    requires h > 0 && Up(hash, leaves, h - 1) == [l]
    ensures Up(hash, leaves, h) == [hash(Join(l, l))]
  {
    UpSnoc(hash, leaves, h);
    ParentsOfFew(hash, l, l);
  }

  lemma {:induction false} UpIsTreeHash(hash: Hash, leaves: seq<Digest>, h: nat)
    requires 1 <= |leaves| <= Pow2(h)
    ensures Up(hash, leaves, h) == [TreeHash(hash, leaves, h)]
    decreases h
  {
    if h > 0 {
      var half := Pow2(h - 1);
      if |leaves| <= half {
        UpIsTreeHash(hash, leaves, h - 1);
        UpOfSmall(hash, leaves, h, TreeHash(hash, leaves, h - 1));
      } else {
        UpIsTreeHash(hash, leaves[..half], h - 1);
        UpIsTreeHash(hash, leaves[half..], h - 1);
        UpOfHalves(hash, leaves, h, TreeHash(hash, leaves[..half], h - 1), TreeHash(hash, leaves[half..], h - 1));
      }
    }
  }

  lemma {:induction false} RootIsUp(hash: Hash, layer: seq<Digest>)
    requires layer != []
    ensures [Root(hash, layer)] == Up(hash, layer, Height(|layer|)) && |layer| <= Pow2(Height(|layer|))
    decreases |layer|
  {
    if |layer| > 1 {
      RootIsUp(hash, Parents(hash, layer));
    }
  }

  /** Height(n) is the least height whose perfect tree has room for n leaves. */
  lemma {:induction false} HeightIsLeast(n: nat)
    ensures n <= Pow2(Height(n))
    ensures n > 1 ==> Height(n) > 0 && Pow2(Height(n) - 1) < n
  {
    if n > 1 {
      HeightIsLeast((n + 1) / 2);
    }
  }

  /** The loop computes the recursive tree of least height that holds all the leaves. */
  lemma RootIsTreeHash(hash: Hash, leaves: seq<Digest>)
    requires leaves != []
    ensures |leaves| <= Pow2(Height(|leaves|))
    ensures Root(hash, leaves) == TreeHash(hash, leaves, Height(|leaves|))
  {
    var h := Height(|leaves|);
    RootIsUp(hash, leaves);
    UpIsTreeHash(hash, leaves, h);
    assert [Root(hash, leaves)] == [TreeHash(hash, leaves, h)];
  }

  // ---- Binding ----

  /** Everything hashed above the leaves. */
  function NodeInputs(hash: Hash, layer: seq<Digest>): set<Bytes>
    requires layer != []
    decreases |layer|
  {
    if |layer| == 1 then {}
    else (set i | 0 <= i < (|layer| + 1) / 2 :: PairInput(layer, i)) + NodeInputs(hash, Parents(hash, layer))
  }

  ghost predicate Collides(hash: Hash, inputs: set<Bytes>) {
    exists x, y | x in inputs && y in inputs :: x != y && hash(x) == hash(y)
  }

  lemma PairsBind(hash: Hash, a: seq<Digest>, i: nat, b: seq<Digest>, j: nat, inputs: set<Bytes>)
    requires 2 * i < |a| && 2 * j < |b| && !Collides(hash, inputs)
    requires PairInput(a, i) in inputs && PairInput(b, j) in inputs
    requires hash(PairInput(a, i)) == hash(PairInput(b, j))
    ensures a[2 * i] in b && (2 * i + 1 < |a| ==> a[2 * i + 1] in b)
  {
    var x, y := PairInput(a, i), PairInput(b, j);
    assert x == y;
    assert x[..32] == y[..32] && x[32..] == y[32..];
  }

  lemma ParentsBind(hash: Hash, a: seq<Digest>, b: seq<Digest>, inputs: set<Bytes>)
    requires !Collides(hash, inputs)
    requires forall i: nat | 2 * i < |a| :: PairInput(a, i) in inputs
    requires forall j: nat | 2 * j < |b| :: PairInput(b, j) in inputs
    requires forall d :: d in Parents(hash, a) ==> d in Parents(hash, b)
    ensures forall d :: d in a ==> d in b
  {
    var pa, pb := Parents(hash, a), Parents(hash, b);
    forall k | 0 <= k < |a| ensures a[k] in b {
      var i := k / 2;
      assert pa[i] in pb;
      var j :| 0 <= j < |pb| && pb[j] == pa[i];
      assert pa[i] == hash(PairInput(a, i)) && pb[j] == hash(PairInput(b, j));
      PairsBind(hash, a, i, b, j, inputs);
    }
  }

  lemma PairsAreInputs(hash: Hash, layer: seq<Digest>)
    requires |layer| > 1
    ensures forall i: nat | 2 * i < |layer| :: PairInput(layer, i) in NodeInputs(hash, layer)
  {
  }

  /**
    Equal roots of two trees of the same height have the same leaves, or two different inputs hashed on the way
    share a digest.
   */
  lemma {:induction false} EqualRootsEqualLeaves(hash: Hash, a: seq<Digest>, b: seq<Digest>, inputs: set<Bytes>)
    requires a != [] && b != [] && Height(|a|) == Height(|b|)
    requires Root(hash, a) == Root(hash, b)
    requires NodeInputs(hash, a) <= inputs && NodeInputs(hash, b) <= inputs
    ensures Collides(hash, inputs) || forall d :: d in a <==> d in b
    decreases |a|
  {
    if |a| > 1 && !Collides(hash, inputs) {
      EqualRootsEqualLeaves(hash, Parents(hash, a), Parents(hash, b), inputs);
      PairsAreInputs(hash, a);
      PairsAreInputs(hash, b);
      ParentsBind(hash, a, b, inputs);
      ParentsBind(hash, b, a, inputs);
    }
  }

  /** d layers up, a tree has the same root and d layers less, and hashes nothing new. */
  lemma {:induction false} ClimbLayers(hash: Hash, layer: seq<Digest>, d: nat)
    requires layer != [] && d <= Height(|layer|)
    ensures var up := Up(hash, layer, d);
            && up != [] && Height(|up|) == Height(|layer|) - d && Root(hash, up) == Root(hash, layer)
            && NodeInputs(hash, up) <= NodeInputs(hash, layer)
    decreases d
  {
    if d > 0 {
      ClimbLayers(hash, Parents(hash, layer), d - 1);
    }
  }

  /** The strings hashed for the nodes above a layer, from left to right. */
  function NodeStrings(layer: seq<Digest>): (r: seq<Bytes>)
    ensures |r| == (|layer| + 1) / 2
  {
    seq((|layer| + 1) / 2, i requires 0 <= i < (|layer| + 1) / 2 => PairInput(layer, i))
  }

  ghost predicate AllDistinct(layer: seq<Digest>) {
    forall i, j | 0 <= i < j < |layer| :: layer[i] != layer[j]
  }

  /** A layer of distinct digests, everything above it hashed from inputs that do not collide. */
  ghost predicate Clean(hash: Hash, layer: seq<Digest>, inputs: set<Bytes>) {
    layer != [] && AllDistinct(layer) && HashedAbove(hash, layer, inputs) && !Collides(hash, inputs)
  }

  ghost predicate HashedAbove(hash: Hash, layer: seq<Digest>, inputs: set<Bytes>)
    requires layer != []
  {
    NodeInputs(hash, layer) <= inputs
  }

  lemma ParentsClean(hash: Hash, layer: seq<Digest>, inputs: set<Bytes>)
    requires |layer| > 1 && Clean(hash, layer, inputs)
    ensures Clean(hash, Parents(hash, layer), inputs)
  {
    var next := Parents(hash, layer);
    PairsAreInputs(hash, layer);
    forall i, j | 0 <= i < j < |next| ensures next[i] != next[j] {
      var x, y := PairInput(layer, i), PairInput(layer, j);
      assert x[..32] == layer[2 * i] && y[..32] == layer[2 * j];
      assert x in inputs && y in inputs && x != y;
    }
    assert NodeInputs(hash, next) <= NodeInputs(hash, layer);
  }

  lemma UpClean(hash: Hash, layer: seq<Digest>, d: nat, inputs: set<Bytes>)
    requires d <= Height(|layer|) && Clean(hash, layer, inputs)
    ensures Clean(hash, Up(hash, layer, d), inputs)
    decreases d
  {
    if d > 0 {
      ParentsClean(hash, layer, inputs);
    }
  }

  lemma SamePair(a: seq<Digest>, b: seq<Digest>, i: nat)
    requires 2 * i < |a| && 2 * i < |b| && AllDistinct(a) && AllDistinct(b) && PairInput(a, i) == PairInput(b, i)
    ensures a[2 * i] == b[2 * i] && (2 * i + 1 < |a| <==> 2 * i + 1 < |b|)
    ensures 2 * i + 1 < |a| ==> a[2 * i + 1] == b[2 * i + 1]
  {
    var x, y := PairInput(a, i), PairInput(b, i);
    assert x[..32] == y[..32] && x[32..] == y[32..];
  }

  lemma SamePairs(a: seq<Digest>, b: seq<Digest>)
    requires a != [] && AllDistinct(a) && AllDistinct(b) && NodeStrings(a) == NodeStrings(b)
    ensures a == b
  {
    var n := |NodeStrings(a)|;
    assert n == |NodeStrings(b)|;
    assert NodeStrings(a)[n - 1] == NodeStrings(b)[n - 1];
    SamePair(a, b, n - 1);
    forall k | 0 <= k < |a| ensures a[k] == b[k] {
      assert NodeStrings(a)[k / 2] == NodeStrings(b)[k / 2];
      SamePair(a, b, k / 2);
    }
  }

  /** Without collisions, strings with equal digests are equal. */
  lemma SameDigests(hash: Hash, a: seq<Bytes>, b: seq<Bytes>, inputs: set<Bytes>)
    requires |a| == |b| && !Collides(hash, inputs)
    requires forall x | x in a || x in b :: x in inputs
    requires forall i | 0 <= i < |a| :: hash(a[i]) == hash(b[i])
    ensures a == b
  {
    forall i | 0 <= i < |a| ensures a[i] == b[i] {
      assert a[i] in a && b[i] in b;
    }
  }

  lemma ParentsInjective(hash: Hash, a: seq<Digest>, b: seq<Digest>, inputs: set<Bytes>)
    requires |a| > 1 && |b| > 1 && Clean(hash, a, inputs) && Clean(hash, b, inputs)
    requires Parents(hash, a) == Parents(hash, b)
    ensures a == b
  {
    NodeStringsAreInputs(hash, a);
    NodeStringsAreInputs(hash, b);
    ParentsAreDigests(hash, a);
    ParentsAreDigests(hash, b);
    SameDigests(hash, NodeStrings(a), NodeStrings(b), inputs);
    SamePairs(a, b);
  }

  lemma ParentsAreDigests(hash: Hash, layer: seq<Digest>)
    ensures forall i | 0 <= i < |NodeStrings(layer)| :: Parents(hash, layer)[i] == hash(NodeStrings(layer)[i])
  {
  }

  lemma NodeStringsAreInputs(hash: Hash, layer: seq<Digest>)
    requires |layer| > 1
    ensures forall x | x in NodeStrings(layer) :: x in NodeInputs(hash, layer)
  {
    PairsAreInputs(hash, layer);
  }

  /** Distinct leaves of trees of one height: equal roots mean equal leaves, in order, if nothing collides. */
  lemma {:induction false} EqualRootsEqualLayers(hash: Hash, a: seq<Digest>, b: seq<Digest>, inputs: set<Bytes>)
    requires Clean(hash, a, inputs) && Clean(hash, b, inputs)
    requires Height(|a|) == Height(|b|) && Root(hash, a) == Root(hash, b)
    ensures a == b
    decreases |a|
  {
    if |a| > 1 {
      ParentsClean(hash, a, inputs);
      ParentsClean(hash, b, inputs);
      EqualRootsEqualLayers(hash, Parents(hash, a), Parents(hash, b), inputs);
      ParentsInjective(hash, a, b, inputs);
    }
  }

  /** Of two trees with one root, the lower one's leaves are a layer of the other: the one at the height difference. */
  lemma LowerTreeIsALayer(hash: Hash, low: seq<Digest>, high: seq<Digest>, d: nat, inputs: set<Bytes>)
    requires Clean(hash, low, inputs) && Clean(hash, high, inputs)
    requires Height(|low|) + d == Height(|high|) && Root(hash, low) == Root(hash, high)
    ensures low == Up(hash, high, d)
  {
    ClimbLayers(hash, high, d);
    UpClean(hash, high, d, inputs);
    EqualRootsEqualLayers(hash, low, Up(hash, high, d), inputs);
  }
}
