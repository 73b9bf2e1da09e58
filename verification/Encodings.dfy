/** What the encoder computes: the signs, the l1 and the norm of the rotated, centred direction. */
module Encodings {
  import opened Prelude
  import opened BitCodes
  import opened Merkle
  import opened MemoryStore

  /** The inner product of the first m coordinates of d with row i of the rotation. */
  function Projection(env: Platform, dim: nat, seed: int, d: Vec, i: nat, m: nat): real
    requires m <= |d|
  {
    if m == 0 then 0.0 else Projection(env, dim, seed, d, i, m - 1) + d[m - 1] * env.rotation(dim, seed, i, m - 1)
  }

  /** What is encoded of v: its difference to the centroid, or v itself when that has no length; and its length. */
  predicate Directed(env: Platform, v: Vec, centroid: Vec, d: Vec, n: real) {
    && |v| == |centroid| == |d|
    && n == env.l2(d) && n > 0.0
    && var diff := seq(|v|, j requires 0 <= j < |v| => v[j] - centroid[j]);
       d == diff || (env.l2(diff) == 0.0 && d == v)
  }

  lemma DifferenceIsMinus(v: Vec, c: Vec)
    requires |v| == |c|
    ensures seq(|v|, j requires 0 <= j < |v| => v[j] - c[j]) == Minus(v, c)
  {
  }

  lemma DivideBack(x: real, n: real, p: real, y: real)
    requires n > 0.0
    ensures (y + x / n * p) * n == y * n + x * p
  {
    var u := x / n;
    assert u * n == x;
    assert u * p * n == u * n * p;
  }

  lemma {:induction false} ScaledProjection(env: Platform, dim: nat, seed: int, d: Vec, n: real, i: nat, m: nat)
    requires n > 0.0 && m <= |d|
    ensures RowDot(env, dim, seed, Scaled(d, n)[..m], i) * n == Projection(env, dim, seed, d, i, m)
  {
    if m > 0 {
      var unit := Scaled(d, n);
      ScaledProjection(env, dim, seed, d, n, i, m - 1);
      assert unit[..m][..m - 1] == unit[..m - 1] && unit[..m][m - 1] == d[m - 1] / n;
      DivideBack(d[m - 1], n, env.rotation(dim, seed, i, m - 1), RowDot(env, dim, seed, unit[..m - 1], i));
    }
  }

  lemma Encoded(env: Platform, dim: nat, seed: int, centroid: Vec, v: Vec, d: Vec, n: real)
    requires |v| == dim && Directed(env, v, centroid, d, n)
    ensures var e := Encode(env, dim, seed, centroid, v);
            e.norm == n && e.rotated == Rotate(env, dim, seed, Scaled(d, n))
  {
    DifferenceIsMinus(v, centroid);
  }

  /** r is, up to the length n, the projections of d on the rows of the rotation. */
  ghost predicate Projects(env: Platform, dim: nat, seed: int, d: Vec, n: real, r: Vec) {
    |d| == |r| == dim && forall i: nat | i < dim :: r[i] * n == Projection(env, dim, seed, d, i, dim)
  }

  lemma RotatedProjects(env: Platform, dim: nat, seed: int, d: Vec, n: real)
    requires |d| == dim && n > 0.0
    ensures Projects(env, dim, seed, d, n, Rotate(env, dim, seed, Scaled(d, n)))
  {
    var r := Rotate(env, dim, seed, Scaled(d, n));
    assert Scaled(d, n)[..dim] == Scaled(d, n);
    forall i: nat | i < dim ensures r[i] * n == Projection(env, dim, seed, d, i, dim) {
      ScaledProjection(env, dim, seed, d, n, i, dim);
    }
  }

  lemma SignOfProduct(x: real, n: real, p: real)
    requires n > 0.0 && x * n == p
    ensures x >= 0.0 <==> p >= 0.0
  {
  }

  /**
    The rotated vector is, up to the length, the projections of the direction on the rotation's rows, and l1 the sum of
    its magnitudes; bit i of the code, counted from the most significant, says whether projection i is not negative.
   */
  lemma EncodingMeaning(env: Platform, dim: nat, seed: int, centroid: Vec, v: Vec, d: Vec, n: real)
    requires |v| == dim && Directed(env, v, centroid, d, n)
    ensures var e := Encode(env, dim, seed, centroid, v);
            && e.norm == n && Projects(env, dim, seed, d, n, e.rotated) && e.l1 == L1(e.rotated)
            && forall i: nat | i < dim ::
                 e.code[i / 8] as int / Pow2(7 - i % 8) % 2 == if Projection(env, dim, seed, d, i, dim) >= 0.0 then 1 else 0
  {
    Encoded(env, dim, seed, centroid, v, d, n);
    RotatedProjects(env, dim, seed, d, n);
    var e := Encode(env, dim, seed, centroid, v);
    forall i: nat | i < dim
      ensures e.code[i / 8] as int / Pow2(7 - i % 8) % 2 == if Projection(env, dim, seed, d, i, dim) >= 0.0 then 1 else 0
    {
      ProjectionBit(env, dim, seed, d, n, e.rotated, i);
    }
  }

  lemma ProjectionBit(env: Platform, dim: nat, seed: int, d: Vec, n: real, r: Vec, i: nat)
    requires Projects(env, dim, seed, d, n, r) && n > 0.0 && i < dim
    ensures PackBits(Signs(r))[i / 8] as int / Pow2(7 - i % 8) % 2
            == if Projection(env, dim, seed, d, i, dim) >= 0.0 then 1 else 0
  {
    SignOfProduct(r[i], n, Projection(env, dim, seed, d, i, dim));
    StoredBit(r, i);
  }

  lemma ShiftIsPower(j: nat)
    requires j < 8
    ensures Shift(j) == Pow2(7 - j)
  {
    assert Pow2(3) == 8 && Pow2(4) == 16 && Pow2(5) == 32 && Pow2(6) == 64 && Pow2(7) == 128;
  }

  lemma StoredBit(v: Vec, i: nat)
    requires i < |v|
    ensures PackBits(Signs(v))[i / 8] as int / Pow2(7 - i % 8) % 2 == if v[i] >= 0.0 then 1 else 0
  {
    MaskedBit(v, i, i / 8, i % 8, Pow2(7 - i % 8));
  }

  lemma MaskedBit(v: Vec, i: nat, b: nat, j: nat, shift: nat)
    requires j < 8 && i == 8 * b + j < |v| && shift == Pow2(7 - j)
    ensures PackByte(Signs(v), b) as int / shift % 2 == if v[i] >= 0.0 then 1 else 0
  {
    ShiftIsPower(j);
    MaskOfPackedByte(Signs(v), b, j);
    BitOfMask(PackByte(Signs(v), b), j);
  }

  lemma BitOfMask(p: byte, j: nat)
    requires j < 8
    ensures p as int / Shift(j) % 2 == if Mask(p, j) == 1.0 then 1 else 0
  {
    var bit := p as int / Shift(j) % 2;
    assert 0 <= bit < 2;
  }

  /** A vector without length at a centroid it equals is encoded as nothing: norm and l1 are zero. */
  lemma NothingToEncode(env: Platform, dim: nat, seed: int, centroid: Vec, v: Vec)
    requires |v| == |centroid| == dim && env.l2(v) == 0.0
    requires env.l2(seq(|v|, j requires 0 <= j < |v| => v[j] - centroid[j])) == 0.0
    ensures var e := Encode(env, dim, seed, centroid, v);
            e.norm == 0.0 && e.l1 == 0.0 && forall i | 0 <= i < dim :: e.rotated[i] == 0.0
  {
    DifferenceIsMinus(v, centroid);
    var r := Encode(env, dim, seed, centroid, v).rotated;
    forall i: nat | i < dim ensures r[i] == 0.0 {
      NothingProjects(env, dim, seed, i, dim);
      assert Zeros(dim)[..dim] == Zeros(dim);
    }
    NoMagnitude(r, dim);
    assert r[..dim] == r;
  }

  lemma {:induction false} NothingProjects(env: Platform, dim: nat, seed: int, i: nat, m: nat)
    requires m <= dim
    ensures RowDot(env, dim, seed, Zeros(dim)[..m], i) == 0.0
  {
    if m > 0 {
      NothingProjects(env, dim, seed, i, m - 1);
      assert Zeros(dim)[..m][..m - 1] == Zeros(dim)[..m - 1] && Zeros(dim)[..m][m - 1] == 0.0;
      assert 0.0 * env.rotation(dim, seed, i, m - 1) == 0.0;
    }
  }

  lemma {:induction false} NoMagnitude(r: Vec, m: nat)
    requires m <= |r| && forall i: nat | i < |r| :: r[i] == 0.0
    ensures L1(r[..m]) == 0.0
  {
    if m > 0 {
      NoMagnitude(r, m - 1);
      assert r[..m][..m - 1] == r[..m - 1] && r[..m][m - 1] == 0.0;
    }
  }
}
