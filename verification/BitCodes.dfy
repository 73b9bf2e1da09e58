/** The 1-bit codes: packing of signs into bytes, and the byte-lookup scan that replaces the inner product. */
module BitCodes {
  import opened Prelude

  function Abs(x: real): real {
    if x >= 0.0 then x else -x
  }

  /** `np.where(rotated >= 0, 1.0, -1.0)` */
  function Signs(v: Vec): (s: Vec)
    ensures |s| == |v|
  {
    seq(|v|, i requires 0 <= i < |v| => if v[i] >= 0.0 then 1.0 else -1.0)
  }

  /** Bit j of `signed > 0`, padded with zeros past the end. */
  function Bit(signed: Vec, j: nat): int {
    if j < |signed| && signed[j] > 0.0 then 1 else 0
  }

  /** Byte b of `np.packbits`: eight bits, most significant first. */
  function PackByte(signed: Vec, b: nat): byte {
    (128 * Bit(signed, 8 * b) + 64 * Bit(signed, 8 * b + 1) + 32 * Bit(signed, 8 * b + 2) + 16 * Bit(signed, 8 * b + 3)
     + 8 * Bit(signed, 8 * b + 4) + 4 * Bit(signed, 8 * b + 5) + 2 * Bit(signed, 8 * b + 6) + Bit(signed, 8 * b + 7)) as byte
  }

  function CodeLength(dim: nat): nat {
    (dim + 7) / 8
  }

  function PackBits(signed: Vec): (code: Bytes)
    ensures |code| == CodeLength(|signed|)
  {
    seq(CodeLength(|signed|), b requires 0 <= b < CodeLength(|signed|) => PackByte(signed, b))
  }

  function Shift(j: nat): int
    requires j < 8
  {
    if j == 0 then 128 else if j == 1 then 64 else if j == 2 then 32 else if j == 3 then 16
    else if j == 4 then 8 else if j == 5 then 4 else if j == 6 then 2 else 1
  }

  /** Entry (p, j) of the (256, 8) table of signs: `((p >> (7 - j)) & 1) * 2 - 1`. */
  function Mask(p: byte, j: nat): real
    requires j < 8
  {
    if p as int / Shift(j) % 2 == 1 then 1.0 else -1.0
  }

  /** The query padded with zeros to a whole number of bytes. */
  function Padded(q: Vec, j: nat): real {
    if j < |q| then q[j] else 0.0
  }

  /** Row b of the padded query reshaped to rows of eight. */
  function Row(q: Vec, b: nat): (row: Vec)
    ensures |row| == 8
  {
    seq(8, j requires 0 <= j < 8 => Padded(q, 8 * b + j))
  }

  /** Inner product of a row with the signs of byte p. */
  function MaskDot(row: Vec, p: byte): real
    requires |row| <= 8
  {
    if row == [] then 0.0 else MaskDot(row[..|row| - 1], p) + row[|row| - 1] * Mask(p, |row| - 1)
  }

  /** Entry (b, p) of the per-query lookup table. */
  function Lookup(q: Vec, b: nat, p: byte): real {
    MaskDot(Row(q, b), p)
  }

  /** Sum of `lookup[b, code[b]]` over the first n bytes. */
  function ScanTo(q: Vec, code: Bytes, n: nat): real
    requires n <= |code|
  {
    if n == 0 then 0.0 else ScanTo(q, code, n - 1) + Lookup(q, n - 1, code[n - 1])
  }

  /** The binary scan of one entry. */
  function Scan(q: Vec, code: Bytes): real {
    ScanTo(q, code, |code|)
  }

  /** The plain estimator: the inner product of the signs of v with q, coordinate by coordinate. */
  function SignDot(v: Vec, q: Vec): real
    requires |v| == |q|
  {
    if v == [] then 0.0
    else SignDot(v[..|v| - 1], q[..|v| - 1]) + (if v[|v| - 1] >= 0.0 then q[|v| - 1] else -q[|v| - 1])
  }

  function L1(v: Vec): (r: real)
    ensures r >= 0.0
  {
    if v == [] then 0.0 else L1(v[..|v| - 1]) + Abs(v[|v| - 1])
  }

  /** The calibrated cosine: the scan divided by l1, or by 1 when l1 is not positive. */
  function Estimate(q: Vec, code: Bytes, l1: real): real {
    Scan(q, code) / (if l1 > 0.0 then l1 else 1.0)
  }

  lemma BinaryDigits(b0: int, b1: int, b2: int, b3: int, b4: int, b5: int, b6: int, b7: int, p: int)
    requires 0 <= b0 <= 1 && 0 <= b1 <= 1 && 0 <= b2 <= 1 && 0 <= b3 <= 1
    requires 0 <= b4 <= 1 && 0 <= b5 <= 1 && 0 <= b6 <= 1 && 0 <= b7 <= 1
    requires p == 128 * b0 + 64 * b1 + 32 * b2 + 16 * b3 + 8 * b4 + 4 * b5 + 2 * b6 + b7
    ensures p / 128 % 2 == b0 && p / 64 % 2 == b1 && p / 32 % 2 == b2 && p / 16 % 2 == b3
    ensures p / 8 % 2 == b4 && p / 4 % 2 == b5 && p / 2 % 2 == b6 && p / 1 % 2 == b7
  {
    assert p / 128 == b0;
    assert p / 64 == 2 * b0 + b1;
    assert p / 32 == 2 * (2 * b0 + b1) + b2;
    assert p / 16 == 2 * (4 * b0 + 2 * b1 + b2) + b3;
    assert p / 8 == 2 * (8 * b0 + 4 * b1 + 2 * b2 + b3) + b4;
    assert p / 4 == 2 * (16 * b0 + 8 * b1 + 4 * b2 + 2 * b3 + b4) + b5;
    assert p / 2 == 2 * (32 * b0 + 16 * b1 + 8 * b2 + 4 * b3 + 2 * b4 + b5) + b6;
  }

  /** What the packed code says about coordinate 8b + j: unpacking undoes packing, zero padding included. */
  lemma MaskOfPackedByte(signed: Vec, b: nat, j: nat)
    requires j < 8
    ensures Mask(PackByte(signed, b), j) ==
            if 8 * b + j < |signed| && signed[8 * b + j] > 0.0 then 1.0 else -1.0
  {
    BinaryDigits(Bit(signed, 8 * b), Bit(signed, 8 * b + 1), Bit(signed, 8 * b + 2), Bit(signed, 8 * b + 3),
                 Bit(signed, 8 * b + 4), Bit(signed, 8 * b + 5), Bit(signed, 8 * b + 6), Bit(signed, 8 * b + 7),
                 PackByte(signed, b) as int);
    assert PackByte(signed, b) as int / Shift(j) % 2 == Bit(signed, 8 * b + j);
  }

  /** One term of the padded inner product. */
  function Term(v: Vec, q: Vec, j: nat): real {
    if j < |v| then (if v[j] >= 0.0 then Padded(q, j) else -Padded(q, j)) else 0.0
  }

  function TermsTo(v: Vec, q: Vec, n: nat): real {
    if n == 0 then 0.0 else TermsTo(v, q, n - 1) + Term(v, q, n - 1)
  }

  lemma PackedTerm(v: Vec, q: Vec, b: nat, j: nat)
    requires |v| == |q| && j < 8
    ensures Padded(q, 8 * b + j) * Mask(PackByte(Signs(v), b), j) == Term(v, q, 8 * b + j)
  {
    MaskOfPackedByte(Signs(v), b, j);
  }

  lemma {:induction false} RowIsTerms(v: Vec, q: Vec, b: nat, p: byte, n: nat)
    requires |v| == |q| && n <= 8
    requires forall j: nat | j < 8 :: Padded(q, 8 * b + j) * Mask(p, j) == Term(v, q, 8 * b + j)
    ensures MaskDot(Row(q, b)[..n], p) == TermsTo(v, q, 8 * b + n) - TermsTo(v, q, 8 * b)
  {
    if n > 0 {
      RowIsTerms(v, q, b, p, n - 1);
      var row := Row(q, b)[..n];
      assert row[..n - 1] == Row(q, b)[..n - 1] && row[n - 1] == Padded(q, 8 * b + (n - 1));
      assert Padded(q, 8 * b + (n - 1)) * Mask(p, n - 1) == Term(v, q, 8 * b + (n - 1));
    }
  }

  lemma PackedTerms(v: Vec, q: Vec, b: nat, p: byte)
    requires |v| == |q| && p == PackByte(Signs(v), b)
    ensures forall j: nat | j < 8 :: Padded(q, 8 * b + j) * Mask(p, j) == Term(v, q, 8 * b + j)
  {
    forall j: nat | j < 8
      ensures Padded(q, 8 * b + j) * Mask(p, j) == Term(v, q, 8 * b + j)
    {
      PackedTerm(v, q, b, j);
    }
  }

  lemma LookupIsTerms(v: Vec, q: Vec, b: nat, p: byte)
    requires |v| == |q| && p == PackByte(Signs(v), b)
    ensures Lookup(q, b, p) == TermsTo(v, q, 8 * b + 8) - TermsTo(v, q, 8 * b)
  {
    PackedTerms(v, q, b, p);
    RowIsTerms(v, q, b, p, 8);
    assert Row(q, b)[..8] == Row(q, b);
  }

  lemma {:induction false} ScanIsTerms(v: Vec, q: Vec, code: Bytes, n: nat)
    requires |v| == |q| && n <= |code|
    requires forall b: nat | b < |code| :: Lookup(q, b, code[b]) == TermsTo(v, q, 8 * b + 8) - TermsTo(v, q, 8 * b)
    ensures ScanTo(q, code, n) == TermsTo(v, q, 8 * n)
  {
    if n > 0 {
      ScanIsTerms(v, q, code, n - 1);
    }
  }

  lemma {:induction false} TermsPastTheEnd(v: Vec, q: Vec, n: nat)
    requires |v| == |q| <= n
    ensures TermsTo(v, q, n) == TermsTo(v, q, |v|)
  {
    if n > |v| {
      TermsPastTheEnd(v, q, n - 1);
    }
  }

  lemma {:induction false} TermsOfPrefix(v: Vec, q: Vec, n: nat)
    requires n <= |v| == |q|
    ensures TermsTo(v, q, n) == SignDot(v[..n], q[..n])
  {
    if n > 0 {
      TermsOfPrefix(v, q, n - 1);
      assert v[..n][..n - 1] == v[..n - 1] && q[..n][..n - 1] == q[..n - 1];
    }
  }

  /** The byte-lookup scan is the sign inner product, for every dimension. */
  lemma ScanIsSignDot(v: Vec, q: Vec)
    requires |v| == |q|
    ensures Scan(q, PackBits(Signs(v))) == SignDot(v, q)
  {
    var n := CodeLength(|v|);
    var code := PackBits(Signs(v));
    forall b: nat | b < |code|
      ensures Lookup(q, b, code[b]) == TermsTo(v, q, 8 * b + 8) - TermsTo(v, q, 8 * b)
    {
      LookupIsTerms(v, q, b, code[b]);
    }
    ScanIsTerms(v, q, code, n);
    TermsPastTheEnd(v, q, 8 * n);
    TermsOfPrefix(v, q, |v|);
    assert v[..|v|] == v && q[..|v|] == q;
  }

  lemma {:induction false} SignDotBound(v: Vec, q: Vec)
    requires |v| == |q|
    ensures -L1(q) <= SignDot(v, q) <= L1(q)
    ensures SignDot(q, q) == L1(q)
  {
    if v != [] {
      SignDotBound(v[..|v| - 1], q[..|v| - 1]);
    }
  }

  /** No stored code scans higher than the query's own code, and that one scans to exactly l1. */
  lemma OwnCodeScansHighest(v: Vec, q: Vec)
    requires |v| == |q|
    ensures Scan(q, PackBits(Signs(q))) == L1(q)
    ensures -L1(q) <= Scan(q, PackBits(Signs(v))) <= L1(q)
  {
    ScanIsSignDot(v, q);
    ScanIsSignDot(q, q);
    SignDotBound(v, q);
  }

  /** A self-query is estimated at exactly 1 if and only if the vector is not degenerate. */
  lemma SelfQueryEstimate(v: Vec)
    ensures Estimate(v, PackBits(Signs(v)), L1(v)) == if L1(v) > 0.0 then 1.0 else 0.0
  {
    OwnCodeScansHighest(v, v);
    var l1 := L1(v);
    if l1 > 0.0 {
      assert l1 / l1 == 1.0;
    }
  }
}
