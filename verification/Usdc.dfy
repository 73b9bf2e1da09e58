/** Exact decimal parsing and printing of USDC amounts, six decimals, on integers of any size. */
module Usdc {
  import opened Prelude

  const UNIT := 1_000_000
  const DECIMALS := 6

  datatype AmountError = NotADecimal | TooManyDecimals

  predicate IsDigit(c: char) {
    '0' <= c <= '9'
  }

  predicate AllDigits(s: string) {
    forall c | c in s :: IsDigit(c)
  }

  function Zeros(n: nat): (z: string)
    ensures |z| == n && forall i | 0 <= i < n :: z[i] == '0'
  {
    seq(n, _ => '0')
  }

  function DigitChar(d: nat): (c: char)
    requires d < 10
    ensures IsDigit(c)
  {
    (d + 48) as char
  }

  function DigitOf(c: char): (d: nat)
    requires IsDigit(c)
    ensures d < 10
  {
    c as int - 48
  }

  /** Decimal digits of a natural number, without leading zeros. */
  function Digits(n: nat): string {
    if n < 10 then [DigitChar(n)] else Digits(n / 10) + [DigitChar(n % 10)]
  }

  /** `BigInt.toString`. */
  function ToString(z: int): string {
    if z < 0 then "-" + Digits(-z) else Digits(z)
  }

  /** `BigInt(s)` on a string of digits. */
  function ParseNat(s: string): nat
    requires AllDigits(s)
  {
    if s == [] then 0
    else
      assert s[|s| - 1] in s;
      10 * ParseNat(s[..|s| - 1]) + DigitOf(s[|s| - 1])
  }

  /** BigInt division and remainder truncate towards zero. */
  function TruncDiv(a: int): int {
    if a >= 0 then a / UNIT else -(-a / UNIT)
  }

  function TruncMod(a: int): int {
    a - TruncDiv(a) * UNIT
  }

  function PadStart(s: string): string {
    if |s| < DECIMALS then Zeros(DECIMALS - |s|) + s else s
  }

  function PadEnd(s: string): string {
    if |s| < DECIMALS then s + Zeros(DECIMALS - |s|) else s
  }

  /** `replace(/0+$/, "")` */
  function StripZeros(s: string): string {
    if s != [] && s[|s| - 1] == '0' then StripZeros(s[..|s| - 1]) else s
  }

  function FormatUsdc(units: int): string {
    var whole := ToString(TruncDiv(units));
    var frac := StripZeros(PadStart(ToString(TruncMod(units))));
    if frac != [] then whole + "." + frac else whole
  }

  /** White space as `String.prototype.trim` sees it. */
  predicate IsSpace(c: char) {
    var k := c as int;
    9 <= k <= 13 || k == 32 || k == 160 || k == 5760 || 8192 <= k <= 8202
    || k == 8232 || k == 8233 || k == 8239 || k == 8287 || k == 12288 || k == 65279
  }

  function Trim(s: string): string {
    if s != [] && IsSpace(s[0]) then Trim(s[1..])
    else if s != [] && IsSpace(s[|s| - 1]) then Trim(s[..|s| - 1])
    else s
  }

  function DotAt(s: string): (i: nat)
    ensures i <= |s|
    ensures forall j | 0 <= j < i :: s[j] != '.'
    ensures i < |s| ==> s[i] == '.'
  {
    if s == [] || s[0] == '.' then 0 else 1 + DotAt(s[1..])
  }

  /** A decimal cut at its sign and its point. */
  datatype Parts = Parts(negative: bool, whole: string, point: bool, frac: string)

  function SplitUnsigned(negative: bool, m: string): Parts {
    var i := DotAt(m);
    if i < |m| then Parts(negative, m[..i], true, m[i + 1..]) else Parts(negative, m, false, [])
  }

  function Split(t: string): Parts {
    if t != [] && t[0] == '-' then SplitUnsigned(true, t[1..]) else SplitUnsigned(false, t)
  }

  /** `/^-?\d+(?:\.\d+)?$/` */
  predicate IsDecimal(p: Parts) {
    && p.whole != [] && AllDigits(p.whole) && AllDigits(p.frac)
    && (p.point ==> p.frac != [])
  }

  function BaseUnits(p: Parts): Result<int, AmountError> {
    if !IsDecimal(p) then Err(NotADecimal)
    else if |p.frac| > DECIMALS then Err(TooManyDecimals)
    else
      PaddingIsDigits(p.frac);
      var units := ParseNat(p.whole) * UNIT + ParseNat(PadEnd(p.frac));
      Ok(if p.negative then -units else units)
  }

  function UsdcToBaseUnits(amount: string): Result<int, AmountError> {
    BaseUnits(Split(Trim(amount)))
  }

  lemma PaddingIsDigits(s: string)
    requires AllDigits(s)
    ensures AllDigits(PadEnd(s))
  {
  }

  // ---- Digits and numbers ----

  lemma {:induction false} DigitsParse(n: nat)
    ensures AllDigits(Digits(n)) && Digits(n) != [] && ParseNat(Digits(n)) == n
    ensures n < UNIT ==> |Digits(n)| <= DECIMALS
  {
    if n < 10 {
      assert Digits(n)[..0] == [];
    } else {
      DigitsParse(n / 10);
      var front := Digits(n / 10);
      assert Digits(n)[..|front|] == front;
      DigitCount(n);
    }
  }

  function Pow10(k: nat): nat {
    if k == 0 then 1 else 10 * Pow10(k - 1)
  }

  lemma {:induction false} DigitCountBelow(n: nat, k: nat)
    requires n < Pow10(k) && k > 0
    ensures |Digits(n)| <= k
  {
    if n >= 10 {
      DigitCountBelow(n / 10, k - 1);
    }
  }

  lemma DigitCount(n: nat)
    ensures n < UNIT ==> |Digits(n)| <= DECIMALS
  {
    assert Pow10(6) == UNIT;
    if n < UNIT {
      DigitCountBelow(n, 6);
    }
  }

  lemma {:induction false} LeadingZeros(k: nat, s: string)
    requires AllDigits(s)
    ensures AllDigits(Zeros(k) + s) && ParseNat(Zeros(k) + s) == ParseNat(s)
    decreases k + |s|
  {
    var t := Zeros(k) + s;
    if s != [] {
      assert t[..|t| - 1] == Zeros(k) + s[..|s| - 1];
      LeadingZeros(k, s[..|s| - 1]);
    } else if k > 0 {
      assert t[..|t| - 1] == Zeros(k - 1) + [];
      LeadingZeros(k - 1, []);
    }
  }

  lemma {:induction false} StripThenPad(s: string)
    ensures |StripZeros(s)| <= |s| && s == StripZeros(s) + Zeros(|s| - |StripZeros(s)|)
  {
    if s != [] && s[|s| - 1] == '0' {
      var front := s[..|s| - 1];
      StripThenPad(front);
      assert s == front + ['0'];
    }
  }

  /** The six-digit fraction of a remainder: stripped, and recovered by padding. */
  lemma FractionRecovers(r: nat)
    requires r < UNIT
    ensures var f := StripZeros(PadStart(Digits(r)));
            AllDigits(f) && |f| <= DECIMALS && AllDigits(PadEnd(f)) && ParseNat(PadEnd(f)) == r
  {
    DigitsParse(r);
    var d := Digits(r);
    LeadingZeros(DECIMALS - |d|, d);
    var s := PadStart(d);
    assert |s| == DECIMALS && ParseNat(s) == r by {
      assert |d| == DECIMALS ==> Zeros(0) + d == d;
    }
    StripThenPad(s);
    assert PadEnd(StripZeros(s)) == s;
    assert forall c | c in StripZeros(s) :: c in s;
  }

  lemma {:induction false} DotInFront(a: string, b: string)
    requires '.' !in a
    ensures DotAt(a + "." + b) == |a|
    ensures DotAt(a) == |a|
  {
    if a != [] {
      DotInFront(a[1..], b);
      assert (a + "." + b)[1..] == a[1..] + "." + b;
    }
  }

  lemma NoTrim(s: string)
    requires s != [] && !IsSpace(s[0]) && !IsSpace(s[|s| - 1])
    ensures Trim(s) == s
  {
  }

  lemma DigitsAreNotSpecial(s: string)
    requires AllDigits(s)
    ensures '.' !in s && '-' !in s && forall c | c in s :: !IsSpace(c)
  {
  }

  /** Cutting what was joined from a whole part without a point. */
  lemma SplitJoined(negative: bool, w: string, f: string)
    requires '.' !in w && w != [] && w[0] != '-'
    ensures Split((if negative then "-" else "") + w) == Parts(negative, w, false, [])
    ensures Split((if negative then "-" else "") + w + "." + f) == Parts(negative, w, true, f)
  {
    DotInFront(w, f);
    var m := w + "." + f;
    assert m[..|w|] == w && m[|w| + 1..] == f;
    if negative {
      assert ("-" + w)[1..] == w;
      assert ("-" + w + "." + f)[1..] == m;
    } else {
      assert "" + w == w && "" + w + "." + f == m;
    }
  }

  lemma NoSpaces(sign: string, w: string, tail: string)
    requires sign == "" || sign == "-"
    requires AllDigits(w) && w != [] && (tail == [] || !IsSpace(tail[|tail| - 1]))
    ensures Trim(sign + w + tail) == sign + w + tail
  {
    var t := sign + w + tail;
    assert w[0] in w && w[|w| - 1] in w;
    assert t[0] == if sign == "" then w[0] else '-';
    assert t[|t| - 1] == if tail == [] then w[|w| - 1] else tail[|tail| - 1];
    NoTrim(t);
  }

  // ---- Round trips ----

  /** Printing, described by its parts. */
  lemma FormatParts(u: int)
    ensures var w, f := ToString(TruncDiv(u)), StripZeros(PadStart(ToString(TruncMod(u))));
            FormatUsdc(u) == w + (if f == [] then [] else "." + f)
  {
    var w, f := ToString(TruncDiv(u)), StripZeros(PadStart(ToString(TruncMod(u))));
    assert w + [] == w;
    assert w + "." + f == w + ("." + f);
  }

  /** What the parser makes of a sign, digits, and a fraction that does not end in a space. */
  lemma ParsesJoined(negative: bool, w: string, f: string, t: string)
    requires AllDigits(w) && w != [] && (f == [] || !IsSpace(f[|f| - 1]))
    requires t == (if negative then "-" else "") + w + (if f == [] then [] else "." + f)
    ensures UsdcToBaseUnits(t) == BaseUnits(Parts(negative, w, f != [], f))
  {
    var sign, tail := if negative then "-" else "", if f == [] then [] else "." + f;
    DigitsAreNotSpecial(w);
    assert w[0] in w;
    NoSpaces(sign, w, tail);
    SplitJoined(negative, w, f);
    if f == [] {
      assert t == sign + w;
    } else {
      assert t == sign + w + "." + f;
    }
  }

  lemma BaseUnitsOf(p: Parts, whole: nat, rest: nat)
    requires IsDecimal(p) && |p.frac| <= DECIMALS && AllDigits(PadEnd(p.frac))
    requires ParseNat(p.whole) == whole && ParseNat(PadEnd(p.frac)) == rest
    ensures BaseUnits(p) == Ok(if p.negative then -(whole * UNIT + rest) else whole * UNIT + rest)
  {
  }

  lemma LastIsNoSpace(f: string)
    requires AllDigits(f)
    ensures f == [] || !IsSpace(f[|f| - 1])
  {
    DigitsAreNotSpecial(f);
    assert f != [] ==> f[|f| - 1] in f;
  }

  /** A sign, digits and at most six more digits parse to what they say. */
  lemma ParsesPlain(negative: bool, w: string, f: string, t: string, whole: nat, rest: nat)
    requires AllDigits(w) && w != [] && ParseNat(w) == whole
    requires AllDigits(f) && |f| <= DECIMALS && AllDigits(PadEnd(f)) && ParseNat(PadEnd(f)) == rest
    requires t == (if negative then "-" else "") + w + (if f == [] then [] else "." + f)
    ensures UsdcToBaseUnits(t) == Ok(if negative then -(whole * UNIT + rest) else whole * UNIT + rest)
  {
    LastIsNoSpace(f);
    ParsesJoined(negative, w, f, t);
    BaseUnitsOf(Parts(negative, w, f != [], f), whole, rest);
  }

  /** Truncating division of a negative amount mirrors that of its magnitude. */
  lemma TruncNegative(u: int) returns (q: nat, r: nat)
    requires u < 0
    ensures TruncDiv(u) == 0 - q && TruncMod(u) == 0 - r && u == 0 - (q * UNIT + r)
  {
    q, r := -u / UNIT, -u % UNIT;
  }

  lemma TruncPlain(u: int) returns (q: nat, r: nat)
    requires u >= 0 || TruncMod(u) == 0
    ensures TruncDiv(u) == (if u < 0 then 0 - q else q) && TruncMod(u) == r < UNIT
    ensures u == if u < 0 then -(q * UNIT + r) else q * UNIT + r
  {
    if u >= 0 {
      q, r := u / UNIT, u % UNIT;
    } else {
      q, r := TruncNegative(u);
    }
  }

  lemma SignedWhole(q: nat, negative: bool)
    ensures ToString(if negative then 0 - q else q) == (if negative && q > 0 then "-" else "") + Digits(q)
  {
    assert "" + Digits(q) == Digits(q);
  }

  lemma DigitsOnly(n: nat)
    ensures AllDigits(Digits(n)) && Digits(n) != [] && ParseNat(Digits(n)) == n
  {
    DigitsParse(n);
  }

  /** Printing, given the two truncated halves as strings. */
  lemma FormatJoined(u: int, w: string, f: string)
    requires w == ToString(TruncDiv(u)) && f == StripZeros(PadStart(ToString(TruncMod(u))))
    ensures FormatUsdc(u) == w + (if f == [] then [] else "." + f)
  {
    FormatParts(u);
  }

  /** The printed form of an amount whose remainder is not negative. */
  lemma FormatPlain(u: int) returns (w: string, f: string, whole: nat, rest: nat)
    requires u >= 0 || TruncMod(u) == 0
    ensures AllDigits(w) && w != [] && ParseNat(w) == whole
    ensures AllDigits(f) && |f| <= DECIMALS && AllDigits(PadEnd(f)) && ParseNat(PadEnd(f)) == rest
    ensures u == if u < 0 then -(whole * UNIT + rest) else whole * UNIT + rest
    ensures FormatUsdc(u) == (if u < 0 then "-" else "") + w + (if f == [] then [] else "." + f)
  {
    whole, rest := TruncPlain(u);
    w, f := Digits(whole), StripZeros(PadStart(Digits(rest)));
    DigitsOnly(whole);
    FractionRecovers(rest);
    SignedWhole(whole, u < 0);
    FormatJoined(u, (if u < 0 then "-" else "") + w, f);
  }

  lemma PlainRoundTrip(u: int)
    requires u >= 0 || TruncMod(u) == 0
    ensures UsdcToBaseUnits(FormatUsdc(u)) == Ok(u)
  {
    var w, f, whole, rest := FormatPlain(u);
    ParsesPlain(u < 0, w, f, FormatUsdc(u), whole, rest);
  }

  lemma {:induction false} StripKeeps(s: string, c: char)
    requires c in s && c != '0'
    ensures c in StripZeros(s)
  {
    if s[|s| - 1] == '0' {
      StripKeeps(s[..|s| - 1], c);
    }
  }

  /** Stripping keeps a minus sign, and what is left does not end in a space. */
  lemma StrippedMinus(s: string)
    requires '-' in s && forall c | c in s :: !IsSpace(c)
    ensures var f := StripZeros(s); '-' in f && f != [] && !IsSpace(f[|f| - 1])
  {
    StripKeeps(s, '-');
    StripThenPad(s);
    var f := StripZeros(s);
    assert f[|f| - 1] == s[|f| - 1];
    assert s[|f| - 1] in s;
  }

  lemma NegativeFraction(r: nat)
    ensures var f := StripZeros(PadStart("-" + Digits(r)));
            '-' in f && f != [] && !IsSpace(f[|f| - 1])
  {
    var d := Digits(r);
    assert forall c | c in d :: !IsSpace(c) by {
      DigitsParse(r);
      DigitsAreNotSpecial(d);
    }
    PaddedMinus(d);
    StrippedMinus(PadStart("-" + d));
  }

  lemma PaddedMinus(d: string)
    requires forall c | c in d :: !IsSpace(c)
    ensures '-' in PadStart("-" + d) && forall c | c in PadStart("-" + d) :: !IsSpace(c)
  {
    assert ("-" + d)[0] == '-';
  }

  /** The printed form of a negative amount with a remainder: the remainder brings its own minus sign. */
  lemma FormatNegative(u: int) returns (w: string, f: string, negative: bool)
    requires u < 0 && TruncMod(u) != 0
    ensures AllDigits(w) && w != []
    ensures '-' in f && f != [] && !IsSpace(f[|f| - 1])
    ensures FormatUsdc(u) == (if negative then "-" else "") + w + ("." + f)
  {
    var q, r := TruncNegative(u);
    w, f, negative := Digits(q), StripZeros(PadStart("-" + Digits(r))), q > 0;
    NegativeFraction(r);
    DigitsOnly(q);
    SignedWhole(q, true);
    FormatJoined(u, (if negative then "-" else "") + w, f);
  }

  /** And the parser refuses it. */
  lemma MinusInFractionRefused(negative: bool, w: string, f: string, t: string)
    requires AllDigits(w) && w != [] && '-' in f && f != [] && !IsSpace(f[|f| - 1])
    requires t == (if negative then "-" else "") + w + ("." + f)
    ensures UsdcToBaseUnits(t).Err?
  {
    ParsesJoined(negative, w, f, t);
    assert !AllDigits(f) by {
      assert !IsDigit('-');
    }
  }

  lemma NegativeFractionRefused(u: int)
    requires u < 0 && TruncMod(u) != 0
    ensures UsdcToBaseUnits(FormatUsdc(u)).Err?
  {
    var w, f, negative := FormatNegative(u);
    MinusInFractionRefused(negative, w, f, FormatUsdc(u));
  }

  /** Printing and parsing give the amount back if and only if it is not a negative amount with a fractional part. */
  lemma FormatThenParse(u: int)
    ensures UsdcToBaseUnits(FormatUsdc(u)) == Ok(u) <==> u >= 0 || TruncMod(u) == 0
  {
    if u >= 0 || TruncMod(u) == 0 {
      PlainRoundTrip(u);
    } else {
      NegativeFractionRefused(u);
    }
  }

  /** Two accepted non-negative strings are worth the same exactly when they print to the same canonical string. */
  lemma CanonicalForm(a: string, b: string)
    ensures var x, y := UsdcToBaseUnits(a), UsdcToBaseUnits(b);
            x.Ok? && y.Ok? && x.value >= 0 && y.value >= 0 ==>
              (x.value == y.value <==> FormatUsdc(x.value) == FormatUsdc(y.value))
  {
    var x, y := UsdcToBaseUnits(a), UsdcToBaseUnits(b);
    if x.Ok? && y.Ok? && x.value >= 0 && y.value >= 0 {
      PlainRoundTrip(x.value);
      PlainRoundTrip(y.value);
    }
  }

  // ---- What a decimal string is worth, independently of the parser ----

  /** Digits by place value, the first one standing for 10^place. */
  function PlaceValue(s: string, place: int): nat
    requires AllDigits(s) && |s| <= place + 1
  {
    if s == [] then 0
    else
      assert s[0] in s;
      DigitOf(s[0]) * Pow10(place) + PlaceValue(s[1..], place - 1)
  }

  /** The worth of a decimal in millionths: the first digit stands |whole| - 1 places left of the point. */
  function Millionths(p: Parts): int
    requires IsDecimal(p) && |p.frac| <= DECIMALS
  {
    var v: int := PlaceValue(p.whole + p.frac, |p.whole| - 1 + DECIMALS);
    if p.negative then -v else v
  }

  lemma ShiftStep(x: nat, p: nat, y: nat, d: nat)
    ensures 10 * (x * p + y) + d == x * (10 * p) + (10 * y + d)
  {
  }

  lemma {:induction false} ParseCons(c: char, s: string)
    requires IsDigit(c) && AllDigits(s)
    ensures AllDigits([c] + s) && ParseNat([c] + s) == DigitOf(c) * Pow10(|s|) + ParseNat(s)
  {
    var t := [c] + s;
    if s != [] {
      var front := s[..|s| - 1];
      assert s[|s| - 1] in s;
      ParseCons(c, front);
      assert t[..|t| - 1] == [c] + front && t[|t| - 1] == s[|s| - 1];
      ShiftStep(DigitOf(c), Pow10(|front|), ParseNat(front), DigitOf(s[|s| - 1]));
    } else {
      assert t[..0] == [];
    }
  }

  lemma {:induction false} PlaceValueIsParse(s: string, k: nat)
    requires AllDigits(s)
    ensures AllDigits(s + Zeros(k)) && ParseNat(s + Zeros(k)) == PlaceValue(s, |s| - 1 + k)
  {
    if s == [] {
      LeadingZeros(k, []);
      assert Zeros(k) + [] == s + Zeros(k);
    } else {
      assert s[0] in s;
      PlaceValueIsParse(s[1..], k);
      ParseCons(s[0], s[1..] + Zeros(k));
      assert s + Zeros(k) == [s[0]] + (s[1..] + Zeros(k));
    }
  }

  lemma {:induction false} ParseAppend(a: string, b: string)
    requires AllDigits(a) && AllDigits(b)
    ensures AllDigits(a + b) && ParseNat(a + b) == ParseNat(a) * Pow10(|b|) + ParseNat(b)
  {
    if b == [] {
      assert a + b == a;
    } else {
      var front, last := b[..|b| - 1], b[|b| - 1];
      assert last in b;
      ParseAppend(a, front);
      assert (a + b)[..|a + b| - 1] == a + front;
      ShiftStep(ParseNat(a), Pow10(|front|), ParseNat(front), DigitOf(last));
    }
  }

  /** The parser accepts exactly the decimals of at most six places and returns exactly their worth in millionths. */
  lemma ParserIsExact(amount: string)
    ensures var p := Split(Trim(amount));
            && (UsdcToBaseUnits(amount).Ok? <==> IsDecimal(p) && |p.frac| <= DECIMALS)
            && (UsdcToBaseUnits(amount).Ok? ==> UsdcToBaseUnits(amount).value == Millionths(p))
  {
    var p := Split(Trim(amount));
    if IsDecimal(p) && |p.frac| <= DECIMALS {
      ExactParts(p);
    }
  }

  lemma ExactParts(p: Parts)
    requires IsDecimal(p) && |p.frac| <= DECIMALS
    ensures BaseUnits(p) == Ok(Millionths(p))
  {
    var k := DECIMALS - |p.frac|;
    PaddingIsDigits(p.frac);
    assert PadEnd(p.frac) == p.frac + Zeros(k);
    WorthOfParts(p.whole, p.frac, k);
    BaseUnitsOf(p, ParseNat(p.whole), ParseNat(p.frac + Zeros(k)));
  }

  lemma WorthOfParts(w: string, f: string, k: nat)
    requires AllDigits(w) && AllDigits(f) && |f| + k == DECIMALS
    ensures AllDigits(w + f) && AllDigits(f + Zeros(k))
    ensures PlaceValue(w + f, |w| - 1 + DECIMALS) == ParseNat(w) * UNIT + ParseNat(f + Zeros(k))
  {
    PaddingIsDigits(f);
    assert PadEnd(f) == f + Zeros(k);
    ParseAppend(w, f + Zeros(k));
    PlaceValueIsParse(w + f, k);
    assert w + f + Zeros(k) == w + (f + Zeros(k));
    assert Pow10(6) == UNIT;
  }
}
