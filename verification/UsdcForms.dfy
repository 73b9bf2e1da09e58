/** Which strings the USDC parser accepts and which the printer produces, described by their characters. */
module UsdcForms {
  import opened Prelude
  import opened Usdc

  // ---- The printer ----

  /** Digits without a leading zero, then perhaps a point and one to six digits that do not end in a zero. */
  predicate Canonical(w: string, f: string) {
    && w != [] && (forall c | c in w :: '0' <= c <= '9') && (w[0] == '0' ==> |w| == 1)
    && |f| <= 6 && (forall c | c in f :: '0' <= c <= '9') && (f != [] ==> f[|f| - 1] != '0')
  }

  function Joined(w: string, f: string): string {
    w + (if f == [] then [] else "." + f)
  }

  lemma {:induction false} NoLeadingZero(n: nat)
    ensures Digits(n) != [] && (Digits(n)[0] == '0' ==> n == 0 && |Digits(n)| == 1)
  {
    if n >= 10 {
      NoLeadingZero(n / 10);
    }
  }

  lemma {:induction false} NoTrailingZero(s: string)
    ensures var t := StripZeros(s); t != [] ==> t[|t| - 1] != '0'
  {
    if s != [] && s[|s| - 1] == '0' {
      NoTrailingZero(s[..|s| - 1]);
    }
  }

  lemma Halves(u: int, whole: nat, rest: nat)
    requires rest < UNIT && u == whole * UNIT + rest
    ensures TruncDiv(u) == whole && TruncMod(u) == rest
  {
  }

  lemma FormatHalves(u: int, whole: nat, rest: nat, w: string, f: string)
    requires rest < UNIT && u == whole * UNIT + rest
    requires w == Digits(whole) && f == StripZeros(PadStart(Digits(rest)))
    ensures FormatUsdc(u) == Joined(w, f)
  {
    Halves(u, whole, rest);
    assert ToString(whole) == w && ToString(rest) == Digits(rest);
    FormatJoined(u, w, f);
  }

  /** Every amount that is not negative prints in canonical form. */
  lemma PrintsCanonical(u: nat) returns (w: string, f: string)
    ensures FormatUsdc(u) == Joined(w, f) && Canonical(w, f)
  {
    var whole: nat, rest: nat := u / UNIT, u % UNIT;
    assert u == whole * UNIT + rest;
    w, f := Digits(whole), StripZeros(PadStart(Digits(rest)));
    FormatHalves(u, whole, rest, w, f);
    HalvesAreCanonical(whole, rest, w, f);
  }

  lemma HalvesAreCanonical(whole: nat, rest: nat, w: string, f: string)
    requires rest < UNIT && w == Digits(whole) && f == StripZeros(PadStart(Digits(rest)))
    ensures Canonical(w, f)
  {
    DigitsOnly(whole);
    NoLeadingZero(whole);
    NoTrailingZero(PadStart(Digits(rest)));
    FractionRecovers(rest);
    DigitRange(w);
    DigitRange(f);
  }

  lemma DigitRange(s: string)
    ensures AllDigits(s) <==> forall c | c in s :: '0' <= c <= '9'
  {
  }

  lemma {:induction false} DigitsOfParse(w: string)
    requires AllDigits(w) && w != [] && (w[0] == '0' ==> |w| == 1)
    ensures Digits(ParseNat(w)) == w
    ensures w[0] != '0' ==> ParseNat(w) > 0
  {
    var front, last := w[..|w| - 1], w[|w| - 1];
    assert last in w && w == front + [last];
    if front == [] {
      assert ParseNat(front) == 0;
    } else {
      DigitsOfParse(front);
      assert ParseNat(w) == 10 * ParseNat(front) + DigitOf(last);
      assert ParseNat(w) / 10 == ParseNat(front) && ParseNat(w) % 10 == DigitOf(last);
    }
  }

  lemma DigitsStep(m: nat, c: char)
    requires IsDigit(c)
    ensures Digits(10 * m + DigitOf(c)) == if m == 0 then [c] else Digits(m) + [c]
  {
    var n := 10 * m + DigitOf(c);
    assert n / 10 == m && n % 10 == DigitOf(c) && DigitChar(DigitOf(c)) == c;
  }

  /** s is d with zeros in front. */
  predicate Padded(s: string, d: string) {
    |d| <= |s| && s == Zeros(|s| - |d|) + d
  }

  /** One more digit, on both sides. */
  lemma PaddedSnoc(front: string, m: nat, c: char, s: string, d: string)
    requires IsDigit(c) && s == front + [c] && d == Digits(10 * m + DigitOf(c))
    requires if front == [] then m == 0 else Padded(front, Digits(m))
    ensures Padded(s, d)
  {
    DigitsStep(m, c);
    if m == 0 {
      assert Digits(0) == "0";
      assert front == Zeros(|front|);
    } else {
      var e := Digits(m);
      assert s == Zeros(|front| - |e|) + (e + [c]);
    }
  }

  lemma {:induction false} PaddedDigits(s: string)
    requires AllDigits(s) && s != []
    ensures Padded(s, Digits(ParseNat(s)))
  {
    var front, last := s[..|s| - 1], s[|s| - 1];
    assert last in s && s == front + [last];
    if front != [] {
      PaddedDigits(front);
    }
    PaddedSnoc(front, ParseNat(front), last, s, Digits(ParseNat(s)));
  }

  lemma {:induction false} ParseBelow(s: string)
    requires AllDigits(s)
    ensures ParseNat(s) < Pow10(|s|)
  {
    if s != [] {
      assert s[|s| - 1] in s;
      ParseBelow(s[..|s| - 1]);
    }
  }

  lemma {:induction false} StripPadded(f: string, k: nat)
    requires f != [] ==> f[|f| - 1] != '0'
    ensures StripZeros(f + Zeros(k)) == f
  {
    var s := f + Zeros(k);
    if k == 0 {
      assert s == f;
    } else {
      StripPadded(f, k - 1);
      assert s[..|s| - 1] == f + Zeros(k - 1);
    }
  }

  /** The six-digit fraction of a canonical string is what the printer pads and strips. */
  lemma FractionPrints(f: string)
    requires AllDigits(f) && |f| <= 6 && (f != [] ==> f[|f| - 1] != '0')
    ensures AllDigits(PadEnd(f)) && ParseNat(PadEnd(f)) < UNIT
    ensures StripZeros(PadStart(Digits(ParseNat(PadEnd(f))))) == f
  {
    var s := PadEnd(f);
    PaddingIsDigits(f);
    assert s == f + Zeros(6 - |f|) && |s| == 6;
    ParseBelow(s);
    assert Pow10(6) == UNIT;
    PaddedDigits(s);
    var d := Digits(ParseNat(s));
    assert PadStart(d) == s by {
      assert |d| == 6 ==> Zeros(0) + d == d;
    }
    StripPadded(f, 6 - |f|);
  }

  /** And every canonical string is printed: it is the printed form of what it parses to. */
  lemma CanonicalIsPrinted(w: string, f: string) returns (u: nat)
    requires Canonical(w, f)
    ensures UsdcToBaseUnits(Joined(w, f)) == Ok(u) && FormatUsdc(u) == Joined(w, f)
  {
    DigitRange(w);
    DigitRange(f);
    FractionPrints(f);
    DigitsOfParse(w);
    var whole: nat, rest: nat := ParseNat(w), ParseNat(PadEnd(f));
    u := whole * UNIT + rest;
    ParsesUnsigned(w, f, whole, rest);
    FormatHalves(u, whole, rest, w, f);
  }

  lemma JoinedUnsigned(w: string, f: string)
    ensures Joined(w, f) == (if false then "-" else "") + w + (if f == [] then [] else "." + f)
  {
    assert "" + w == w;
  }

  lemma ParsesUnsigned(w: string, f: string, whole: nat, rest: nat)
    requires AllDigits(w) && w != [] && ParseNat(w) == whole
    requires AllDigits(f) && |f| <= DECIMALS && AllDigits(PadEnd(f)) && ParseNat(PadEnd(f)) == rest
    ensures UsdcToBaseUnits(Joined(w, f)) == Ok(whole * UNIT + rest)
  {
    JoinedUnsigned(w, f);
    ParsesPlain(false, w, f, Joined(w, f), whole, rest);
  }

  // ---- The parser ----

  predicate Spaces(s: string) {
    forall c | c in s :: IsSpace(c)
  }

  /** White space, perhaps a minus sign, digits, perhaps a point and digits, and white space. */
  predicate Decimal(pre: string, negative: bool, w: string, f: string, post: string) {
    && Spaces(pre) && Spaces(post)
    && w != [] && (forall c | c in w :: '0' <= c <= '9') && (forall c | c in f :: '0' <= c <= '9')
  }

  function Core(negative: bool, w: string, f: string): string {
    (if negative then "-" else "") + Joined(w, f)
  }

  lemma {:induction false} TrimDecorated(pre: string, core: string, post: string)
    requires Spaces(pre) && Spaces(post) && core != [] && !IsSpace(core[0]) && !IsSpace(core[|core| - 1])
    ensures Trim(pre + core + post) == core
    decreases |pre| + |post|
  {
    var s := pre + core + post;
    if pre != [] {
      assert pre[0] in pre && s[0] == pre[0];
      assert s[1..] == pre[1..] + core + post;
      TrimDecorated(pre[1..], core, post);
    } else if post != [] {
      assert s[0] == core[0];
      assert post[|post| - 1] in post && s[|s| - 1] == post[|post| - 1];
      assert s[..|s| - 1] == pre + core + post[..|post| - 1];
      TrimDecorated(pre, core, post[..|post| - 1]);
    } else {
      assert s == core;
    }
  }

  lemma {:induction false} TrimSplits(s: string) returns (pre: string, post: string)
    ensures Spaces(pre) && Spaces(post) && s == pre + Trim(s) + post
    decreases |s|
  {
    pre, post := "", "";
    if s != [] && IsSpace(s[0]) {
      var p, q := TrimSplits(s[1..]);
      pre, post := [s[0]] + p, q;
      assert s == [s[0]] + s[1..];
    } else if s != [] && IsSpace(s[|s| - 1]) {
      var p, q := TrimSplits(s[..|s| - 1]);
      pre, post := p, q + [s[|s| - 1]];
      assert s == s[..|s| - 1] + [s[|s| - 1]];
    }
  }

  /** The worth of digits w.f in millionths, by place value. */
  function Worth(w: string, f: string): int
    requires AllDigits(w) && AllDigits(f) && |f| <= 6
  {
    PlaceValue(w + f, |w| + 5)
  }

  lemma CoreEnds(negative: bool, w: string, f: string)
    requires Decimal("", negative, w, f, "")
    ensures var t := Core(negative, w, f); t != [] && !IsSpace(t[0]) && !IsSpace(t[|t| - 1])
  {
    var t := Core(negative, w, f);
    DigitsAreNotSpecial(w);
    DigitsAreNotSpecial(f);
    assert w[0] in w && w[|w| - 1] in w;
    assert t[0] == if negative then '-' else w[0];
    if f != [] {
      assert f[|f| - 1] in f && t[|t| - 1] == f[|f| - 1];
    } else {
      assert t[|t| - 1] == w[|w| - 1];
    }
  }

  /** A decimal with at most six places parses to its worth, one with more is refused as too precise. */
  lemma DecimalParses(pre: string, negative: bool, w: string, f: string, post: string)
    requires Decimal(pre, negative, w, f, post)
    ensures UsdcToBaseUnits(pre + Core(negative, w, f) + post) ==
            if |f| > 6 then Err(TooManyDecimals) else Ok(if negative then -Worth(w, f) else Worth(w, f))
  {
    var t := Core(negative, w, f);
    CoreEnds(negative, w, f);
    TrimDecorated(pre, t, post);
    NoTrim(t);
    CoreParses(negative, w, f, t, UsdcToBaseUnits(t));
  }

  lemma CoreParses(negative: bool, w: string, f: string, t: string, r: Result<int, AmountError>)
    requires AllDigits(w) && w != [] && AllDigits(f) && t == Core(negative, w, f) && r == UsdcToBaseUnits(t)
    ensures r == if |f| > 6 then Err(TooManyDecimals) else Ok(if negative then -Worth(w, f) else Worth(w, f))
  {
    CoreToParts(negative, w, f, t);
    PartsParse(negative, w, f, r);
  }

  lemma CoreToParts(negative: bool, w: string, f: string, t: string)
    requires AllDigits(w) && w != [] && AllDigits(f) && t == Core(negative, w, f)
    ensures UsdcToBaseUnits(t) == BaseUnits(Parts(negative, w, f != [], f))
  {
    LastIsNoSpace(f);
    CoreIsJoined(negative, w, f);
    ParsesJoined(negative, w, f, t);
  }

  lemma CoreIsJoined(negative: bool, w: string, f: string)
    ensures Core(negative, w, f) == (if negative then "-" else "") + w + (if f == [] then [] else "." + f)
  {
    var sign, tail := if negative then "-" else "", if f == [] then [] else "." + f;
    assert sign + (w + tail) == sign + w + tail;
  }

  lemma PartsParse(negative: bool, w: string, f: string, r: Result<int, AmountError>)
    requires AllDigits(w) && w != [] && AllDigits(f) && r == BaseUnits(Parts(negative, w, f != [], f))
    ensures r == if |f| > 6 then Err(TooManyDecimals) else Ok(if negative then -Worth(w, f) else Worth(w, f))
  {
    var p := Parts(negative, w, f != [], f);
    if |f| <= 6 {
      ExactParts(p);
      assert Millionths(p) == if negative then -Worth(w, f) else Worth(w, f);
    }
  }

  lemma SplitJoins(t: string)
    requires IsDecimal(Split(t))
    ensures var p := Split(t); t == Core(p.negative, p.whole, p.frac) && Decimal("", p.negative, p.whole, p.frac, "")
  {
    var p := Split(t);
    DigitRange(p.whole);
    DigitRange(p.frac);
    if t != [] && t[0] == '-' {
      UnsignedJoins(true, t[1..]);
      assert t == "-" + t[1..];
    } else {
      UnsignedJoins(false, t);
      assert t == "" + t;
    }
  }

  lemma UnsignedJoins(negative: bool, m: string)
    requires IsDecimal(SplitUnsigned(negative, m))
    ensures var p := SplitUnsigned(negative, m); p.negative == negative && m == Joined(p.whole, p.frac)
  {
    var i := DotAt(m);
    if i < |m| {
      assert m == m[..i] + ("." + m[i + 1..]);
    } else {
      assert m + [] == m;
    }
  }

  /** Nothing else is accepted: what parses is such a decimal. */
  lemma AcceptedIsDecimal(amount: string) returns (pre: string, negative: bool, w: string, f: string, post: string)
    requires UsdcToBaseUnits(amount).Ok?
    ensures Decimal(pre, negative, w, f, post) && |f| <= 6 && amount == pre + Core(negative, w, f) + post
  {
    var t := Trim(amount);
    pre, post := TrimSplits(amount);
    SplitJoins(t);
    negative, w, f := Split(t).negative, Split(t).whole, Split(t).frac;
  }
}
