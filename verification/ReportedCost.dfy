/** A provider-reported cost read from JSON number text without floating point, from `pricing.rs`. */
module ReportedCosts {
  import opened Prelude
  import opened Decimal
  import opened Money
  import opened Pricing

  const MAX_SIGNIFICANT_DIGITS: nat := 36
  const MAX_EXPONENT_DIGITS: nat := 6
  const MAX_POW10_U128: nat := 38

  datatype ReportedCost = ReportedCost(attodollars: U128, subAttodollar: bool, usd: Usd)

  // ---- the numbers of section 6 of RFC 8259, without a sign ----

  datatype Exponent = Exponent(mark: char, sign: string, digits: string) {
    predicate WellFormed() {
      mark in {'e', 'E'} && sign in {"", "+", "-"} && digits != [] && AllDigits(digits)
    }

    /** The text behind the mark. */
    function Body(): string {
      sign + digits
    }

    function Text(): string {
      [mark] + Body()
    }

    function Value(): int
      requires WellFormed()
    {
      if sign == "-" then 0 - Num(digits) else Num(digits)
    }
  }

  datatype JsonNumber = JsonNumber(whole: string, fraction: string, exponent: Option<Exponent>) {
    ghost predicate WellFormed() {
      IsCanonical(whole) && AllDigits(fraction) && (exponent.Some? ==> exponent.value.WellFormed())
    }

    function Mantissa(): string {
      whole + (if fraction == [] then [] else "." + fraction)
    }

    function Text(): string {
      Mantissa() + (if exponent.Some? then exponent.value.Text() else [])
    }

    function Power(): int
      requires exponent.Some? ==> exponent.value.WellFormed()
    {
      if exponent.Some? then exponent.value.Value() else 0
    }
  }

  /** A well-formed exponent with too many digits, behind anything without a mark. */
  ghost predicate HasLongExponent(input: string) {
    exists m: string, x: Exponent :: IsLongExponent(input, m, x)
  }

  ghost predicate IsLongExponent(input: string, m: string, x: Exponent) {
    && x.WellFormed() && |x.digits| > MAX_EXPONENT_DIGITS && input == m + x.Text()
    && forall i :: 0 <= i < |m| ==> m[i] !in {'e', 'E'}
  }

  ghost predicate IsNumberText(input: string) {
    exists n: JsonNumber :: n.WellFormed() && n.Text() == input
  }

  // ---- the exact value as a fraction of two integers ----

  function Numerator(whole: string, fraction: string, power: int): nat
    requires AllDigits(whole) && AllDigits(fraction)
  {
    Num(whole + fraction) * Pow10(Max(power, 0))
  }

  function Denominator(fraction: string, power: int): nat
    ensures Denominator(fraction, power) >= 1
  {
    Pow10(|fraction| + Max(-power, 0))
  }

  /** The digits that count, without leading and trailing zeros. */
  function Significant(digits: string): string {
    TrimEndZeros(TrimStartZeros(digits))
  }

  /** The exact value in attodollars rounded up once, the flag, and the value in micro-units rounded up once. */
  ghost function ExactCost(whole: string, fraction: string, power: int): Result<ReportedCost, PricingError>
    requires AllDigits(whole) && AllDigits(fraction)
  {
    var n, d := Numerator(whole, fraction, power), Denominator(fraction, power);
    if |Significant(whole + fraction)| > MAX_SIGNIFICANT_DIGITS then Err(TooPrecise)
    else if DivCeil(n * 1_000_000, d) > I64_MAX then Err(OutOfRange)
    else
      MicrosBoundAtto(n, d);
      Ok(ReportedCost(DivCeil(n * ATTO_PER_DOLLAR, d), (n * ATTO_PER_DOLLAR) % d != 0, DivCeil(n * 1_000_000, d)))
  }

  // ---- rounding twice is rounding once ----

  lemma MulCancel(a: nat, b: nat, d: nat)
    requires d >= 1
    ensures a <= b <==> a * d <= b * d
    ensures a == b <==> a * d == b * d
  {
    if a < b {
      assert b * d == a * d + (b - a) * d;
      TimesMonotone(d, 1, b - a);
      assert d * (b - a) == (b - a) * d;
    } else {
      assert a * d == b * d + (a - b) * d;
      if a > b {
        TimesMonotone(d, 1, a - b);
        assert d * (a - b) == (a - b) * d;
      }
    }
  }

  /** The ceiling of a fraction does not depend on how the fraction is written. */
  lemma SameFraction(a: nat, b: nat, c: nat, d: nat)
    requires b >= 1 && d >= 1 && a * d == c * b
    ensures DivCeil(a, b) == DivCeil(c, d)
    ensures a % b == 0 <==> c % d == 0
  {
    var p, q := DivCeil(a, b), DivCeil(c, d);
    SameFractionAtMost(a, b, c, d, p);
    SameFractionAtMost(a, b, c, d, q);
    Divides(a, b);
    Divides(c, d);
    MulCancel(p * b, a, d);
    MulCancel(p * d, c, b);
    assert p * b * d == p * d * b;
  }

  lemma SameFractionAtMost(a: nat, b: nat, c: nat, d: nat, q: nat)
    requires b >= 1 && d >= 1 && a * d == c * b
    ensures DivCeil(a, b) <= q <==> DivCeil(c, d) <= q
  {
    DivCeilAtMost(a, b, q);
    DivCeilAtMost(c, d, q);
    MulCancel(a, q * b, d);
    MulCancel(c, q * d, b);
    assert q * b * d == q * d * b;
  }

  lemma Divides(a: nat, b: nat)
    requires b >= 1
    ensures a % b == 0 <==> DivCeil(a, b) * b == a
  {
    assert a == b * (a / b) + a % b;
    assert (a / b + 1) * b == b * (a / b) + b;
  }

  /** Rounding up a rounded-up quotient is rounding up once. */
  lemma NestedCeiling(a: nat, b: nat, c: nat)
    requires b >= 1 && c >= 1
    ensures b * c >= 1
    ensures DivCeil(DivCeil(a, b), c) == DivCeil(a, b * c)
  {
    MulCancel(1, b, c);
    var p, q := DivCeil(DivCeil(a, b), c), DivCeil(a, b * c);
    NestedAtMost(a, b, c, p);
    NestedAtMost(a, b, c, q);
  }

  lemma NestedAtMost(a: nat, b: nat, c: nat, q: nat)
    requires b >= 1 && c >= 1 && b * c >= 1
    ensures DivCeil(DivCeil(a, b), c) <= q <==> DivCeil(a, b * c) <= q
  {
    DivCeilAtMost(DivCeil(a, b), c, q);
    DivCeilAtMost(a, b, q * c);
    DivCeilAtMost(a, b * c, q);
    assert q * c * b == q * (b * c);
  }

  /** The micro-units are the attodollars rounded up again. */
  lemma MicrosOfAtto(n: nat, d: nat)
    requires d >= 1
    ensures DivCeil(DivCeil(n * ATTO_PER_DOLLAR, d), ATTO_PER_MICRO) == DivCeil(n * 1_000_000, d)
  {
    NestedCeiling(n * ATTO_PER_DOLLAR, d, ATTO_PER_MICRO);
    assert n * ATTO_PER_DOLLAR * d == n * 1_000_000 * (d * ATTO_PER_MICRO) by {
      assert ATTO_PER_DOLLAR == 1_000_000 * ATTO_PER_MICRO;
      assert n * (1_000_000 * ATTO_PER_MICRO) * d == n * 1_000_000 * (d * ATTO_PER_MICRO);
    }
    SameFraction(n * ATTO_PER_DOLLAR, d * ATTO_PER_MICRO, n * 1_000_000, d);
  }

  lemma MicrosBoundAtto(n: nat, d: nat)
    requires d >= 1 && DivCeil(n * 1_000_000, d) <= I64_MAX
    ensures DivCeil(n * ATTO_PER_DOLLAR, d) <= U128_MAX
  {
    MicrosOfAtto(n, d);
    DivCeilAtMost(DivCeil(n * ATTO_PER_DOLLAR, d), ATTO_PER_MICRO, I64_MAX);
  }

  // ---- scaling the significant digits ----

  function ScaleAttodollars(mantissa: U128, scale: int): Result<(U128, bool), PricingError> {
    if scale >= 0 then
      if scale > MAX_POW10_U128 then Err(OutOfRange)
      else if mantissa * Pow10(scale) > U128_MAX then Err(OutOfRange)
      else
        NatTimes(mantissa, Pow10(scale));
        Ok((mantissa * Pow10(scale), false))
    else if -scale > MAX_POW10_U128 then Ok((1, true))
    else
      DivCeilAtMost(mantissa, Pow10(-scale), mantissa);
      NatTimes(mantissa, Pow10(-scale));
      Ok((DivCeil(mantissa, Pow10(-scale)), mantissa % Pow10(-scale) != 0))
  }

  lemma NatTimes(a: nat, b: nat)
    requires b >= 1
    ensures a * b >= a
  {
    assert a * b == a + a * (b - 1);
  }

  /** The shortcuts for powers beyond 38 change nothing: the true value is out of range, or a part of one attodollar. */
  lemma ScaleIsExact(mantissa: U128, scale: int, a: nat, d: nat)
    requires 1 <= mantissa < Pow10(MAX_SIGNIFICANT_DIGITS) && d >= 1
    requires scale >= 0 ==> a == mantissa * Pow10(scale) * d
    requires scale < 0 ==> a * Pow10(-scale) == mantissa * d
    ensures var scaled := ScaleAttodollars(mantissa, scale);
            && (scaled.Ok? ==> scaled.value == (DivCeil(a, d), a % d != 0))
            && (scaled.Err? ==> scaled.error == OutOfRange && DivCeil(a, d) > U128_MAX)
  {
    if scale >= 0 {
      ScaleUp(mantissa, scale, a, d);
    } else {
      ScaleDown(mantissa, -scale, a, d);
    }
  }

  lemma ScaleUp(mantissa: U128, scale: nat, a: nat, d: nat)
    requires mantissa >= 1 && d >= 1 && a == mantissa * Pow10(scale) * d
    ensures DivCeil(a, d) == mantissa * Pow10(scale) && a % d == 0
    ensures scale > MAX_POW10_U128 ==> mantissa * Pow10(scale) > U128_MAX
  {
    hide Pow10, DivCeil;
    NatTimes(mantissa, Pow10(scale));
    WholeFraction(mantissa * Pow10(scale), a, d);
    if scale > MAX_POW10_U128 {
      BeyondScale(mantissa, scale);
    }
  }

  lemma WholeFraction(v: nat, a: nat, d: nat)
    requires d >= 1 && a == v * d
    ensures DivCeil(a, d) == v && a % d == 0
  {
    hide DivCeil;
    SameFraction(a, d, v, 1);
    WholeCeiling(v);
  }

  lemma BeyondScale(mantissa: nat, scale: nat)
    requires mantissa >= 1 && scale > MAX_POW10_U128
    ensures mantissa * Pow10(scale) > U128_MAX
  {
    Pow10Monotone(39, scale);
    BeyondRange();
    hide Pow10;
    TimesMonotone(Pow10(scale), 1, mantissa);
  }

  lemma WholeCeiling(v: nat)
    ensures DivCeil(v, 1) == v && v % 1 == 0
  {
  }

  lemma ScaleDown(mantissa: U128, down: nat, a: nat, d: nat)
    requires 1 <= mantissa < Pow10(MAX_SIGNIFICANT_DIGITS) && d >= 1 && a * Pow10(down) == mantissa * d
    ensures DivCeil(a, d) == DivCeil(mantissa, Pow10(down))
    ensures a % d == 0 <==> mantissa % Pow10(down) == 0
    ensures down > MAX_POW10_U128 ==> DivCeil(a, d) == 1 && a % d != 0
  {
    hide Pow10, DivCeil;
    SameFraction(a, d, mantissa, Pow10(down));
    if down > MAX_POW10_U128 {
      Pow10Monotone(MAX_SIGNIFICANT_DIGITS, down);
      PartOfOne(mantissa, Pow10(down));
    }
  }

  lemma BeyondRange()
    ensures Pow10(39) > U128_MAX
  {
    AttoIsPow10();
    Pow10Add(18, 18);
    Pow10Add(36, 3);
    assert Pow10(3) == 1000;
  }

  lemma PartOfOne(a: nat, b: nat)
    requires 1 <= a < b
    ensures DivCeil(a, b) == 1 && a % b != 0
  {
  }

  /** The digits are the significant digits times the power of ten that was trimmed. */
  lemma TrimmedValue(digits: string)
    requires AllDigits(digits)
    ensures AllDigits(TrimStartZeros(digits)) && AllDigits(Significant(digits))
    ensures |TrimStartZeros(digits)| >= |Significant(digits)|
    ensures Num(digits) == Num(Significant(digits)) * Pow10(|TrimStartZeros(digits)| - |Significant(digits)|)
    ensures Significant(digits) == [] <==> Num(digits) == 0
    ensures Num(Significant(digits)) < Pow10(|Significant(digits)|)
  {
    hide Num, Pow10, TrimStartZeros, TrimEndZeros, Zeros;
    var sig := TrimStartZeros(digits);
    var trimmed := TrimEndZeros(sig);
    TrimStartSplits(digits);
    TrimEndSplits(sig);
    NumLeadingZeros(|digits| - |sig|, sig);
    NumTrailingZeros(trimmed, |sig| - |trimmed|);
    NumBound(trimmed);
    if trimmed == [] {
      EmptyIsZero();
    } else {
      NumPositive(trimmed);
    }
  }

  /** The attodollar numerator with all powers of ten collected. */
  lemma CollectPowers(m: nat, z: nat, p: nat)
    ensures m * Pow10(z) * Pow10(p) * ATTO_PER_DOLLAR == m * Pow10(z + p + 18)
  {
    AttoIsPow10();
    hide Pow10;
    SplitPower(m, z, p);
    SplitPower(m, z + p, 18);
  }

  lemma SplitPower(m: nat, a: nat, b: nat)
    ensures m * Pow10(a + b) == m * Pow10(a) * Pow10(b)
  {
    Pow10Add(a, b);
    hide Pow10;
    Associate(m, Pow10(a), Pow10(b));
  }

  lemma Associate(a: nat, b: nat, c: nat)
    ensures a * (b * c) == a * b * c
  {
  }

  /** The scale the parser computes is the true power of ten over the denominator. */
  lemma ScaleOfValue(whole: string, fraction: string, power: int)
    requires AllDigits(whole) && AllDigits(fraction)
    ensures var digits := whole + fraction;
            var trimmed := Significant(digits);
            var scale := ScaleOf(whole, fraction, power);
            var a, d := Numerator(whole, fraction, power) * ATTO_PER_DOLLAR, Denominator(fraction, power);
            && AllDigits(trimmed)
            && (scale >= 0 ==> a == Num(trimmed) * Pow10(scale) * d)
            && (scale < 0 ==> a * Pow10(-scale) == Num(trimmed) * d)
  {
    hide Num, Pow10, Significant, TrimStartZeros;
    var digits := whole + fraction;
    TrimmedValue(digits);
    var trimmed := Significant(digits);
    var z, m := |TrimStartZeros(digits)| - |trimmed|, Num(trimmed);
    var up, down := Max(power, 0), |fraction| + Max(-power, 0);
    CollectPowers(m, z, up);
    BalancePowers(m, z + up + 18, down, power - |fraction| + 18 + z);
  }

  lemma BalancePowers(m: nat, up: nat, down: nat, scale: int)
    requires up == scale + down
    ensures scale >= 0 ==> m * Pow10(up) == m * Pow10(scale) * Pow10(down)
    ensures scale < 0 ==> m * Pow10(up) * Pow10(-scale) == m * Pow10(down)
  {
    if scale >= 0 {
      SplitPower(m, scale, down);
    } else {
      SplitPower(m, up, -scale);
    }
  }

  /** The power of ten, in attodollars, that the significant digits count. */
  function ScaleOf(whole: string, fraction: string, exponent: int): int {
    var digits := whole + fraction;
    exponent - |fraction| + 18 + (|TrimStartZeros(digits)| - |Significant(digits)|)
  }

  method CostOf(whole: string, fraction: string, exponent: int) returns (r: Result<ReportedCost, PricingError>)
    requires AllDigits(whole) && AllDigits(fraction)
    ensures r == ExactCost(whole, fraction, exponent)
  {
    hide *;
    var scale := exponent - |fraction| + 18;
    var digits := whole + fraction;
    var significant := TrimStartZeros(digits);
    var trimmed := TrimEndZeros(significant);
    SignificantParts(digits);
    ScaleParts(whole, fraction, exponent);
    CostCases(whole, fraction, exponent, trimmed, ScaleOf(whole, fraction, exponent));
    if trimmed == [] {
      return Ok(ReportedCost(0, false, 0));
    }
    scale := scale + (|significant| - |trimmed|);
    assert scale == ScaleOf(whole, fraction, exponent);
    if |trimmed| > MAX_SIGNIFICANT_DIGITS {
      return Err(TooPrecise);
    }
    var mantissa := Accumulate(0, trimmed).value;
    var scaled := ScaleAttodollars(mantissa, scale);
    r := CostFromScaled(scaled);
  }

  /** What the exact cost is in each case the parser distinguishes. */
  lemma CostCases(whole: string, fraction: string, exponent: int, trimmed: string, scale: int)
    requires AllDigits(whole) && AllDigits(fraction)
    requires trimmed == TrimEndZeros(TrimStartZeros(whole + fraction)) && scale == ScaleOf(whole, fraction, exponent)
    ensures AllDigits(trimmed)
    ensures trimmed == [] ==> ExactCost(whole, fraction, exponent) == Ok(ReportedCost(0, false, 0))
    ensures |trimmed| > MAX_SIGNIFICANT_DIGITS ==> ExactCost(whole, fraction, exponent) == Err(TooPrecise)
    ensures 0 < |trimmed| <= MAX_SIGNIFICANT_DIGITS ==>
              && Accumulate(0, trimmed).Some?
              && ExactCost(whole, fraction, exponent)
                 == CostFromScaled(ScaleAttodollars(Accumulate(0, trimmed).value, scale))
  {
    hide Num, Pow10, ExactCost, ScaleAttodollars, CostFromScaled, Accumulate, TrimStartZeros, TrimEndZeros,
         Significant, ScaleOf;
    SignificantParts(whole + fraction);
    SignificantDigits(whole + fraction);
    if trimmed == [] {
      ZeroCost(whole, fraction, exponent);
    } else if |trimmed| > MAX_SIGNIFICANT_DIGITS {
      PreciseCost(whole, fraction, exponent);
    } else {
      ShortMantissa(trimmed);
      ScaledCost(whole, fraction, exponent);
    }
  }

  lemma SignificantDigits(digits: string)
    requires AllDigits(digits)
    ensures AllDigits(Significant(digits))
  {
    TrimmedValue(digits);
  }

  lemma SignificantParts(digits: string)
    ensures Significant(digits) == TrimEndZeros(TrimStartZeros(digits))
  {
  }

  lemma ScaleParts(whole: string, fraction: string, exponent: int)
    ensures ScaleOf(whole, fraction, exponent)
         == exponent - |fraction| + 18 + (|TrimStartZeros(whole + fraction)| - |Significant(whole + fraction)|)
  {
  }

  lemma PreciseCost(whole: string, fraction: string, exponent: int)
    requires AllDigits(whole) && AllDigits(fraction)
    requires |Significant(whole + fraction)| > MAX_SIGNIFICANT_DIGITS
    ensures ExactCost(whole, fraction, exponent) == Err(TooPrecise)
  {
  }

  /** The cost that the scaled attodollars give, rounded up a second time for the ledger. */
  function CostFromScaled(scaled: Result<(U128, bool), PricingError>): Result<ReportedCost, PricingError> {
    match scaled
    case Err(error) => Err(error)
    case Ok(v) =>
      match CeilUsd(v.0)
      case Err(error) => Err(error)
      case Ok(usd) => Ok(ReportedCost(v.0, v.1, usd))
  }

  lemma ScaledCost(whole: string, fraction: string, exponent: int)
    requires AllDigits(whole) && AllDigits(fraction)
    requires AllDigits(Significant(whole + fraction)) && 0 < |Significant(whole + fraction)| <= MAX_SIGNIFICANT_DIGITS
    requires 1 <= Num(Significant(whole + fraction)) <= U128_MAX
    requires Num(Significant(whole + fraction)) < Pow10(MAX_SIGNIFICANT_DIGITS)
    ensures ExactCost(whole, fraction, exponent)
         == CostFromScaled(ScaleAttodollars(Num(Significant(whole + fraction)), ScaleOf(whole, fraction, exponent)))
  {
    var m, scale := Num(Significant(whole + fraction)), ScaleOf(whole, fraction, exponent);
    var n, d := Numerator(whole, fraction, exponent), Denominator(fraction, exponent);
    ScaleOfValue(whole, fraction, exponent);
    ScaleIsExact(m, scale, n * ATTO_PER_DOLLAR, d);
    TwiceIsOnce(n, d, ScaleAttodollars(m, scale));
    hide Num, Pow10, Significant, TrimStartZeros, TrimEndZeros, Numerator, Denominator, DivCeil, ScaleAttodollars,
         ScaleOf, CostFromScaled;
  }

  lemma TwiceIsOnce(n: nat, d: nat, scaled: Result<(U128, bool), PricingError>)
    requires d >= 1
    requires scaled.Ok? ==> scaled.value == (DivCeil(n * ATTO_PER_DOLLAR, d), (n * ATTO_PER_DOLLAR) % d != 0)
    requires scaled.Err? ==> scaled.error == OutOfRange && DivCeil(n * ATTO_PER_DOLLAR, d) > U128_MAX
    ensures DivCeil(n * 1_000_000, d) > I64_MAX ==> CostFromScaled(scaled) == Err(OutOfRange)
    ensures DivCeil(n * 1_000_000, d) <= I64_MAX ==>
              DivCeil(n * ATTO_PER_DOLLAR, d) <= U128_MAX
              && CostFromScaled(scaled)
                 == Ok(ReportedCost(DivCeil(n * ATTO_PER_DOLLAR, d), (n * ATTO_PER_DOLLAR) % d != 0,
                                    DivCeil(n * 1_000_000, d)))
  {
    MicrosOfAtto(n, d);
    if DivCeil(n * 1_000_000, d) <= I64_MAX {
      MicrosBoundAtto(n, d);
    }
  }

  lemma ShortMantissa(trimmed: string)
    requires AllDigits(trimmed) && trimmed != [] && trimmed[|trimmed| - 1] != '0'
    requires |trimmed| <= MAX_SIGNIFICANT_DIGITS
    ensures Accumulate(0, trimmed) == Some(Num(trimmed))
    ensures 1 <= Num(trimmed) <= U128_MAX && Num(trimmed) < Pow10(MAX_SIGNIFICANT_DIGITS)
  {
    NumPositive(trimmed);
    NumBound(trimmed);
    Pow10Monotone(|trimmed|, MAX_SIGNIFICANT_DIGITS);
    AttoIsPow10();
    Pow10Add(18, 18);
    AccumulateDigits(trimmed);
  }

  lemma ZeroCost(whole: string, fraction: string, exponent: int)
    requires AllDigits(whole) && AllDigits(fraction) && Significant(whole + fraction) == []
    ensures ExactCost(whole, fraction, exponent) == Ok(ReportedCost(0, false, 0))
  {
    TrimmedValue(whole + fraction);
    assert Numerator(whole, fraction, exponent) == 0;
    hide Num, Pow10, Significant, Numerator, Denominator;
    assert DivCeil(0, Denominator(fraction, exponent)) == 0;
  }

  // ---- reading the text ----

  function ParseExponent(text: string): Result<int, PricingError> {
    var (negative, digits) :=
      if text != [] && text[0] == '-' then (true, text[1..])
      else if text != [] && text[0] == '+' then (false, text[1..])
      else (false, text);
    if digits == [] || !AllDigits(digits) then Err(InvalidNumber)
    else if |digits| > MAX_EXPONENT_DIGITS then Err(OutOfRange)
    else
      match Accumulate(0, digits)
      case None => Err(OutOfRange)
      case Some(value) => if value > I64_MAX then Err(OutOfRange) else Ok(if negative then 0 - value else value)
  }

  lemma ShortExponent(digits: string)
    requires AllDigits(digits) && |digits| <= MAX_EXPONENT_DIGITS
    ensures Accumulate(0, digits) == Some(Num(digits)) && Num(digits) <= I64_MAX
  {
    MillionIsPow10();
    NumBound(digits);
    Pow10Monotone(|digits|, MAX_EXPONENT_DIGITS);
    AccumulateDigits(digits);
  }

  lemma ExponentRead(x: Exponent)
    requires x.WellFormed()
    ensures ParseExponent(x.Body()) == if |x.digits| > MAX_EXPONENT_DIGITS then Err(OutOfRange) else Ok(x.Value())
  {
    var text := x.Body();
    if x.sign == "" {
      assert text == x.digits;
      assert IsDigit(text[0]);
    } else {
      assert text[0] == x.sign[0] && text[1..] == x.digits;
    }
    if |x.digits| <= MAX_EXPONENT_DIGITS {
      ShortExponent(x.digits);
    }
  }

  /** Any text that is not refused as no number is the body of an exponent. */
  lemma ExponentWritten(mark: char, text: string) returns (x: Exponent)
    requires mark in {'e', 'E'} && ParseExponent(text) != Err(InvalidNumber)
    ensures x.WellFormed() && x.mark == mark && x.Body() == text
  {
    if text != [] && text[0] in {'-', '+'} {
      x := Exponent(mark, text[..1], text[1..]);
      assert text[..1] == "-" || text[..1] == "+";
      assert text == text[..1] + text[1..];
    } else {
      x := Exponent(mark, "", text);
      assert "" + text == text;
    }
  }

  /** Splitting at the first mark finds the exponent. */
  lemma MarkSplit(input: string, m: string, x: Exponent)
    requires x.mark in {'e', 'E'} && input == m + x.Text()
    requires forall i :: 0 <= i < |m| ==> m[i] !in {'e', 'E'}
    ensures SplitOnce(input, {'e', 'E'}) == Some((m, x.Body())) && input[|m|] == x.mark
  {
    assert input == m + [x.mark] + x.Body();
    assert input[|m|] == x.mark;
    assert forall i :: 0 <= i < |m| ==> input[i] == m[i];
    var split := SplitOnce(input, {'e', 'E'}).value;
    assert |split.0| == |m|;
    assert split.0 == m;
    assert split.1 == x.Body();
  }

  lemma NoMarks(n: JsonNumber)
    requires n.WellFormed()
    ensures IsDecimal(n.Mantissa(), n.whole, n.fraction)
    ensures forall i :: 0 <= i < |n.Mantissa()| ==> n.Mantissa()[i] !in {'e', 'E'}
  {
  }

  /** What splitting finds in the text of a number. */
  lemma NumberSplits(n: JsonNumber)
    requires n.WellFormed()
    ensures n.exponent.None? ==> SplitOnce(n.Text(), {'e', 'E'}) == None && n.Text() == n.Mantissa()
    ensures n.exponent.Some? ==>
              && SplitOnce(n.Text(), {'e', 'E'}) == Some((n.Mantissa(), n.exponent.value.Body()))
              && n.Text()[|n.Mantissa()|] == n.exponent.value.mark
  {
    NoMarks(n);
    if n.exponent.Some? {
      MarkSplit(n.Text(), n.Mantissa(), n.exponent.value);
    } else {
      assert n.Text() == n.Mantissa();
    }
  }

  /** A text is a number in at most one way. */
  lemma NumberUnique(a: JsonNumber, b: JsonNumber)
    requires a.WellFormed() && b.WellFormed() && a.Text() == b.Text()
    ensures a == b
  {
    NumberSplits(a);
    NumberSplits(b);
    NoMarks(a);
    NoMarks(b);
    DecimalUnique(a.Mantissa(), a.whole, a.fraction, b.whole, b.fraction);
    if a.exponent.Some? {
      BodyUnique(a.exponent.value, b.exponent.value);
    }
  }

  lemma BodyUnique(x: Exponent, y: Exponent)
    requires x.WellFormed() && y.WellFormed() && x.mark == y.mark && x.Body() == y.Body()
    ensures x == y
  {
    var text := x.Body();
    assert x.sign == "" ==> text[0] == x.digits[0];
    assert y.sign == "" ==> text[0] == y.digits[0];
    assert x.digits == text[|x.sign|..] && y.digits == text[|y.sign|..];
  }

  ghost function NumberOf(input: string): (n: JsonNumber)
    requires IsNumberText(input)
    ensures n.WellFormed() && n.Text() == input
  {
    var n: JsonNumber :| n.WellFormed() && n.Text() == input;
    n
  }

  /** What a cost text means: which texts are refused and why, and the exact cost of the others. */
  ghost function CostMeaning(input: string): Result<ReportedCost, PricingError> {
    if CheckText(input).Some? then Err(CheckText(input).value)
    else if HasLongExponent(input) then Err(OutOfRange)
    else if !IsNumberText(input) then Err(InvalidNumber)
    else
      var n := NumberOf(input);
      ExactCost(n.whole, n.fraction, n.Power())
  }

  /** The reading does not depend on how the number was found. */
  lemma CostMeaningOf(n: JsonNumber)
    requires n.WellFormed() && CheckText(n.Text()) == None
    ensures CostMeaning(n.Text())
         == if n.exponent.Some? && |n.exponent.value.digits| > MAX_EXPONENT_DIGITS then Err(OutOfRange)
            else ExactCost(n.whole, n.fraction, n.Power())
  {
    var input := n.Text();
    NumberUnique(NumberOf(input), n);
    NoMarks(n);
    if n.exponent.Some? && |n.exponent.value.digits| > MAX_EXPONENT_DIGITS {
      assert IsLongExponent(input, n.Mantissa(), n.exponent.value);
    } else {
      NumberSplits(n);
      forall m: string, x: Exponent | IsLongExponent(input, m, x) ensures false {
        MarkSplit(input, m, x);
        ExponentRead(x);
        if n.exponent.Some? {
          ExponentRead(n.exponent.value);
        }
      }
    }
  }

  method ParseCost(input: string) returns (r: Result<ReportedCost, PricingError>)
    ensures r == CostMeaning(input)
  {
    var refused := CheckText(input);
    if refused.Some? {
      return Err(refused.value);
    }
    var marked := SplitOnce(input, {'e', 'E'});
    var mantissa, exponent := input, 0;
    if marked.Some? {
      mantissa := marked.value.0;
      var power := ParseExponent(marked.value.1);
      if power.Err? {
        RefusedExponent(input);
        return Err(power.error);
      }
      exponent := power.value;
    }
    SplitDecides(mantissa);
    var point := SplitOnce(mantissa, {'.'});
    var whole, fraction := mantissa, "";
    if point.Some? {
      if point.value.1 == [] || !AllDigits(point.value.1) {
        RefusedMantissa(input);
        return Err(InvalidNumber);
      }
      whole, fraction := point.value.0, point.value.1;
    }
    if whole != [] && AllDigits(whole) {
      PartsAre(mantissa, whole, fraction);
    }
    if !IsCanonical(whole) {
      RefusedMantissa(input);
      return Err(InvalidNumber);
    }
    AcceptedText(input, whole, fraction);
    r := CostOf(whole, fraction, exponent);
  }

  lemma RefusedExponent(input: string)
    requires CheckText(input) == None && SplitOnce(input, {'e', 'E'}).Some?
    requires ParseExponent(SplitOnce(input, {'e', 'E'}).value.1).Err?
    ensures CostMeaning(input) == Err(ParseExponent(SplitOnce(input, {'e', 'E'}).value.1).error)
  {
    var (m, body) := SplitOnce(input, {'e', 'E'}).value;
    if ParseExponent(body).error == InvalidNumber {
      BadExponent(input, body);
    } else {
      LongExponent(input, m, body);
    }
  }

  lemma LongExponent(input: string, m: string, body: string)
    requires SplitOnce(input, {'e', 'E'}) == Some((m, body))
    requires ParseExponent(body).Err? && ParseExponent(body).error != InvalidNumber
    ensures HasLongExponent(input) && ParseExponent(body).error == OutOfRange
  {
    hide SplitOnce, Find, ParseExponent;
    var x := ExponentWritten(input[|m|], body);
    ExponentRead(x);
    assert input == m + ([x.mark] + x.Body());
    assert IsLongExponent(input, m, x);
  }

  lemma BadExponent(input: string, body: string)
    requires SplitOnce(input, {'e', 'E'}).Some? && SplitOnce(input, {'e', 'E'}).value.1 == body
    requires ParseExponent(body) == Err(InvalidNumber)
    ensures !HasLongExponent(input) && !IsNumberText(input)
  {
    hide SplitOnce, Find, ParseExponent;
    forall x: string, y: Exponent | IsLongExponent(input, x, y) ensures false {
      MarkSplit(input, x, y);
      ExponentRead(y);
    }
    forall n: JsonNumber | n.WellFormed() && n.Text() == input ensures false {
      NumberSplits(n);
      ExponentRead(n.exponent.value);
    }
  }

  /** The part in front of the exponent. */
  function MantissaOf(input: string): string {
    match SplitOnce(input, {'e', 'E'})
    case Some(p) => p.0
    case None => input
  }

  /** The exponent read so far: short, or absent. */
  predicate ExponentFine(input: string) {
    match SplitOnce(input, {'e', 'E'})
    case Some(p) => ParseExponent(p.1).Ok?
    case None => true
  }

  lemma NoLongExponent(input: string)
    requires ExponentFine(input)
    ensures !HasLongExponent(input)
  {
    forall m: string, x: Exponent | IsLongExponent(input, m, x) ensures false {
      MarkSplit(input, m, x);
      ExponentRead(x);
    }
  }

  lemma RefusedMantissa(input: string)
    requires CheckText(input) == None && ExponentFine(input)
    requires !IsDecimalText(MantissaOf(input)) || !IsCanonical(Parts(MantissaOf(input)).0)
    ensures CostMeaning(input) == Err(InvalidNumber)
  {
    NoLongExponent(input);
    forall n: JsonNumber | n.WellFormed() && n.Text() == input ensures false {
      NumberSplits(n);
      NoMarks(n);
      PartsAre(n.Mantissa(), n.whole, n.fraction);
    }
  }

  lemma AcceptedText(input: string, whole: string, fraction: string)
    requires CheckText(input) == None && ExponentFine(input)
    requires IsDecimal(MantissaOf(input), whole, fraction) && IsCanonical(whole)
    ensures var split := SplitOnce(input, {'e', 'E'});
            var power := if split.Some? then ParseExponent(split.value.1).value else 0;
            CostMeaning(input) == ExactCost(whole, fraction, power)
  {
    var split := SplitOnce(input, {'e', 'E'});
    if split.Some? {
      var m := split.value.0;
      var x := ExponentWritten(input[|m|], split.value.1);
      ExponentRead(x);
      AcceptedExponent(input, whole, fraction, x);
    } else {
      var n := JsonNumber(whole, fraction, None);
      assert n.Text() == n.Mantissa() == input;
      CostMeaningOf(n);
    }
  }

  lemma AcceptedExponent(input: string, whole: string, fraction: string, x: Exponent)
    requires CheckText(input) == None && x.WellFormed() && |x.digits| <= MAX_EXPONENT_DIGITS
    requires SplitOnce(input, {'e', 'E'}).Some?
    requires IsDecimal(MantissaOf(input), whole, fraction) && IsCanonical(whole)
    requires x.mark == input[|MantissaOf(input)|] && x.Body() == SplitOnce(input, {'e', 'E'}).value.1
    ensures CostMeaning(input) == ExactCost(whole, fraction, x.Value())
  {
    hide SplitOnce, Find, CheckText, ExactCost, CostMeaning;
    var n := JsonNumber(whole, fraction, Some(x));
    var m := MantissaOf(input);
    assert n.Mantissa() == m;
    assert input == m + [input[|m|]] + x.Body();
    assert x.Text() == [input[|m|]] + x.Body();
    assert n.Text() == input;
    CostMeaningOf(n);
  }

  /** A text is accepted exactly when it is an unsigned number within the limits whose micro-units fit. */
  lemma AcceptsExactly(input: string)
    ensures CostMeaning(input).Ok? <==>
              && CheckText(input) == None
              && IsNumberText(input)
              && var n := NumberOf(input);
                 && (n.exponent.Some? ==> |n.exponent.value.digits| <= 6)
                 && |Significant(n.whole + n.fraction)| <= 36
                 && DivCeil(Numerator(n.whole, n.fraction, n.Power()) * 1_000_000,
                            Denominator(n.fraction, n.Power())) <= I64_MAX
  {
    if CheckText(input) == None && IsNumberText(input) {
      CostMeaningOf(NumberOf(input));
    }
  }

  // ---- exponents, by the characters of the text ----

  /** The cost of the fraction `n / d` of a dollar: rounded up once in either unit, with the remainder flagged. */
  ghost function FractionCost(n: nat, d: nat): Result<ReportedCost, PricingError>
    requires d >= 1
  {
    if DivCeil(n * 1_000_000, d) > I64_MAX then Err(OutOfRange)
    else
      MicrosBoundAtto(n, d);
      Ok(ReportedCost(DivCeil(n * ATTO_PER_DOLLAR, d), (n * ATTO_PER_DOLLAR) % d != 0, DivCeil(n * 1_000_000, d)))
  }

  /** A text with an exponent: `whole`, a point and `fraction` unless that is empty, the mark, a sign, `digits`. */
  predicate Spells(text: string, whole: string, fraction: string, mark: char, sign: string, digits: string) {
    text == whole + (if fraction == "" then "" else "." + fraction) + [mark] + sign + digits
  }

  /** A minus sign divides by the power of ten that the digits name; no sign or a plus sign multiplies by it. */
  lemma ScientificCost(text: string, whole: string, fraction: string, mark: char, sign: string, digits: string)
    requires Spells(text, whole, fraction, mark, sign, digits) && CheckText(text) == None
    requires IsCanonical(whole) && AllDigits(fraction) && AllDigits(whole + fraction)
    requires AllDigits(digits) && 1 <= |digits| <= 6 && mark in {'e', 'E'} && sign in {"", "+", "-"}
    ensures CostMeaning(text)
         == if |Significant(whole + fraction)| > 36 then Err(TooPrecise)
            else if sign == "-" then FractionCost(Num(whole + fraction), Pow10(|fraction| + Num(digits)))
            else FractionCost(Num(whole + fraction) * Pow10(Num(digits)), Pow10(|fraction|))
  {
    hide *;
    CanonicalDigits(whole);
    ScientificReads(text, whole, fraction, mark, sign, digits);
    if sign == "-" {
      DividedCost(whole, fraction, Num(digits));
    } else {
      MultipliedCost(whole, fraction, Num(digits));
    }
  }

  lemma CanonicalDigits(whole: string)
    requires IsCanonical(whole)
    ensures AllDigits(whole)
  {
  }

  lemma ScientificReads(text: string, whole: string, fraction: string, mark: char, sign: string, digits: string)
    requires Spells(text, whole, fraction, mark, sign, digits) && CheckText(text) == None
    requires IsCanonical(whole) && AllDigits(whole) && AllDigits(fraction)
    requires AllDigits(digits) && 1 <= |digits| <= 6 && mark in {'e', 'E'} && sign in {"", "+", "-"}
    ensures CostMeaning(text) == ExactCost(whole, fraction, if sign == "-" then 0 - Num(digits) else Num(digits))
  {
    assert |digits| <= MAX_EXPONENT_DIGITS;
    hide *;
    ScientificText(text, whole, fraction, mark, sign, digits);
    ScientificParts(whole, fraction, mark, sign, digits);
    CostMeaningOf(JsonNumber(whole, fraction, Some(Exponent(mark, sign, digits))));
  }

  lemma ScientificParts(whole: string, fraction: string, mark: char, sign: string, digits: string)
    requires IsCanonical(whole) && AllDigits(fraction)
    requires AllDigits(digits) && |digits| >= 1 && mark in {'e', 'E'} && sign in {"", "+", "-"}
    ensures var n := JsonNumber(whole, fraction, Some(Exponent(mark, sign, digits)));
            n.WellFormed() && n.Power() == if sign == "-" then 0 - Num(digits) else Num(digits)
  {
    hide IsCanonical, AllDigits, Num;
  }

  lemma ScientificText(text: string, whole: string, fraction: string, mark: char, sign: string, digits: string)
    requires Spells(text, whole, fraction, mark, sign, digits)
    ensures JsonNumber(whole, fraction, Some(Exponent(mark, sign, digits))).Text() == text
  {
    ConcatFour(whole + (if fraction == "" then "" else "." + fraction), [mark], sign, digits);
  }

  lemma ConcatFour(a: string, b: string, c: string, d: string)
    ensures a + (b + (c + d)) == a + b + c + d
  {
  }

  lemma DividedCost(whole: string, fraction: string, k: nat)
    requires AllDigits(whole) && AllDigits(fraction) && AllDigits(whole + fraction)
    ensures ExactCost(whole, fraction, 0 - k)
         == if |Significant(whole + fraction)| > 36 then Err(TooPrecise)
            else FractionCost(Num(whole + fraction), Pow10(|fraction| + k))
  {
    PowerZero(Num(whole + fraction));
    assert Max(0 - k, 0) == 0 && Max(0 - (0 - k), 0) == k;
    hide Num, Pow10, Significant, DivCeil, AllDigits;
  }

  lemma MultipliedCost(whole: string, fraction: string, k: nat)
    requires AllDigits(whole) && AllDigits(fraction) && AllDigits(whole + fraction)
    ensures ExactCost(whole, fraction, k)
         == if |Significant(whole + fraction)| > 36 then Err(TooPrecise)
            else FractionCost(Num(whole + fraction) * Pow10(k), Pow10(|fraction|))
  {
    assert Max(k, 0) == k && Max(0 - k, 0) == 0;
    hide Num, Pow10, Significant, DivCeil, AllDigits;
  }

  lemma PowerZero(n: nat)
    ensures n * Pow10(0) == n
  {
  }

  /** 1.5e-5 dollars are 15 micro-units. */
  lemma SmallScientificCost()
    ensures CostMeaning("1.5e-5") == Ok(ReportedCost(15_000_000_000_000, false, 15))
  {
    assert "1" + ("." + "5") + ['e'] + "-" + "5" == "1.5e-5";
    assert Spells("1.5e-5", "1", "5", 'e', "-", "5");
    SmallDigits();
    hide *;
    ScientificCost("1.5e-5", "1", "5", 'e', "-", "5");
    FifteenMicros();
  }

  lemma SmallDigits()
    ensures "1" + "5" == "15" && Num("15") == 15 && Num("5") == 5 && Pow10(1 + 5) == 1_000_000
    ensures |Significant("15")| <= 36 && CheckText("1.5e-5") == None
    ensures IsCanonical("1") && AllDigits("5") && AllDigits("15")
  {
    SmallNumbers();
    SmallText();
    SignificantIsPart("15");
    hide Num, Pow10, CheckText, Significant;
  }

  lemma SignificantIsPart(digits: string)
    ensures |Significant(digits)| <= |digits|
  {
    hide TrimStartZeros, TrimEndZeros;
  }

  lemma SmallText()
    ensures CheckText("1.5e-5") == None
  {
    AsciiByteLen("1.5e-5");
    hide ByteLen;
  }

  lemma SmallNumbers()
    ensures Num("15") == 15 && Num("5") == 5 && Pow10(6) == 1_000_000
  {
    assert "15"[..1] == "1" && "1"[..0] == "" && "5"[..0] == "";
  }

  lemma FifteenMicros()
    ensures FractionCost(15, 1_000_000) == Ok(ReportedCost(15_000_000_000_000, false, 15))
  {
    WholeFraction(15, 15 * 1_000_000, 1_000_000);
    WholeFraction(15_000_000_000_000, 15 * ATTO_PER_DOLLAR, 1_000_000);
    hide DivCeil;
  }

  // ---- whole numbers of attodollars ----

  /** A number worth a whole number of attodollars in ledger range has few significant digits and fits the ledger. */
  lemma WholeValueFits(whole: string, fraction: string, power: int, value: nat)
    requires AllDigits(whole) && AllDigits(fraction) && value <= I64_MAX * ATTO_PER_MICRO
    requires Numerator(whole, fraction, power) * ATTO_PER_DOLLAR == value * Denominator(fraction, power)
    ensures |Significant(whole + fraction)| <= MAX_SIGNIFICANT_DIGITS
    ensures DivCeil(Numerator(whole, fraction, power) * 1_000_000, Denominator(fraction, power)) <= I64_MAX
  {
    hide *;
    WholeValueIsShort(whole, fraction, power, value);
    WholeMicrosFit(Numerator(whole, fraction, power), Denominator(fraction, power), value);
  }

  lemma WholeMicrosFit(n: nat, d: nat, value: nat)
    requires d >= 1 && n * ATTO_PER_DOLLAR == value * d && value <= I64_MAX * ATTO_PER_MICRO
    ensures DivCeil(n * 1_000_000, d) <= I64_MAX
  {
    hide DivCeil;
    MicrosOfAtto(n, d);
    WholeFraction(value, n * ATTO_PER_DOLLAR, d);
    DivCeilAtMost(value, ATTO_PER_MICRO, I64_MAX);
  }

  lemma WholeValueIsShort(whole: string, fraction: string, power: int, value: nat)
    requires AllDigits(whole) && AllDigits(fraction) && value <= I64_MAX * ATTO_PER_MICRO
    requires Numerator(whole, fraction, power) * ATTO_PER_DOLLAR == value * Denominator(fraction, power)
    ensures |Significant(whole + fraction)| <= MAX_SIGNIFICANT_DIGITS
  {
    hide *;
    ScaleOfValue(whole, fraction, power);
    SignificantEnds(whole + fraction);
    SignificantFits(Significant(whole + fraction), ScaleOf(whole, fraction, power), value,
                    value * Denominator(fraction, power), Denominator(fraction, power));
  }

  lemma SignificantFits(digits: string, scale: int, value: nat, a: nat, d: nat)
    requires AllDigits(digits) && d >= 1 && a == value * d && value <= I64_MAX * ATTO_PER_MICRO
    requires digits != [] ==> digits[0] != '0' && digits[|digits| - 1] != '0'
    requires scale >= 0 ==> a == Num(digits) * Pow10(scale) * d
    requires scale < 0 ==> a * Pow10(-scale) == Num(digits) * d
    ensures |digits| <= MAX_SIGNIFICANT_DIGITS
  {
    if digits != [] {
      SignificantAtMost(digits, scale, value, a, d);
      LargeIsLong(digits, value);
    }
  }

  lemma SignificantEnds(digits: string)
    ensures var s := Significant(digits); s != [] ==> s[0] != '0' && s[|s| - 1] != '0'
  {
  }

  /** Digits that end in no zero are worth no more than a whole number they are a power of ten of. */
  lemma SignificantAtMost(digits: string, scale: int, value: nat, a: nat, d: nat)
    requires AllDigits(digits) && digits != [] && digits[|digits| - 1] != '0' && d >= 1 && a == value * d
    requires scale >= 0 ==> a == Num(digits) * Pow10(scale) * d
    requires scale < 0 ==> a * Pow10(-scale) == Num(digits) * d
    ensures Num(digits) <= value
  {
    hide Num;
    if scale >= 0 {
      NatTimes(Num(digits), Pow10(scale));
      MulCancel(value, Num(digits) * Pow10(scale), d);
      Pow10Monotone(0, scale);
      TimesMonotone(Num(digits), 1, Pow10(scale));
    } else {
      var p := Pow10(-scale - 1);
      assert value * d * Pow10(-scale) == value * Pow10(-scale) * d;
      MulCancel(value * Pow10(-scale), Num(digits), d);
      assert value * (10 * p) == 10 * (value * p);
      LastDigitStays(digits, value * p);
    }
  }

  lemma LastDigitStays(digits: string, n: nat)
    requires AllDigits(digits) && digits != [] && digits[|digits| - 1] != '0'
    ensures Num(digits) != 10 * n
  {
  }

  lemma LargeIsLong(digits: string, value: nat)
    requires AllDigits(digits) && digits != [] && digits[0] != '0'
    requires Num(digits) <= value <= I64_MAX * ATTO_PER_MICRO
    ensures |digits| <= MAX_SIGNIFICANT_DIGITS
  {
    LongIsLarge(|digits|);
    hide Num;
    CanonicalIsLarge(digits);
  }

  lemma LongIsLarge(n: nat)
    ensures n > 36 ==> Pow10(n - 1) > I64_MAX * ATTO_PER_MICRO
  {
    AttoIsPow10();
    Pow10Add(18, 18);
    if n > 36 {
      Pow10Monotone(36, n - 1);
    }
  }

  // ---- displayed amounts ----

  /** A displayed ledger amount is a number text whose cost is that amount, exactly and without a remainder. */
  lemma DisplayedAmountCosts(amount: Usd)
    ensures CostMeaning(Display(amount)) == Ok(ReportedCost(amount * ATTO_PER_MICRO, false, amount))
  {
    var whole, fraction := Print(amount / MICROS_PER_DOLLAR), Padded(6, amount % MICROS_PER_DOLLAR);
    DisplayedDigits(amount);
    PlainNumber(whole, fraction, Display(amount));
    hide *;
    AmountExactly(whole, fraction, amount);
  }

  /** A plain decimal with few digits means its exact cost. */
  lemma PlainNumber(whole: string, fraction: string, text: string)
    requires IsCanonical(whole) && AllDigits(fraction) && |whole| <= 21 && |fraction| == 6
    requires text == whole + "." + fraction
    ensures CostMeaning(text) == ExactCost(whole, fraction, 0)
  {
    hide Num, Pow10, ExactCost, CostMeaning, CheckText;
    ShortDecimalPasses(whole, fraction, text);
    var n := JsonNumber(whole, fraction, None);
    assert n.Text() == text;
    CostMeaningOf(n);
  }

  lemma DisplayedDigits(amount: Usd)
    ensures var whole, fraction := Print(amount / MICROS_PER_DOLLAR), Padded(6, amount % MICROS_PER_DOLLAR);
            && |whole| <= 21 && |fraction| == 6
            && Num(whole) == amount / MICROS_PER_DOLLAR && Num(fraction) == amount % MICROS_PER_DOLLAR
  {
    MillionIsPow10();
    DollarsAreShort(amount / MICROS_PER_DOLLAR);
    NumPrint(amount / MICROS_PER_DOLLAR);
    PaddedValue(6, amount % MICROS_PER_DOLLAR);
  }

  lemma AmountExactly(whole: string, fraction: string, amount: Usd)
    requires AllDigits(whole) && AllDigits(fraction) && |whole| <= 21 && |fraction| == 6
    requires Num(whole) * MICROS_PER_DOLLAR + Num(fraction) == amount
    ensures ExactCost(whole, fraction, 0) == Ok(ReportedCost(amount * ATTO_PER_MICRO, false, amount))
  {
    hide Num, Numerator, Denominator, DivCeil, Pow10, ExactCost;
    DollarFraction(whole, fraction);
    WholeMicros(amount);
    ExactlyWhole(whole, fraction, amount * ATTO_PER_MICRO, amount);
  }

  /** The cost of a value that is whole in both units. */
  lemma ExactlyWhole(whole: string, fraction: string, atto: U128, usd: Usd)
    requires AllDigits(whole) && AllDigits(fraction) && |whole + fraction| <= MAX_SIGNIFICANT_DIGITS
    requires DivCeil(Numerator(whole, fraction, 0) * ATTO_PER_DOLLAR, Denominator(fraction, 0)) == atto
    requires Numerator(whole, fraction, 0) * ATTO_PER_DOLLAR % Denominator(fraction, 0) == 0
    requires DivCeil(Numerator(whole, fraction, 0) * 1_000_000, Denominator(fraction, 0)) == usd
    ensures ExactCost(whole, fraction, 0) == Ok(ReportedCost(atto, false, usd))
  {
    hide Num, Numerator, Denominator, TrimStartZeros, TrimEndZeros, DivCeil, Pow10;
  }

  lemma DollarFraction(whole: string, fraction: string)
    requires AllDigits(whole) && AllDigits(fraction) && |fraction| == 6
    ensures Numerator(whole, fraction, 0) == Num(whole) * MICROS_PER_DOLLAR + Num(fraction)
    ensures Denominator(fraction, 0) == MICROS_PER_DOLLAR
  {
    hide Num, Pow10;
    MillionIsPow10();
    EmptyIsZero();
    NumAppend(whole, fraction);
  }

  lemma WholeMicros(amount: nat)
    ensures DivCeil(amount * 1_000_000, MICROS_PER_DOLLAR) == amount
    ensures DivCeil(amount * ATTO_PER_DOLLAR, MICROS_PER_DOLLAR) == amount * ATTO_PER_MICRO
    ensures amount * ATTO_PER_DOLLAR % MICROS_PER_DOLLAR == 0
  {
    hide DivCeil;
    WholeFraction(amount, amount * 1_000_000, MICROS_PER_DOLLAR);
    WholeFraction(amount * ATTO_PER_MICRO, amount * ATTO_PER_DOLLAR, MICROS_PER_DOLLAR);
  }
}
