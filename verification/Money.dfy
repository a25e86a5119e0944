/** Exact USD amounts in micro-units, from `money.rs`. */
module Money {
  import opened Prelude
  import opened Decimal

  datatype MoneyError = Negative | Overflow | InvalidDecimal

  /** Nonnegative micro-units that fit a signed 64-bit integer. */
  type Usd = micros: int | 0 <= micros <= I64_MAX

  const MICROS_PER_DOLLAR: int := 1_000_000

  function CheckedAdd(a: Usd, b: Usd): Result<Usd, MoneyError> {
    if a + b <= I64_MAX then Ok(a + b) else Err(Overflow)
  }

  function CheckedSub(a: Usd, b: Usd): Result<Usd, MoneyError> {
    if a < b then Err(Negative) else Ok(a - b)
  }

  /** Unsigned dollars with at most six decimal places. */
  ghost predicate IsUsdText(input: string) {
    IsDecimalText(input) && |Parts(input).1| <= 6
  }

  /** What a text means as an amount: its exact value, when it is an amount in range. */
  ghost function Meaning(input: string): Result<Usd, MoneyError> {
    if !IsUsdText(input) then Err(InvalidDecimal)
    else
      var micros := Scaled(Parts(input).0, Parts(input).1, 6);
      if micros <= I64_MAX then Ok(micros) else Err(Overflow)
  }

  /** The standard library's reading of a nonempty digit string as a signed 64-bit integer. */
  function ParseI64(digits: string): Option<I64>
    requires digits != [] && AllDigits(digits)
  {
    if Num(digits) <= I64_MAX then Some(Num(digits)) else None
  }

  /** The fraction digits in micro-units: the digits read, then filled up to six places. */
  method FractionMicros(fractional: string) returns (fraction: I64)
    requires AllDigits(fractional) && |fractional| <= 6
    ensures fraction == Num(fractional) * Pow10(6 - |fractional|) < MICROS_PER_DOLLAR
  {
    MillionIsPow10();
    FractionIsSmall(fractional, 6);
    hide Num, Pow10;
    fraction := 0;
    EmptyIsZero();
    for i := 0 to |fractional|
      invariant fraction == Num(fractional[..i])
    {
      PrefixStep(fractional, i);
      Pow10Monotone(i + 1, 6);
      fraction := fraction * 10 + Digit(fractional[i]);
    }
    assert fractional[..|fractional|] == fractional;
    for i := |fractional| to 6
      invariant fraction == Num(fractional) * Pow10(i - |fractional|)
    {
      PowerStep(Num(fractional), i - |fractional|);
      Pow10Monotone(i + 1 - |fractional|, 6 - |fractional|);
      TimesMonotone(Num(fractional), Pow10(i + 1 - |fractional|), Pow10(6 - |fractional|));
      fraction := fraction * 10;
    }
  }

  method FromStr(input: string) returns (r: Result<Usd, MoneyError>)
    ensures r == Meaning(input)
  {
    hide Meaning, SplitOnce, Num, Pow10;
    MeaningOfSplit(input);
    var point := SplitOnce(input, {'.'});
    var (whole, fractional) := if point.Some? then point.value else (input, []);
    if whole == [] || !AllDigits(whole) || |fractional| > 6 || !AllDigits(fractional)
       || (point.Some? && fractional == []) {
      return Err(InvalidDecimal);
    }
    var dollars := ParseI64(whole);
    if dollars.None? {
      return Err(Overflow);
    }
    var fraction := FractionMicros(fractional);
    var value := dollars.value * MICROS_PER_DOLLAR;
    if value > I64_MAX || value + fraction > I64_MAX {
      return Err(Overflow);
    }
    return Ok(value + fraction);
  }

  /** The meaning of a text, by what splitting at the first point gives. */
  lemma MeaningOfSplit(input: string)
    ensures var point := SplitOnce(input, {'.'});
            var (whole, fractional) := if point.Some? then point.value else (input, []);
            if whole == [] || !AllDigits(whole) || |fractional| > 6 || !AllDigits(fractional)
               || (point.Some? && fractional == [])
            then Meaning(input) == Err(InvalidDecimal)
            else
              var micros := Num(whole) * MICROS_PER_DOLLAR + Num(fractional) * Pow10(6 - |fractional|);
              && micros >= Num(whole)
              && Num(fractional) * Pow10(6 - |fractional|) >= 0
              && Meaning(input) == if 0 <= micros <= I64_MAX then Ok(micros) else Err(Overflow)
  {
    hide Num, Pow10, IsDecimal, IsDecimalText, Parts, SplitOnce, AllDigits, Meaning;
    SplitDecides(input);
    var point := SplitOnce(input, {'.'});
    var (whole, fractional) := if point.Some? then point.value else (input, []);
    if whole != [] && AllDigits(whole) && AllDigits(fractional) && (point.Some? ==> fractional != []) {
      MeaningOfDecimal(input, whole, fractional);
    } else {
      MeaningOfOther(input);
    }
  }

  lemma MeaningOfOther(input: string)
    requires !IsDecimalText(input)
    ensures Meaning(input) == Err(InvalidDecimal)
  {
  }

  lemma MeaningOfDecimal(input: string, whole: string, fractional: string)
    requires IsDecimal(input, whole, fractional) && AllDigits(whole) && AllDigits(fractional)
    ensures |fractional| > 6 ==> Meaning(input) == Err(InvalidDecimal)
    ensures |fractional| <= 6 ==>
              var micros := Num(whole) * MICROS_PER_DOLLAR + Num(fractional) * Pow10(6 - |fractional|);
              && micros >= Num(whole)
              && Num(fractional) * Pow10(6 - |fractional|) >= 0
              && Meaning(input) == if 0 <= micros <= I64_MAX then Ok(micros) else Err(Overflow)
  {
    MillionIsPow10();
    hide Num, Pow10, Parts, IsDecimal, IsDecimalText, AllDigits;
    PartsAre(input, whole, fractional);
    if |fractional| <= 6 {
      NonNegative(Num(fractional), Pow10(6 - |fractional|));
    }
  }

  lemma MillionIsPow10()
    ensures Pow10(6) == MICROS_PER_DOLLAR
  {
  }

  function Display(amount: Usd): string {
    Print(amount / MICROS_PER_DOLLAR) + "." + Padded(6, amount % MICROS_PER_DOLLAR)
  }

  /** Splitting an amount into dollars and six digits loses nothing. */
  lemma SplitAmount(amount: Usd, text: string, fraction: string)
    requires AllDigits(fraction) && 1 <= |fraction| <= 6
    requires Num(fraction) * Pow10(6 - |fraction|) == amount % MICROS_PER_DOLLAR
    requires text == Print(amount / MICROS_PER_DOLLAR) + "." + fraction
    ensures Meaning(text) == Ok(amount)
  {
    var whole := Print(amount / MICROS_PER_DOLLAR);
    NumPrint(amount / MICROS_PER_DOLLAR);
    hide Num, Pow10, Print, Parts, Meaning;
    assert text == whole + ("." + fraction);
    MeaningOfDecimal(text, whole, fraction);
  }

  /** Reading a displayed amount gives it back. */
  lemma DisplayRoundTrip(amount: Usd)
    ensures Meaning(Display(amount)) == Ok(amount)
  {
    MillionIsPow10();
    EmptyIsZero();
    PaddedValue(6, amount % MICROS_PER_DOLLAR);
    SplitAmount(amount, Display(amount), Padded(6, amount % MICROS_PER_DOLLAR));
  }
}
