/** Exact provider prices and worst-case request liability, from `pricing.rs`. */
module Pricing {
  import opened Prelude
  import opened Decimal
  import opened Money

  const FRACTION_DIGITS: nat := 18
  const ATTO_PER_DOLLAR: nat := 1_000_000_000_000_000_000
  const ATTO_PER_MICRO: nat := 1_000_000_000_000
  const MAX_TEXT_BYTES: nat := 64
  const UNITS_PER_MILLION: nat := 1_000_000

  datatype PricingError =
    | Empty
    | TooLong
    | NegativeText
    | InvalidDecimalText
    | InvalidNumber
    | TooPrecise
    | OutOfRange
    | UnboundedDimension(dimension: Dimension)
    | UnrecognizedCharge

  /** A nonnegative price for one billing unit, in attodollars. */
  type Rate = U128

  // ---- checks shared by rates and costs ----

  function CheckText(input: string): Option<PricingError> {
    if input == [] then Some(Empty)
    else if ByteLen(input) > MAX_TEXT_BYTES then Some(TooLong)
    else if input[0] == '-' then Some(NegativeText)
    else None
  }

  /** The limits of a price text, and which refusal goes first. */
  lemma TextLimits(input: string)
    ensures CheckText(input) == None <==> input != "" && ByteLen(input) <= 64 && input[0] != '-'
    ensures CheckText(input) == Some(Empty) <==> input == ""
    ensures CheckText(input) == Some(TooLong) <==> ByteLen(input) > 64
  {
  }

  /** Reads digits onto a start value, or stops at the first step that leaves 128 bits. */
  function Accumulate(start: U128, digits: string): Option<U128>
    requires AllDigits(digits)
    decreases |digits|
  {
    if digits == [] then Some(start)
    else
      var next := start * 10 + Digit(digits[0]);
      if next > U128_MAX then None else Accumulate(next, digits[1..])
  }

  /** The first digit weighs a power of ten of the rest. */
  lemma NumFirst(digits: string)
    requires AllDigits(digits) && digits != []
    ensures Num(digits) == Digit(digits[0]) * Pow10(|digits| - 1) + Num(digits[1..])
  {
    NumOne(digits[0]);
    hide Num, Pow10;
    assert digits == [digits[0]] + digits[1..];
    NumAppend([digits[0]], digits[1..]);
  }

  lemma NumOne(c: char)
    requires IsDigit(c)
    ensures AllDigits([c]) && Num([c]) == Digit(c)
  {
    assert [c][..0] == [];
  }

  lemma ShiftIn(start: nat, d: nat, p: nat, rest: nat)
    requires p >= 1
    ensures start * (10 * p) + (d * p + rest) == (start * 10 + d) * p + rest >= start * 10 + d
  {
    assert (start * 10 + d) * p == (start * 10 + d) + (start * 10 + d) * (p - 1);
  }

  /** Stepwise checking is one range check on the whole value. */
  lemma {:induction false} AccumulateValue(start: U128, digits: string)
    requires AllDigits(digits)
    ensures var total := start * Pow10(|digits|) + Num(digits);
            Accumulate(start, digits) == if total <= U128_MAX then Some(total) else None
    decreases |digits|
  {
    EmptyIsZero();
    if digits != [] {
      NumFirst(digits);
      ShiftIn(start, Digit(digits[0]), Pow10(|digits| - 1), Num(digits[1..]));
      hide Num;
      if start * 10 + Digit(digits[0]) <= U128_MAX {
        AccumulateValue(start * 10 + Digit(digits[0]), digits[1..]);
      }
    }
  }

  lemma AccumulateDigits(digits: string)
    requires AllDigits(digits)
    ensures Accumulate(0, digits) == if Num(digits) <= U128_MAX then Some(Num(digits)) else None
  {
    AccumulateValue(0, digits);
    assert 0 * Pow10(|digits|) == 0;
  }

  // ---- rates ----

  /** What a catalog text means as a rate. */
  ghost function RateMeaning(input: string): Result<Rate, PricingError> {
    if CheckText(input).Some? then Err(CheckText(input).value)
    else if !IsDecimalText(input) || !IsCanonical(Parts(input).0) then Err(InvalidDecimalText)
    else if |Parts(input).1| > FRACTION_DIGITS then Err(TooPrecise)
    else
      var atto := Scaled(Parts(input).0, Parts(input).1, FRACTION_DIGITS);
      if atto <= U128_MAX then Ok(atto) else Err(OutOfRange)
  }

  lemma AttoIsPow10()
    ensures Pow10(18) == ATTO_PER_DOLLAR && Pow10(12) == ATTO_PER_MICRO
  {
  }

  method ParseRate(input: string) returns (r: Result<Rate, PricingError>)
    ensures r == RateMeaning(input)
  {
    var refused := CheckText(input);
    if refused.Some? {
      return Err(refused.value);
    }
    SplitDecides(input);
    var point := SplitOnce(input, {'.'});
    var (whole, fraction) := if point.Some? then point.value else (input, []);
    if whole != [] && AllDigits(whole) && AllDigits(fraction) && (point.Some? ==> fraction != []) {
      PartsAre(input, whole, fraction);
    }
    if !IsCanonical(whole) {
      return Err(InvalidDecimalText);
    }
    if (point.Some? && fraction == []) || !AllDigits(fraction) {
      return Err(InvalidDecimalText);
    }
    if |fraction| > FRACTION_DIGITS {
      return Err(TooPrecise);
    }
    r := FromDigits(whole, fraction);
  }

  /** The value of checked digits: `whole` dollars and the fraction filled up to 18 places. */
  method FromDigits(whole: string, fraction: string) returns (r: Result<Rate, PricingError>)
    requires AllDigits(whole) && AllDigits(fraction) && |fraction| <= FRACTION_DIGITS
    ensures var atto := Scaled(whole, fraction, FRACTION_DIGITS);
            r == if atto <= U128_MAX then Ok(atto) else Err(OutOfRange)
  {
    hide Num, Pow10, Accumulate, Scaled;
    DollarDigits(whole, fraction);
    var dollars := Accumulate(0, whole);
    if dollars.None? {
      return Err(OutOfRange);
    }
    var fractionValue := FractionAtto(fraction);
    var value := dollars.value * ATTO_PER_DOLLAR;
    if value > U128_MAX || value + fractionValue > U128_MAX {
      return Err(OutOfRange);
    }
    return Ok(value + fractionValue);
  }

  lemma DollarDigits(whole: string, fraction: string)
    requires AllDigits(whole) && AllDigits(fraction) && |fraction| <= FRACTION_DIGITS
    ensures var rest := Num(fraction) * Pow10(FRACTION_DIGITS - |fraction|);
            match Accumulate(0, whole)
            case None => Scaled(whole, fraction, FRACTION_DIGITS) > U128_MAX
            case Some(d) => Scaled(whole, fraction, FRACTION_DIGITS) == d * ATTO_PER_DOLLAR + rest && rest >= 0
  {
    AttoIsPow10();
    hide Num, Pow10, Accumulate, AllDigits;
    AccumulateDigits(whole);
    NonNegative(Num(fraction), Pow10(FRACTION_DIGITS - |fraction|));
  }

  method FractionAtto(fraction: string) returns (fractionValue: U128)
    requires AllDigits(fraction) && |fraction| <= FRACTION_DIGITS
    ensures fractionValue == Num(fraction) * Pow10(FRACTION_DIGITS - |fraction|)
  {
    AttoIsPow10();
    AccumulateDigits(fraction);
    FractionIsSmall(fraction, FRACTION_DIGITS);
    NumBound(fraction);
    Pow10Monotone(|fraction|, FRACTION_DIGITS);
    EmptyIsZero();
    hide Num, Pow10, Accumulate;
    var start := Accumulate(0, fraction);
    fractionValue := start.value;
    for i := |fraction| to FRACTION_DIGITS
      invariant fractionValue == Num(fraction) * Pow10(i - |fraction|)
    {
      PowerStep(Num(fraction), i - |fraction|);
      Pow10Monotone(i + 1 - |fraction|, FRACTION_DIGITS - |fraction|);
      TimesMonotone(Num(fraction), Pow10(i + 1 - |fraction|), Pow10(FRACTION_DIGITS - |fraction|));
      fractionValue := fractionValue * 10;
    }
  }

  /** Canonical exact decimal: no trailing fraction zeros and no bare point. */
  function DisplayRate(rate: Rate): string {
    var whole, fraction := rate / ATTO_PER_DOLLAR, rate % ATTO_PER_DOLLAR;
    if fraction == 0 then Print(whole)
    else Print(whole) + "." + TrimEndZeros(Padded(FRACTION_DIGITS, fraction))
  }

  /** The text without trailing fraction zeros, and without a point left bare by that. */
  function StripFraction(whole: string, fraction: string): string {
    var kept := TrimEndZeros(fraction);
    if kept == [] then whole else whole + "." + kept
  }

  /** The fraction of a displayed rate, read back at 18 places. */
  lemma DisplayedFraction(fraction: nat)
    requires fraction < ATTO_PER_DOLLAR
    ensures var padded := Padded(FRACTION_DIGITS, fraction);
            var kept := TrimEndZeros(padded);
            && AllDigits(kept) && |kept| <= FRACTION_DIGITS
            && Num(kept) * Pow10(FRACTION_DIGITS - |kept|) == fraction
            && (kept == [] <==> fraction == 0)
  {
    AttoIsPow10();
    var padded := Padded(FRACTION_DIGITS, fraction);
    var kept := TrimEndZeros(padded);
    PaddedValue(FRACTION_DIGITS, fraction);
    TrimEndSplits(padded);
    NumTrailingZeros(kept, FRACTION_DIGITS - |kept|);
    EmptyIsZero();
    if kept != [] && fraction == 0 {
      NumPositive(kept);
    }
  }

  lemma NumPositive(s: string)
    requires AllDigits(s) && s != [] && s[|s| - 1] != '0'
    ensures Num(s) > 0 && forall p: nat :: p > 0 ==> Num(s) * p > 0
  {
  }

  lemma ShortDecimalPasses(whole: string, fraction: string, text: string)
    requires IsDecimal(text, whole, fraction) && |whole| + |fraction| < MAX_TEXT_BYTES
    ensures CheckText(text) == None
  {
    AsciiByteLen(text);
    assert text[0] == whole[0];
  }

  /** Reading a displayed rate gives it back, for every 128-bit value. */
  lemma RateRoundTrip(rate: Rate)
    ensures RateMeaning(DisplayRate(rate)) == Ok(rate)
  {
    var dollars, rest := rate / ATTO_PER_DOLLAR, rate % ATTO_PER_DOLLAR;
    var whole := Print(dollars);
    var fraction := TrimEndZeros(Padded(FRACTION_DIGITS, rest));
    NumPrint(dollars);
    DollarsAreShort(dollars);
    DisplayedFraction(rest);
    assert DisplayRate(rate) == if fraction == [] then whole else whole + "." + fraction;
    AttoIsPow10();
    hide *;
    RateTextMeaning(DisplayRate(rate), whole, fraction);
    JoinDollars(whole, fraction, rate);
  }

  lemma JoinDollars(whole: string, fraction: string, rate: Rate)
    requires AllDigits(whole) && AllDigits(fraction) && |fraction| <= FRACTION_DIGITS
    requires Num(whole) == rate / ATTO_PER_DOLLAR
    requires Num(fraction) * Pow10(FRACTION_DIGITS - |fraction|) == rate % ATTO_PER_DOLLAR
    ensures Scaled(whole, fraction, FRACTION_DIGITS) == rate
  {
    AttoIsPow10();
  }

  lemma RateTextMeaning(text: string, whole: string, fraction: string)
    requires IsCanonical(whole) && |whole| <= 21 && AllDigits(fraction) && |fraction| <= FRACTION_DIGITS
    requires text == if fraction == [] then whole else whole + "." + fraction
    ensures var atto := Scaled(whole, fraction, FRACTION_DIGITS);
            RateMeaning(text) == if atto <= U128_MAX then Ok(atto) else Err(OutOfRange)
  {
    hide Num, Pow10, ByteLen;
    if fraction != [] {
      assert text == whole + ("." + fraction);
    }
    PartsAre(text, whole, fraction);
    ShortDecimalPasses(whole, fraction, text);
  }

  lemma DollarsAreShort(dollars: nat)
    requires dollars <= U128_MAX / ATTO_PER_DOLLAR
    ensures |Print(dollars)| <= 21
  {
    AttoIsPow10();
    assert Pow10(21) == 10 * Pow10(20) && Pow10(20) == 10 * Pow10(19) && Pow10(19) == 10 * Pow10(18);
    PrintLength(dollars, 21);
  }

  /** Displaying a parsed rate gives the text without its trailing fraction zeros. */
  lemma DisplayOfParsed(input: string)
    requires RateMeaning(input).Ok?
    ensures DisplayRate(RateMeaning(input).value) == StripFraction(Parts(input).0, Parts(input).1)
  {
    var (whole, fraction) := Parts(input);
    var rate := RateMeaning(input).value;
    var rest := Num(fraction) * Pow10(FRACTION_DIGITS - |fraction|);
    AttoIsPow10();
    FractionIsSmall(fraction, FRACTION_DIGITS);
    SplitDollars(Num(whole), rest, rate);
    PrintNum(whole);
    FilledFraction(fraction);
    DisplayedFraction(rest);
  }

  lemma SplitDollars(dollars: nat, rest: nat, rate: nat)
    requires rest < ATTO_PER_DOLLAR && rate == dollars * ATTO_PER_DOLLAR + rest
    ensures rate / ATTO_PER_DOLLAR == dollars && rate % ATTO_PER_DOLLAR == rest
  {
  }

  lemma FilledFraction(fraction: string)
    requires AllDigits(fraction) && |fraction| <= FRACTION_DIGITS
    ensures TrimEndZeros(Padded(FRACTION_DIGITS, Num(fraction) * Pow10(FRACTION_DIGITS - |fraction|)))
         == TrimEndZeros(fraction)
  {
    hide Num, Pow10, Padded, TrimEndZeros, Zeros, AllDigits;
    var missing := FRACTION_DIGITS - |fraction|;
    FractionIsSmall(fraction, FRACTION_DIGITS);
    NumTrailingZeros(fraction, missing);
    TrimEndFilled(fraction, missing);
    SameDigits(Num(fraction) * Pow10(missing), fraction + Zeros(missing));
  }

  /** A padded number is the digit string of that width with its value. */
  lemma SameDigits(n: nat, digits: string)
    requires n < Pow10(FRACTION_DIGITS) && |digits| == FRACTION_DIGITS && AllDigits(digits) && Num(digits) == n
    ensures Padded(FRACTION_DIGITS, n) == digits
  {
    hide Num, Pow10, Padded;
    PaddedValue(FRACTION_DIGITS, n);
    NumUnique(Padded(FRACTION_DIGITS, n), digits);
  }

  lemma {:induction false} TrimEndFilled(s: string, n: nat)
    ensures TrimEndZeros(s + Zeros(n)) == TrimEndZeros(s)
    decreases n
  {
    if n == 0 {
      assert s + Zeros(0) == s;
    } else {
      assert (s + Zeros(n))[..|s| + n - 1] == s + Zeros(n - 1);
      TrimEndFilled(s, n - 1);
    }
  }

  /** The price of a million units, as providers' maximum-price fields want it. */
  function PerMillionDecimal(rate: Rate): Result<string, PricingError> {
    if rate * UNITS_PER_MILLION <= U128_MAX then Ok(DisplayRate(rate * UNITS_PER_MILLION)) else Err(OutOfRange)
  }

  lemma PerMillionIsExact(rate: Rate)
    ensures PerMillionDecimal(rate).Ok? <==> rate * 1_000_000 <= U128_MAX
    ensures PerMillionDecimal(rate).Ok? ==> RateMeaning(PerMillionDecimal(rate).value) == Ok(rate * 1_000_000)
  {
    if rate * UNITS_PER_MILLION <= U128_MAX {
      RateRoundTrip(rate * UNITS_PER_MILLION);
    }
  }

  // ---- price snapshots ----

  datatype Dimension =
    | Prompt | Completion | Request | InternalReasoning | InputCacheRead | InputCacheWrite
    | Image | Audio | WebSearch

  datatype PriceSnapshot = PriceSnapshot(
    prompt: Rate, completion: Rate, request: Rate, internalReasoning: Rate,
    inputCacheRead: Rate, inputCacheWrite: Rate, image: Rate, audio: Rate, webSearch: Rate,
    unrecognized: Rate)
  {
    function With(dimension: Dimension, rate: Rate): PriceSnapshot {
      match dimension
      case Prompt => this.(prompt := rate)
      case Completion => this.(completion := rate)
      case Request => this.(request := rate)
      case InternalReasoning => this.(internalReasoning := rate)
      case InputCacheRead => this.(inputCacheRead := rate)
      case InputCacheWrite => this.(inputCacheWrite := rate)
      case Image => this.(image := rate)
      case Audio => this.(audio := rate)
      case WebSearch => this.(webSearch := rate)
    }

    function WithUnrecognizedCharge(rate: Rate): PriceSnapshot {
      this.(unrecognized := Max(unrecognized, rate))
    }

    function RateOf(dimension: Dimension): Rate {
      match dimension
      case Prompt => prompt
      case Completion => completion
      case Request => request
      case InternalReasoning => internalReasoning
      case InputCacheRead => inputCacheRead
      case InputCacheWrite => inputCacheWrite
      case Image => image
      case Audio => audio
      case WebSearch => webSearch
    }

    function WorstPrompt(): Rate {
      Max(Max(prompt, inputCacheWrite), inputCacheRead)
    }

    function WorstCompletion(): Rate {
      Max(completion, internalReasoning)
    }

    /** The first refusal, in the order the dimensions are checked. */
    function CheckBounded(): Option<PricingError> {
      if image != 0 then Some(UnboundedDimension(Image))
      else if audio != 0 then Some(UnboundedDimension(Audio))
      else if webSearch != 0 then Some(UnboundedDimension(WebSearch))
      else if unrecognized != 0 then Some(UnrecognizedCharge)
      else None
    }
  }

  function NewSnapshot(prompt: Rate, completion: Rate): PriceSnapshot {
    PriceSnapshot(prompt, completion, 0, 0, 0, 0, 0, 0, 0, 0)
  }

  datatype UnitBounds = UnitBounds(promptTokens: U64, completionTokens: U64)

  // ---- liability ----

  datatype Liability = Liability(attodollars: U128, reserve: Usd)

  function DivCeil(a: nat, b: nat): nat
    requires b > 0
  {
    if a % b == 0 then a / b else a / b + 1
  }

  function CeilUsd(attodollars: U128): Result<Usd, PricingError> {
    var micros := DivCeil(attodollars, ATTO_PER_MICRO);
    if micros <= I64_MAX then Ok(micros) else Err(OutOfRange)
  }

  /** The price of a number of units, unbounded. */
  function Cost(rate: nat, units: nat): nat {
    rate * units
  }

  function CheckedCost(rate: Rate, units: U64): Option<U128> {
    if Cost(rate, units) <= U128_MAX then Some(Cost(rate, units)) else None
  }

  function WorstCase(snapshot: PriceSnapshot, bounds: UnitBounds): Result<Liability, PricingError> {
    var refused := snapshot.CheckBounded();
    if refused.Some? then Err(refused.value)
    else
      var prompt := CheckedCost(snapshot.WorstPrompt(), bounds.promptTokens);
      var completion := CheckedCost(snapshot.WorstCompletion(), bounds.completionTokens);
      if prompt.None? || completion.None? then Err(OutOfRange)
      else if snapshot.request + prompt.value > U128_MAX then Err(OutOfRange)
      else if snapshot.request + prompt.value + completion.value > U128_MAX then Err(OutOfRange)
      else
        var attodollars := snapshot.request + prompt.value + completion.value;
        match CeilUsd(attodollars)
        case Ok(reserve) => Ok(Liability(attodollars, reserve))
        case Err(error) => Err(error)
  }

  /** How one request was billed: each token under one of its classes, and any number of other units. */
  datatype Usage = Usage(prompt: nat, cacheRead: nat, cacheWrite: nat, completion: nat, reasoning: nat,
                         images: nat, audio: nat, searches: nat, other: nat)

  predicate Within(usage: Usage, bounds: UnitBounds) {
    && usage.prompt + usage.cacheRead + usage.cacheWrite <= bounds.promptTokens
    && usage.completion + usage.reasoning <= bounds.completionTokens
  }

  /** The exact bill in attodollars. */
  function Charge(snapshot: PriceSnapshot, usage: Usage): nat {
    snapshot.request
    + (Cost(snapshot.prompt, usage.prompt) + Cost(snapshot.inputCacheRead, usage.cacheRead)
       + Cost(snapshot.inputCacheWrite, usage.cacheWrite))
    + (Cost(snapshot.completion, usage.completion) + Cost(snapshot.internalReasoning, usage.reasoning))
    + (Cost(snapshot.image, usage.images) + Cost(snapshot.audio, usage.audio)
       + Cost(snapshot.webSearch, usage.searches) + Cost(snapshot.unrecognized, usage.other))
  }

  /** The bill is one request fee and, class by class, the price times the number of units. */
  lemma ChargeIsSum(s: PriceSnapshot, u: Usage)
    ensures Charge(s, u)
         == s.request
            + s.prompt * u.prompt + s.inputCacheRead * u.cacheRead + s.inputCacheWrite * u.cacheWrite
            + s.completion * u.completion + s.internalReasoning * u.reasoning
            + s.image * u.images + s.audio * u.audio + s.webSearch * u.searches + s.unrecognized * u.other
  {
  }

  /** `DivCeil` is the least `q` with `q * b >= a`. */
  lemma DivCeilIsCeiling(a: nat, b: nat)
    requires b > 0
    ensures a <= DivCeil(a, b) * b < a + b
  {
    var d := a / b;
    assert a == b * d + a % b;
    assert (d + 1) * b == b * d + b;
  }

  lemma DivCeilAtMost(a: nat, b: nat, q: nat)
    requires b > 0
    ensures DivCeil(a, b) <= q <==> a <= q * b
  {
    DivCeilIsCeiling(a, b);
    hide DivCeil;
    var c := DivCeil(a, b);
    assert b * c == c * b && b * q == q * b && b * (q + 1) == q * b + b;
    if c <= q {
      TimesMonotone(b, c, q);
    } else {
      TimesMonotone(b, q + 1, c);
    }
  }

  lemma PriceEach(rate: nat, worst: nat, units: nat)
    requires rate <= worst
    ensures Cost(rate, units) <= Cost(worst, units)
  {
    assert worst * units == rate * units + (worst - rate) * units;
  }

  lemma TokensTogether(rate: nat, a: nat, b: nat, c: nat, bound: nat)
    requires a + b + c <= bound
    ensures Cost(rate, a) + Cost(rate, b) + Cost(rate, c) <= Cost(rate, bound)
  {
    assert rate * (a + b + c) == rate * a + rate * b + rate * c;
    TimesMonotone(rate, a + b + c, bound);
  }

  /** Each bill within the bounds is covered, and the reserve is the bill's ceiling in micro-units. */
  lemma WorstCaseCovers(snapshot: PriceSnapshot, bounds: UnitBounds, usage: Usage)
    requires WorstCase(snapshot, bounds).Ok? && Within(usage, bounds)
    ensures var l := WorstCase(snapshot, bounds).value;
            && Charge(snapshot, usage) <= l.attodollars <= l.reserve * ATTO_PER_MICRO
            && l.reserve * ATTO_PER_MICRO < l.attodollars + ATTO_PER_MICRO
  {
    var p, c := snapshot.WorstPrompt(), snapshot.WorstCompletion();
    PriceEach(snapshot.prompt, p, usage.prompt);
    PriceEach(snapshot.inputCacheRead, p, usage.cacheRead);
    PriceEach(snapshot.inputCacheWrite, p, usage.cacheWrite);
    PriceEach(snapshot.completion, c, usage.completion);
    PriceEach(snapshot.internalReasoning, c, usage.reasoning);
    TokensTogether(p, usage.prompt, usage.cacheRead, usage.cacheWrite, bounds.promptTokens);
    TokensTogether(c, usage.completion, usage.reasoning, 0, bounds.completionTokens);
    DivCeilIsCeiling(WorstCase(snapshot, bounds).value.attodollars, ATTO_PER_MICRO);
    hide Cost;
    NothingElse(usage);
  }

  /** A price that nothing bounds refuses the whole request, and the first such one is named. */
  lemma RefusedExactly(snapshot: PriceSnapshot, bounds: UnitBounds)
    ensures var s, r := snapshot, WorstCase(snapshot, bounds);
            && (r == Err(UnboundedDimension(Image)) <==> s.image > 0)
            && (r == Err(UnboundedDimension(Audio)) <==> s.image == 0 && s.audio > 0)
            && (r == Err(UnboundedDimension(WebSearch)) <==> s.image == 0 && s.audio == 0 && s.webSearch > 0)
            && (r == Err(UnrecognizedCharge) <==>
                  s.image == 0 && s.audio == 0 && s.webSearch == 0 && s.unrecognized > 0)
  {
  }

  lemma NothingElse(usage: Usage)
    ensures Cost(0, usage.images) == Cost(0, usage.audio) == Cost(0, usage.searches) == Cost(0, usage.other) == 0
  {
  }

  /** The most expensive way to bill the bounds. */
  function Dearest(snapshot: PriceSnapshot, bounds: UnitBounds): (usage: Usage)
    ensures Within(usage, bounds)
  {
    var p, c := bounds.promptTokens, bounds.completionTokens;
    var (plain, read, write) :=
      if snapshot.WorstPrompt() == snapshot.prompt then (p, 0, 0)
      else if snapshot.WorstPrompt() == snapshot.inputCacheRead then (0, p, 0)
      else (0, 0, p);
    if snapshot.WorstCompletion() == snapshot.completion
    then Usage(plain, read, write, c, 0, 0, 0, 0, 0)
    else Usage(plain, read, write, 0, c, 0, 0, 0, 0)
  }

  lemma DearestCharge(snapshot: PriceSnapshot, bounds: UnitBounds)
    ensures Charge(snapshot, Dearest(snapshot, bounds))
         == snapshot.request + Cost(snapshot.WorstPrompt(), bounds.promptTokens)
            + Cost(snapshot.WorstCompletion(), bounds.completionTokens)
  {
  }

  /** Some bill within the bounds costs exactly the liability. */
  lemma WorstCaseIsAttained(snapshot: PriceSnapshot, bounds: UnitBounds)
    requires WorstCase(snapshot, bounds).Ok?
    ensures exists usage ::
              Within(usage, bounds) && Charge(snapshot, usage) == WorstCase(snapshot, bounds).value.attodollars
  {
    DearestCharge(snapshot, bounds);
    assert Within(Dearest(snapshot, bounds), bounds);
  }

  /**
   A liability exists exactly when nothing unbounded is charged and the dearest bill rounds
   up to an amount in range: the checks on the way refuse nothing else.
   */
  lemma WorstCaseExists(snapshot: PriceSnapshot, bounds: UnitBounds)
    ensures WorstCase(snapshot, bounds).Ok? <==>
              && snapshot.image == snapshot.audio == snapshot.webSearch == snapshot.unrecognized == 0
              && Charge(snapshot, Dearest(snapshot, bounds)) <= I64_MAX * ATTO_PER_MICRO
    ensures WorstCase(snapshot, bounds) == Err(OutOfRange) <==>
              && snapshot.image == snapshot.audio == snapshot.webSearch == snapshot.unrecognized == 0
              && Charge(snapshot, Dearest(snapshot, bounds)) > I64_MAX * ATTO_PER_MICRO
  {
    DearestCharge(snapshot, bounds);
    var total := Charge(snapshot, Dearest(snapshot, bounds));
    DivCeilAtMost(total, ATTO_PER_MICRO, I64_MAX);
    hide Dearest, Charge, DivCeil;
    assert I64_MAX * ATTO_PER_MICRO <= U128_MAX;
    if total <= U128_MAX {
      assert CeilUsd(total).Ok? <==> DivCeil(total, ATTO_PER_MICRO) <= I64_MAX;
    }
  }
}
