/**
 The money pipeline end to end: a price snapshot bounds a request, the bound is reserved,
 and the provider's reported cost text settles it.
 */
module Billing {
  import opened Prelude
  import opened Decimal
  import opened Money
  import opened Pricing
  import opened ReportedCosts
  import opened Budget

  lemma CostRounds(input: string)
    requires CostMeaning(input).Ok?
    ensures CostMeaning(input).value.usd == DivCeil(CostMeaning(input).value.attodollars, ATTO_PER_MICRO)
  {
    hide IsNumberText, NumberOf, Numerator, Denominator, CheckText, HasLongExponent;
    var n := NumberOf(input);
    MicrosOfAtto(Numerator(n.whole, n.fraction, n.Power()), Denominator(n.fraction, n.Power()));
  }

  lemma ReserveRounds(snapshot: PriceSnapshot, bounds: UnitBounds)
    requires WorstCase(snapshot, bounds).Ok?
    ensures WorstCase(snapshot, bounds).value.reserve
         == DivCeil(WorstCase(snapshot, bounds).value.attodollars, ATTO_PER_MICRO)
  {
  }

  lemma RoundedWithin(atto: nat, bound: nat)
    requires atto <= bound
    ensures DivCeil(atto, ATTO_PER_MICRO) <= DivCeil(bound, ATTO_PER_MICRO)
  {
    DivCeilIsCeiling(bound, ATTO_PER_MICRO);
    DivCeilAtMost(atto, ATTO_PER_MICRO, DivCeil(bound, ATTO_PER_MICRO));
  }

  /** A reported cost no larger than the liability settles within the reservation. */
  lemma CostWithinReserve(snapshot: PriceSnapshot, bounds: UnitBounds, input: string)
    requires WorstCase(snapshot, bounds).Ok? && CostMeaning(input).Ok?
    requires CostMeaning(input).value.attodollars <= WorstCase(snapshot, bounds).value.attodollars
    ensures CostMeaning(input).value.usd <= WorstCase(snapshot, bounds).value.reserve
  {
    hide *;
    CostRounds(input);
    ReserveRounds(snapshot, bounds);
    RoundedWithin(CostMeaning(input).value.attodollars, WorstCase(snapshot, bounds).value.attodollars);
  }

  /** The number in the text is the exact price of the usage: their fractions are equal. */
  ghost predicate ReportsExactly(input: string, snapshot: PriceSnapshot, usage: Usage) {
    IsNumberText(input)
    && var n := NumberOf(input);
       Numerator(n.whole, n.fraction, n.Power()) * ATTO_PER_DOLLAR
       == Pricing.Charge(snapshot, usage) * Denominator(n.fraction, n.Power())
  }

  /** The exponent of a number text keeps to the digits the parser reads. */
  ghost predicate ShortPower(input: string)
    requires IsNumberText(input)
  {
    var exponent := NumberOf(input).exponent;
    exponent.Some? ==> |exponent.value.digits| <= MAX_EXPONENT_DIGITS
  }

  /** A text that reports the exact price of a usage within the bounds is accepted exactly within the text limits. */
  lemma ExactReportIsAccepted(snapshot: PriceSnapshot, bounds: UnitBounds, usage: Usage, input: string)
    requires WorstCase(snapshot, bounds).Ok? && Within(usage, bounds)
    requires ReportsExactly(input, snapshot, usage)
    ensures CostMeaning(input).Ok? <==> CheckText(input) == None && ShortPower(input)
  {
    var n := NumberOf(input);
    hide WorstCase, CostMeaning, Numerator, Denominator, DivCeil, CheckText, IsNumberText, NumberOf;
    WorstCaseCovers(snapshot, bounds, usage);
    WholeValueFits(n.whole, n.fraction, n.Power(), Pricing.Charge(snapshot, usage));
    AcceptsExactly(input);
  }

  /** An accepted exact report is read as exactly that price, and costs no more than the liability. */
  lemma ExactReportIsCovered(snapshot: PriceSnapshot, bounds: UnitBounds, usage: Usage, input: string)
    requires WorstCase(snapshot, bounds).Ok? && Within(usage, bounds)
    requires ReportsExactly(input, snapshot, usage) && CheckText(input) == None && ShortPower(input)
    ensures CostMeaning(input).Ok?
    ensures CostMeaning(input).value.attodollars == Pricing.Charge(snapshot, usage)
    ensures !CostMeaning(input).value.subAttodollar
    ensures CostMeaning(input).value.usd <= WorstCase(snapshot, bounds).value.reserve
  {
    ExactReportIsAccepted(snapshot, bounds, usage, input);
    var n := NumberOf(input);
    hide WorstCase, CostMeaning, Numerator, Denominator, DivCeil, CheckText, IsNumberText, NumberOf;
    WorstCaseCovers(snapshot, bounds, usage);
    CostMeaningOf(n);
    AcceptedIsExact(n.whole, n.fraction, n.Power(), Pricing.Charge(snapshot, usage));
    CostWithinReserve(snapshot, bounds, input);
  }

  /** An accepted number worth a whole number of attodollars costs that number, without a remainder. */
  lemma AcceptedIsExact(whole: string, fraction: string, power: int, value: nat)
    requires AllDigits(whole) && AllDigits(fraction) && ExactCost(whole, fraction, power).Ok?
    requires Numerator(whole, fraction, power) * ATTO_PER_DOLLAR == value * Denominator(fraction, power)
    ensures ExactCost(whole, fraction, power).value.attodollars == value
    ensures !ExactCost(whole, fraction, power).value.subAttodollar
  {
    hide Numerator, Denominator, DivCeil, Significant;
    WholeFraction(value, Numerator(whole, fraction, power) * ATTO_PER_DOLLAR, Denominator(fraction, power));
  }

  /** Settling at most what was reserved keeps a safe, unfrozen ledger unfrozen and inside its limit. */
  lemma ReservedSettles(now: Ledger, at: nat, paid: Usd)
    requires Safe(now) && !now.balance.frozen
    requires at < |now.open| && paid <= now.open[at]
    ensures var settled := now.balance.Settle(now.open[at], paid);
            && settled.Ok?
            && !settled.value.frozen
            && settled.value.settled + settled.value.reserved <= settled.value.limit
  {
    SumRemove(now.open, at);
  }

  lemma AdmittedIsSafe(limit: Usd, before: seq<Event>, reserve: Usd, between: seq<Event>)
    ensures Safe(Run(Step(Run(Opened(limit), before), Admit(reserve)), between))
  {
    hide Step, Run;
    var start := Run(Opened(limit), before);
    RunIsSafe(Opened(limit), before);
    StepIsSafe(start, Admit(reserve));
    RunIsSafe(Step(start, Admit(reserve)), between);
  }

  /**
   The whole way: in any reachable unfrozen ledger, a request whose liability is reserved
   settles at any reported cost up to that liability without freezing, whatever happens in between.
   */
  lemma ReservedRequestNeverBreaches(limit: Usd, before: seq<Event>, between: seq<Event>, at: nat,
                                     snapshot: PriceSnapshot, bounds: UnitBounds, input: string)
    requires WorstCase(snapshot, bounds).Ok? && CostMeaning(input).Ok?
    requires CostMeaning(input).value.attodollars <= WorstCase(snapshot, bounds).value.attodollars
    requires var reserve := WorstCase(snapshot, bounds).value.reserve;
             var now := Run(Step(Run(Opened(limit), before), Admit(reserve)), between);
             && !now.balance.frozen
             && at < |now.open| && now.open[at] == reserve
    ensures var reserve := WorstCase(snapshot, bounds).value.reserve;
            var now := Run(Step(Run(Opened(limit), before), Admit(reserve)), between);
            var settled := now.balance.Settle(reserve, CostMeaning(input).value.usd);
            && settled.Ok?
            && !settled.value.frozen
            && settled.value.settled + settled.value.reserved <= settled.value.limit
  {
    hide *;
    var reserve := WorstCase(snapshot, bounds).value.reserve;
    AdmittedIsSafe(limit, before, reserve, between);
    CostWithinReserve(snapshot, bounds, input);
    ReservedSettles(Run(Step(Run(Opened(limit), before), Admit(reserve)), between), at, CostMeaning(input).value.usd);
  }

  /**
   Text to text: a new ledger admits any affordable liability, and an amount up to it, displayed and
   reported back, leaves exactly that amount settled and nothing reserved.
   */
  lemma DisplayedChargeSettles(limit: Usd, snapshot: PriceSnapshot, bounds: UnitBounds, paid: Usd)
    requires WorstCase(snapshot, bounds).Ok? && 0 < WorstCase(snapshot, bounds).value.reserve <= limit
    requires paid * ATTO_PER_MICRO <= WorstCase(snapshot, bounds).value.attodollars
    ensures var reserve := WorstCase(snapshot, bounds).value.reserve;
            var admitted := Step(Opened(limit), Admit(reserve));
            var cost := CostMeaning(Display(paid));
            && admitted == Ledger(Balance(limit, 0, reserve, false), [reserve], [], 0)
            && cost.Ok?
            && admitted.balance.Settle(reserve, cost.value.usd) == Ok(Balance(limit, paid, 0, false))
  {
    hide WorstCase, CostMeaning, Display;
    DisplayedAmountCosts(paid);
    CostWithinReserve(snapshot, bounds, Display(paid));
  }
}
