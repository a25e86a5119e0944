/** Accounting transitions of the paid-processing ledger, from `budget.rs`, and their runs. */
module Budget {
  import opened Prelude
  import opened Money

  datatype BudgetError =
    | Disabled
    | Frozen
    | InsufficientFunds
    | ZeroReservation
    | InvalidBalance
    | Arithmetic(error: MoneyError)

  datatype Balance = Balance(limit: Usd, settled: Usd, reserved: Usd, frozen: bool) {

    function Available(): Usd {
      match CheckedSub(limit, settled)
      case Err(_) => 0
      case Ok(rest) =>
        match CheckedSub(rest, reserved)
        case Err(_) => 0
        case Ok(left) => left
    }

    function Reserve(maximum: Usd): Result<Balance, BudgetError> {
      if frozen then Err(Frozen)
      else if limit == 0 then Err(Disabled)
      else if maximum == 0 then Err(ZeroReservation)
      else if maximum > Available() then Err(InsufficientFunds)
      else
        match CheckedAdd(reserved, maximum)
        case Err(e) => Err(Arithmetic(e))
        case Ok(total) => Ok(this.(reserved := total))
    }

    function Release(maximum: Usd): Result<Balance, BudgetError> {
      match CheckedSub(reserved, maximum)
      case Err(e) => Err(Arithmetic(e))
      case Ok(rest) => Ok(this.(reserved := rest))
    }

    /** Accounts for an actual charge; a broken bound freezes admission. */
    function Settle(maximum: Usd, actual: Usd): Result<Balance, BudgetError> {
      match CheckedSub(reserved, maximum)
      case Err(e) => Err(Arithmetic(e))
      case Ok(left) =>
        match CheckedAdd(settled, actual)
        case Err(e) => Err(Arithmetic(e))
        case Ok(spent) =>
          match CheckedAdd(spent, left)
          case Err(e) => Err(Arithmetic(e))
          case Ok(committed) =>
            Ok(Balance(limit, spent, left, frozen || actual > maximum || committed > limit))
    }

    function WithLimit(newLimit: Usd): Result<Balance, BudgetError> {
      match CheckedAdd(settled, reserved)
      case Err(e) => Err(Arithmetic(e))
      case Ok(committed) => if committed > newLimit then Err(InsufficientFunds) else Ok(this.(limit := newLimit))
    }
  }

  function NewBalance(limit: Usd): Balance {
    Balance(limit, 0, 0, false)
  }

  function Restore(limit: Usd, settled: Usd, reserved: Usd, frozen: bool): Result<Balance, BudgetError> {
    match CheckedAdd(settled, reserved)
    case Err(e) => Err(Arithmetic(e))
    case Ok(committed) =>
      if committed > limit && !frozen then Err(InvalidBalance) else Ok(Balance(limit, settled, reserved, frozen))
  }

  // ---- runs ----

  /** One request of the ledger's client. A release or settlement names an open reservation by position. */
  datatype Event =
    | Admit(maximum: Usd)
    | Drop(at: nat)
    | Charge(at: nat, actual: Usd)
    | SetLimit(limit: Usd)

  /**
   The balance with what the ledger knows of its requests: the open maxima, the actual
   amounts of the settled ones, and the overruns so far.
   */
  datatype Ledger = Ledger(balance: Balance, open: seq<Usd>, charged: seq<Usd>, overrun: nat)

  function Opened(limit: Usd): Ledger {
    Ledger(NewBalance(limit), [], [], 0)
  }

  function RemoveAt(open: seq<Usd>, at: nat): seq<Usd>
    requires at < |open|
  {
    open[..at] + open[at + 1..]
  }

  /** A refused request leaves the ledger as it was. */
  function Step(ledger: Ledger, event: Event): Ledger {
    match event
    case Admit(maximum) =>
      (match ledger.balance.Reserve(maximum)
       case Ok(b) => ledger.(balance := b, open := ledger.open + [maximum])
       case Err(_) => ledger)
    case Drop(at) =>
      if at >= |ledger.open| then ledger
      else
        (match ledger.balance.Release(ledger.open[at])
         case Ok(b) => ledger.(balance := b, open := RemoveAt(ledger.open, at))
         case Err(_) => ledger)
    case Charge(at, actual) =>
      if at >= |ledger.open| then ledger
      else
        (match ledger.balance.Settle(ledger.open[at], actual)
         case Ok(b) =>
           Ledger(b, RemoveAt(ledger.open, at), ledger.charged + [actual],
                  ledger.overrun + Max(actual - ledger.open[at], 0))
         case Err(_) => ledger)
    case SetLimit(limit) =>
      (match ledger.balance.WithLimit(limit)
       case Ok(b) => ledger.(balance := b)
       case Err(_) => ledger)
  }

  function Run(ledger: Ledger, events: seq<Event>): Ledger
    decreases |events|
  {
    if events == [] then ledger else Run(Step(ledger, events[0]), events[1..])
  }

  function Sum(amounts: seq<Usd>): nat {
    if amounts == [] then 0 else Sum(amounts[..|amounts| - 1]) + amounts[|amounts| - 1]
  }

  /**
   What every reachable ledger satisfies: the reservations are the open maxima, the settled
   total is all that was charged, the commitment exceeds the limit by no more than the overruns,
   and the ledger is frozen exactly when some settlement exceeded its maximum.
   */
  ghost predicate Safe(ledger: Ledger) {
    var b := ledger.balance;
    && b.reserved == Sum(ledger.open)
    && b.settled == Sum(ledger.charged)
    && b.settled + b.reserved <= b.limit + ledger.overrun
    && b.settled + b.reserved <= I64_MAX
    && (b.frozen <==> ledger.overrun > 0)
  }

  lemma {:induction false} SumRemove(open: seq<Usd>, at: nat)
    requires at < |open|
    ensures Sum(open) == Sum(RemoveAt(open, at)) + open[at]
    decreases |open|
  {
    var n := |open| - 1;
    if at == n {
      assert RemoveAt(open, at) == open[..n];
    } else {
      SumRemove(open[..n], at);
      assert RemoveAt(open, at)[..n - 1] == RemoveAt(open[..n], at);
    }
  }

  lemma SumAppend(open: seq<Usd>, maximum: Usd)
    ensures Sum(open + [maximum]) == Sum(open) + maximum
  {
    assert (open + [maximum])[..|open|] == open;
  }

  lemma StepIsSafe(ledger: Ledger, event: Event)
    requires Safe(ledger)
    ensures Safe(Step(ledger, event))
    ensures ledger.balance.frozen ==> Step(ledger, event).balance.frozen
  {
    hide Sum, RemoveAt;
    match event {
      case Admit(maximum) => SumAppend(ledger.open, maximum);
      case Drop(at) => if at < |ledger.open| { SumRemove(ledger.open, at); }
      case Charge(at, actual) =>
        if at < |ledger.open| {
          SumRemove(ledger.open, at);
          SumAppend(ledger.charged, actual);
        }
      case SetLimit(limit) =>
    }
  }

  /** Safety over every run, and freezing is permanent. */
  lemma {:induction false} RunIsSafe(ledger: Ledger, events: seq<Event>)
    requires Safe(ledger)
    ensures Safe(Run(ledger, events))
    ensures ledger.balance.frozen ==> Run(ledger, events).balance.frozen
    decreases |events|
  {
    if events != [] {
      StepIsSafe(ledger, events[0]);
      RunIsSafe(Step(ledger, events[0]), events[1..]);
    }
  }

  /** From an opened ledger: what a reader of the balance may rely on after any requests at all. */
  lemma LedgerSafety(limit: Usd, events: seq<Event>)
    ensures var l := Run(Opened(limit), events);
            var b := l.balance;
            && b.reserved == Sum(l.open)
            && b.settled == Sum(l.charged)
            && (!b.frozen ==> Sum(l.charged) + Sum(l.open) <= b.limit)
            && (!b.frozen ==> b.settled + b.reserved <= b.limit)
            && b.settled + b.reserved <= b.limit + l.overrun
            && (b.frozen <==> l.overrun > 0)
            && Restore(b.limit, b.settled, b.reserved, b.frozen) == Ok(b)
  {
    RunIsSafe(Opened(limit), events);
  }

  /**
   What each request does to a reachable ledger: when it is granted, what it adds to the
   open maxima and the charges, and whose limit holds afterwards.
   */
  lemma RequestsAreRecorded(limit: Usd, events: seq<Event>, event: Event)
    ensures var l := Run(Opened(limit), events);
            var next := Step(l, event);
            && (event.Admit? ==>
                  && next.balance.limit == l.balance.limit && next.charged == l.charged
                  && next.open == if Affordable(l, event.maximum) then l.open + [event.maximum] else l.open)
            && (event.Drop? ==>
                  && next.balance.limit == l.balance.limit && next.charged == l.charged
                  && next.open == if event.at < |l.open| then RemoveAt(l.open, event.at) else l.open)
            && (event.Charge? ==>
                  next.balance.limit == l.balance.limit
                  && if event.at < |l.open| && Representable(l, event.at, event.actual)
                     then next.open == RemoveAt(l.open, event.at) && next.charged == l.charged + [event.actual]
                     else next == l)
            && (event.SetLimit? ==>
                  next.open == l.open && next.charged == l.charged
                  && next.balance.limit
                     == if Sum(l.charged) + Sum(l.open) <= event.limit then event.limit else l.balance.limit)
  {
    var l := Run(Opened(limit), events);
    RunIsSafe(Opened(limit), events);
    hide Run, Sum, RemoveAt;
    if (event.Drop? || event.Charge?) && event.at < |l.open| {
      SumRemove(l.open, event.at);
    }
  }

  /** The ledger still takes new requests, and this one fits what charges and open maxima leave of the limit. */
  predicate Affordable(ledger: Ledger, maximum: Usd) {
    !ledger.balance.frozen && maximum > 0
    && Sum(ledger.charged) + Sum(ledger.open) + maximum <= ledger.balance.limit
  }

  /** Charging this much keeps the totals in 64 bits. */
  predicate Representable(ledger: Ledger, at: nat, actual: Usd)
    requires at < |ledger.open|
  {
    Sum(ledger.charged) + actual + (Sum(ledger.open) - ledger.open[at]) <= I64_MAX
  }

  /** A stored balance is taken back as it is exactly when it is in range and kept, or frozen. */
  lemma RestoreExactly(limit: Usd, settled: Usd, reserved: Usd, frozen: bool)
    ensures Restore(limit, settled, reserved, frozen).Ok? <==>
              settled + reserved <= 0x7FFF_FFFF_FFFF_FFFF && (settled + reserved <= limit || frozen)
    ensures Restore(limit, settled, reserved, frozen).Ok? ==>
              Restore(limit, settled, reserved, frozen).value == Balance(limit, settled, reserved, frozen)
  {
  }

  /** Why a transition is refused: a total that leaves its range below or above, or a limit that is already passed. */
  lemma RefusalsExactly(b: Balance, maximum: Usd, actual: Usd, limit: Usd)
    ensures var below, above := Err(Arithmetic(Negative)), Err(Arithmetic(Overflow));
            && (b.Release(maximum).Err? <==> b.Release(maximum) == below)
            && (b.Release(maximum) == below <==> maximum > b.reserved)
            && (b.Settle(maximum, actual) == below <==> maximum > b.reserved)
            && (b.Settle(maximum, actual) == above <==>
                  maximum <= b.reserved && b.settled + actual + (b.reserved - maximum) > 0x7FFF_FFFF_FFFF_FFFF)
            && (b.Settle(maximum, actual).Err? ==> b.Settle(maximum, actual) in {below, above})
            && (b.WithLimit(limit) == above <==> b.settled + b.reserved > 0x7FFF_FFFF_FFFF_FFFF)
            && (b.WithLimit(limit) == Err(InsufficientFunds) <==>
                  limit < b.settled + b.reserved <= 0x7FFF_FFFF_FFFF_FFFF)
            && (b.WithLimit(limit).Err? ==> b.WithLimit(limit) in {above, Err(InsufficientFunds)})
            && (Restore(limit, b.settled, b.reserved, b.frozen) == Err(InvalidBalance) <==>
                  limit < b.settled + b.reserved <= 0x7FFF_FFFF_FFFF_FFFF && !b.frozen)
  {
  }

  /** The step that freezes is a settlement above its maximum, and every such settlement that succeeds freezes. */
  lemma FreezesExactlyOnOverrun(limit: Usd, events: seq<Event>, event: Event)
    ensures var l := Run(Opened(limit), events);
            !l.balance.frozen ==>
              (Step(l, event).balance.frozen <==>
                 && event.Charge? && event.at < |l.open| && event.actual > l.open[event.at]
                 && l.balance.settled + event.actual <= I64_MAX
                 && l.balance.settled + event.actual + (l.balance.reserved - l.open[event.at]) <= I64_MAX)
  {
    var l := Run(Opened(limit), events);
    RunIsSafe(Opened(limit), events);
    hide Run, Sum, RemoveAt;
    if event.Charge? && event.at < |l.open| {
      SumRemove(l.open, event.at);
    }
  }

  /**
   For every balance, reachable or not, a reservation is admitted exactly when it is positive
   and affordable, and a refusal never comes from the arithmetic.
   */
  lemma ReserveExactlyAffordable(b: Balance, maximum: Usd)
    ensures var r := b.Reserve(maximum);
            && (r.Ok? <==> !b.frozen && maximum > 0 && b.settled + b.reserved + maximum <= b.limit)
            && (r == Err(InsufficientFunds) <==>
                  !b.frozen && b.limit > 0 && maximum > 0 && b.settled + b.reserved + maximum > b.limit)
            && (r == Err(Frozen) <==> b.frozen)
            && (r == Err(Disabled) <==> !b.frozen && b.limit == 0)
            && (r == Err(ZeroReservation) <==> !b.frozen && b.limit > 0 && maximum == 0)
            && (r.Err? ==> r.error in {Frozen, Disabled, ZeroReservation, InsufficientFunds})
  {
  }

  /** Every open reservation of a reachable ledger can be released. */
  lemma OpenCanBeReleased(limit: Usd, events: seq<Event>, at: nat)
    requires at < |Run(Opened(limit), events).open|
    ensures Run(Opened(limit), events).balance.Release(Run(Opened(limit), events).open[at]).Ok?
  {
    RunIsSafe(Opened(limit), events);
    SumRemove(Run(Opened(limit), events).open, at);
  }

  /** Releasing what was just reserved gives the balance back. */
  lemma ReleaseUndoesReserve(b: Balance, maximum: Usd)
    requires b.Reserve(maximum).Ok?
    ensures b.Reserve(maximum).value.Release(maximum) == Ok(b)
  {
  }

  /** A run whose settlements all stay within their maxima never freezes. */
  ghost predicate KeepsBounds(ledger: Ledger, events: seq<Event>)
    decreases |events|
  {
    events != [] ==>
      && (events[0].Charge? && events[0].at < |ledger.open| ==> events[0].actual <= ledger.open[events[0].at])
      && KeepsBounds(Step(ledger, events[0]), events[1..])
  }

  lemma {:induction false} BoundedRunNeverFreezes(ledger: Ledger, events: seq<Event>)
    requires Safe(ledger) && !ledger.balance.frozen && KeepsBounds(ledger, events)
    ensures !Run(ledger, events).balance.frozen
    ensures var b := Run(ledger, events).balance; b.settled + b.reserved <= b.limit
    decreases |events|
  {
    if events != [] {
      StepIsSafe(ledger, events[0]);
      BoundedRunNeverFreezes(Step(ledger, events[0]), events[1..]);
    }
  }
}
