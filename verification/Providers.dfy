/** Named per-unit rates of a price snapshot, from `providers.rs`. */
module Providers {
  import opened Prelude
  import opened Decimal
  import opened Pricing

  datatype NamedError = UnknownName | BadPrice(error: PricingError) | Duplicate | MissingRequired

  /** Canonical rates for every dimension a snapshot records. */
  datatype Rates = Rates(snapshot: PriceSnapshot, unrecognized: Rate) {
    function Values(): (r: seq<Rate>)
      ensures |r| == 10
    {
      [snapshot.RateOf(Prompt), snapshot.RateOf(Completion), snapshot.RateOf(Request),
       snapshot.RateOf(InternalReasoning), snapshot.RateOf(InputCacheRead), snapshot.RateOf(InputCacheWrite),
       snapshot.RateOf(Image), snapshot.RateOf(Audio), snapshot.RateOf(WebSearch), unrecognized]
    }

    /** The unknown charge is the one the snapshot records, as in every value `FromNamed` builds. */
    predicate Consistent() {
      snapshot.unrecognized == unrecognized
    }
  }

  const NAMES: seq<string> := [
    "prompt", "completion", "request", "internal_reasoning", "input_cache_read",
    "input_cache_write", "image", "audio", "web_search", "unrecognized"]

  /** The name of a column. */
  function Name(i: nat): string
    requires i < 10
  {
    NAMES[i]
  }

  lemma NamesDiffer(i: nat, k: nat)
    requires i < k < 10
    ensures Name(i) != Name(k)
  {
    assert |"prompt"| == 6 && |"completion"| == 10 && |"request"| == 7 && |"internal_reasoning"| == 18
        && |"input_cache_read"| == 16 && |"input_cache_write"| == 17 && |"image"| == 5 && |"audio"| == 5
        && |"web_search"| == 10 && |"unrecognized"| == 12;
    assert "completion"[0] == 'c' && "web_search"[0] == 'w';
    assert "image"[0] == 'i' && "audio"[0] == 'a';
  }

  type Named = (string, string)

  /** The position of a known name. */
  function PositionFrom(name: string, from: nat): (r: Option<nat>)
    requires from <= 10
    ensures r.Some? ==> from <= r.value < 10 && Name(r.value) == name
    ensures r.None? ==> forall i :: from <= i < 10 ==> Name(i) != name
    decreases 10 - from
  {
    if from == 10 then None else if Name(from) == name then Some(from) else PositionFrom(name, from + 1)
  }

  predicate Known(name: string) {
    exists i :: 0 <= i < 10 && Name(i) == name
  }

  // ---- what a list of named prices means ----

  ghost predicate NamedBefore(values: seq<Named>, k: nat)
    requires k < |values|
  {
    exists i :: 0 <= i < k && values[i].0 == values[k].0
  }

  /** Why entry `k` is refused, if it is. */
  ghost function EntryError(values: seq<Named>, k: nat): Option<NamedError>
    requires k < |values|
  {
    if !Known(values[k].0) then Some(UnknownName)
    else if RateMeaning(values[k].1).Err? then Some(BadPrice(RateMeaning(values[k].1).error))
    else if NamedBefore(values, k) then Some(Duplicate)
    else None
  }

  /** The refusal of the first refused entry. */
  ghost function ScanError(values: seq<Named>, n: nat): Option<NamedError>
    requires n <= |values|
  {
    if n == 0 then None
    else if ScanError(values, n - 1).Some? then ScanError(values, n - 1)
    else EntryError(values, n - 1)
  }

  /** The rate listed under a name among the first `n` entries. */
  ghost function Listed(values: seq<Named>, n: nat, name: string): Option<Rate>
    requires n <= |values| && ScanError(values, n) == None
  {
    if n == 0 then None
    else if values[n - 1].0 == name then Some(RateMeaning(values[n - 1].1).value)
    else Listed(values, n - 1, name)
  }

  /** The rates are those listed, and zero where nothing is listed. */
  ghost predicate ReadsAs(values: seq<Named>, rates: Rates)
    requires ScanError(values, |values|) == None
  {
    rates.Consistent() && forall i :: 0 <= i < 10 ==> rates.Values()[i] == OrDefault(Listed(values, |values|, Name(i)))
  }

  ghost predicate IsReading(values: seq<Named>, r: Result<Rates, NamedError>) {
    if ScanError(values, |values|).Some? then r == Err(ScanError(values, |values|).value)
    else if Listed(values, |values|, Name(0)).None? || Listed(values, |values|, Name(1)).None? then
      r == Err(MissingRequired)
    else r.Ok? && ReadsAs(values, r.value)
  }

  method FromNamed(values: seq<Named>) returns (r: Result<Rates, NamedError>)
    ensures IsReading(values, r)
  {
    hide RateMeaning, Name, ScanError, Listed, ReadsAs;
    NothingListed(values);
    var rates := new Option<Rate>[10](_ => None);
    for n := 0 to |values|
      invariant ScanError(values, n) == None
      invariant forall i :: 0 <= i < 10 ==> rates[i] == Listed(values, n, Name(i))
    {
      var (name, text) := values[n];
      var index := PositionFrom(name, 0);
      if index.None? {
        ScanStops(values, n + 1);
        return Err(UnknownName);
      }
      var rate := ParseRate(text);
      if rate.Err? {
        ScanStops(values, n + 1);
        return Err(BadPrice(rate.error));
      }
      ListedBefore(values, n, name);
      if rates[index.value].Some? {
        ScanStops(values, n + 1);
        return Err(Duplicate);
      }
      ScanOn(values, n);
      ListMore(values, n, index.value);
      rates[index.value] := Some(rate.value);
    }
    if rates[0].None? || rates[1].None? {
      return Err(MissingRequired);
    }
    var built := FromSlots(rates[..]);
    BuiltReads(values, rates[..]);
    r := Ok(built);
  }

  function OrDefault(rate: Option<Rate>): Rate {
    if rate.Some? then rate.value else 0
  }

  /** The snapshot built from the filled slots. */
  function FromSlots(rates: seq<Option<Rate>>): Rates
    requires |rates| == 10 && rates[0].Some? && rates[1].Some?
  {
    var unknown := OrDefault(rates[9]);
    Rates(NewSnapshot(rates[0].value, rates[1].value)
          .With(Request, OrDefault(rates[2]))
          .With(InternalReasoning, OrDefault(rates[3]))
          .With(InputCacheRead, OrDefault(rates[4]))
          .With(InputCacheWrite, OrDefault(rates[5]))
          .With(Image, OrDefault(rates[6]))
          .With(Audio, OrDefault(rates[7]))
          .With(WebSearch, OrDefault(rates[8]))
          .WithUnrecognizedCharge(unknown),
          unknown)
  }

  /** Each slot lands in its own dimension. */
  lemma SlotsLand(rates: seq<Option<Rate>>)
    requires |rates| == 10 && rates[0].Some? && rates[1].Some?
    ensures FromSlots(rates).Consistent()
    ensures forall i :: 0 <= i < 10 ==> FromSlots(rates).Values()[i] == OrDefault(rates[i])
  {
  }

  lemma BuiltReads(values: seq<Named>, rates: seq<Option<Rate>>)
    requires |rates| == 10 && rates[0].Some? && rates[1].Some?
    requires ScanError(values, |values|) == None
    requires forall i :: 0 <= i < 10 ==> rates[i] == Listed(values, |values|, Name(i))
    ensures ReadsAs(values, FromSlots(rates))
  {
    hide FromSlots, RateMeaning, Name, ScanError, Listed;
    SlotsLand(rates);
  }

  lemma NothingListed(values: seq<Named>)
    ensures ScanError(values, 0) == None
    ensures forall name :: Listed(values, 0, name) == None
  {
  }

  /** A fine entry is listed under its own name and changes no other. */
  lemma ListMore(values: seq<Named>, n: nat, index: nat)
    requires n < |values| && index < 10 && ScanError(values, n) == None && ScanError(values, n + 1) == None
    requires RateMeaning(values[n].1).Ok?
    requires Name(index) == values[n].0
    ensures Listed(values, n + 1, Name(index)) == Some(RateMeaning(values[n].1).value)
    ensures forall i :: 0 <= i < 10 && i != index ==> Listed(values, n + 1, Name(i)) == Listed(values, n, Name(i))
  {
    hide *;
    OnePosition(index);
    ListOn(values, n, Name(index));
    forall i | 0 <= i < 10 && i != index ensures Listed(values, n + 1, Name(i)) == Listed(values, n, Name(i)) {
      ListOn(values, n, Name(i));
    }
  }

  lemma ScanOn(values: seq<Named>, n: nat)
    requires n < |values| && ScanError(values, n) == None && EntryError(values, n) == None
    ensures ScanError(values, n + 1) == None && RateMeaning(values[n].1).Ok?
  {
    hide RateMeaning, Known;
  }

  lemma ListOn(values: seq<Named>, n: nat, name: string)
    requires n < |values| && ScanError(values, n) == None && ScanError(values, n + 1) == None
    requires RateMeaning(values[n].1).Ok?
    ensures Listed(values, n + 1, name)
         == if values[n].0 == name then Some(RateMeaning(values[n].1).value) else Listed(values, n, name)
  {
    hide RateMeaning, EntryError;
  }

  lemma OnePosition(k: nat)
    requires k < 10
    ensures forall i :: 0 <= i < 10 && i != k ==> Name(i) != Name(k)
  {
    hide Name;
    forall i | 0 <= i < 10 && i != k ensures Name(i) != Name(k) {
      NamesDiffer(Min(i, k), Max(i, k));
    }
  }

  lemma ScanStops(values: seq<Named>, n: nat)
    requires 0 < n <= |values| && ScanError(values, n - 1) == None && EntryError(values, n - 1).Some?
    ensures ScanError(values, |values|) == EntryError(values, n - 1)
  {
    hide EntryError;
    var m := n;
    while m < |values|
      invariant n <= m <= |values|
      invariant ScanError(values, m) == EntryError(values, n - 1)
    {
      m := m + 1;
    }
  }

  /** A name is listed exactly when an entry has it. */
  lemma {:induction false} ListedBefore(values: seq<Named>, n: nat, name: string)
    requires n <= |values| && ScanError(values, n) == None
    ensures Listed(values, n, name).Some? <==> exists i :: 0 <= i < n && values[i].0 == name
  {
    hide RateMeaning, Name;
    if n > 0 {
      ListedBefore(values, n - 1, name);
    }
  }

  // ---- independence of order, and the round trip ----

  /** The first `n` entries are fine and no name occurs twice among them. */
  ghost predicate AllFine(values: seq<Named>, n: nat)
    requires n <= |values|
  {
    && (forall k :: 0 <= k < n ==> Known(values[k].0) && RateMeaning(values[k].1).Ok?)
    && (forall i, k :: 0 <= i < k < n ==> values[i].0 != values[k].0)
  }

  lemma {:induction false} ScanIsAllFine(values: seq<Named>, n: nat)
    requires n <= |values|
    ensures ScanError(values, n) == None <==> AllFine(values, n)
  {
    hide RateMeaning, Known;
    if n > 0 {
      ScanIsAllFine(values, n - 1);
    }
  }

  /** In a fine list the rate under a name is that of any entry with the name. */
  lemma {:induction false} ListedIs(values: seq<Named>, n: nat, k: nat)
    requires k < n <= |values| && ScanError(values, n) == None
    ensures RateMeaning(values[k].1).Ok?
    ensures Listed(values, n, values[k].0) == Some(RateMeaning(values[k].1).value)
  {
    hide RateMeaning, Known;
    if k < n - 1 {
      ListedIs(values, n - 1, k);
      assert !NamedBefore(values, n - 1);
      assert values[k].0 != values[n - 1].0;
    }
  }

  lemma AllFineShuffled(values: seq<Named>, shuffled: seq<Named>)
    requires AllFine(values, |values|) && multiset(values) == multiset(shuffled)
    ensures AllFine(shuffled, |shuffled|)
  {
    hide RateMeaning, Known;
    forall k | 0 <= k < |shuffled| ensures shuffled[k] in values {
      assert shuffled[k] in multiset(shuffled);
    }
    forall i, k | 0 <= i < k < |shuffled| ensures shuffled[i].0 != shuffled[k].0 {
      if shuffled[i].0 == shuffled[k].0 {
        OneEntry(values, shuffled[i], shuffled[k]);
        CountTwice(shuffled, i, k);
        CountOnce(values, shuffled[i]);
      }
    }
  }

  lemma OneEntry(values: seq<Named>, x: Named, y: Named)
    requires AllFine(values, |values|) && x in values && y in values && x.0 == y.0
    ensures x == y
  {
  }

  lemma ListedShuffled(values: seq<Named>, shuffled: seq<Named>, name: string)
    requires multiset(values) == multiset(shuffled)
    requires ScanError(values, |values|) == None && ScanError(shuffled, |shuffled|) == None
    ensures Listed(values, |values|, name) == Listed(shuffled, |shuffled|, name)
  {
    hide RateMeaning, Listed, ScanError;
    ListedBefore(values, |values|, name);
    ListedBefore(shuffled, |shuffled|, name);
    assert forall x :: x in values <==> x in multiset(values);
    assert forall x :: x in shuffled <==> x in multiset(shuffled);
    assert forall x :: x in values <==> x in shuffled;
    if k :| 0 <= k < |values| && values[k].0 == name {
      assert values[k] in shuffled;
      var m :| 0 <= m < |shuffled| && shuffled[m] == values[k];
      ListedIs(values, |values|, k);
      ListedIs(shuffled, |shuffled|, m);
    } else {
      forall k | 0 <= k < |shuffled| ensures shuffled[k].0 != name {
        assert shuffled[k] in values;
      }
    }
  }

  /** An accepted list reads the same in any order. */
  lemma OrderDoesNotMatter(values: seq<Named>, shuffled: seq<Named>, rates: Rates)
    requires multiset(values) == multiset(shuffled) && IsReading(values, Ok(rates))
    ensures IsReading(shuffled, Ok(rates))
  {
    hide RateMeaning, Listed, ScanError, AllFine, Name;
    ScanIsAllFine(values, |values|);
    ScanIsAllFine(shuffled, |shuffled|);
    AllFineShuffled(values, shuffled);
    forall name ensures Listed(values, |values|, name) == Listed(shuffled, |shuffled|, name) {
      ListedShuffled(values, shuffled, name);
    }
  }

  /** The rates under their names, as they are stored. */
  function Printed(rates: Rates): (r: seq<Named>)
    ensures |r| == 10
    ensures forall i :: 0 <= i < 10 ==> r[i] == (Name(i), DisplayRate(rates.Values()[i]))
  {
    seq(10, i requires 0 <= i < 10 => (Name(i), DisplayRate(rates.Values()[i])))
  }

  /** The ten values are the whole of consistent rates. */
  lemma ValuesDetermine(a: Rates, b: Rates)
    requires a.Consistent() && b.Consistent() && a.Values() == b.Values()
    ensures a == b
  {
    var x, y := a.Values(), b.Values();
    assert x[0] == y[0] && x[1] == y[1] && x[2] == y[2] && x[3] == y[3] && x[4] == y[4];
    assert x[5] == y[5] && x[6] == y[6] && x[7] == y[7] && x[8] == y[8] && x[9] == y[9];
  }

  lemma ReadingUnique(values: seq<Named>, a: Rates, b: Rates)
    requires IsReading(values, Ok(a)) && IsReading(values, Ok(b))
    ensures a == b
  {
    hide RateMeaning, Listed, ScanError, Name;
    assert a.Values() == b.Values();
    ValuesDetermine(a, b);
  }

  lemma PrintedReads(rates: Rates)
    requires rates.Consistent()
    ensures IsReading(Printed(rates), Ok(rates))
  {
    hide RateMeaning, DisplayRate, Name, ScanError, Listed;
    var values := Printed(rates);
    forall i | 0 <= i < 10 ensures RateMeaning(values[i].1) == Ok(rates.Values()[i]) && Known(values[i].0) {
      RateRoundTrip(rates.Values()[i]);
    }
    forall i, k | 0 <= i < k < 10 ensures values[i].0 != values[k].0 {
      NamesDiffer(i, k);
    }
    ScanIsAllFine(values, 10);
    forall i | 0 <= i < 10 ensures Listed(values, 10, Name(i)) == Some(rates.Values()[i]) {
      ListedIs(values, 10, i);
    }
  }

  /** Stored rates read back in any order are the same rates, and nothing else can be read. */
  lemma RatesRoundTrip(rates: Rates, shuffled: seq<Named>, r: Result<Rates, NamedError>)
    requires rates.Consistent() && multiset(shuffled) == multiset(Printed(rates))
    requires IsReading(shuffled, r)
    ensures r == Ok(rates)
  {
    PrintedReads(rates);
    hide Printed;
    OrderDoesNotMatter(Printed(rates), shuffled, rates);
    if r.Ok? {
      ReadingUnique(shuffled, r.value, rates);
    }
  }

  // ---- names and dimensions ----

  /** The rate is that of every entry under the name, and zero when there is none. */
  ghost predicate Fills(values: seq<Named>, name: string, rate: Rate) {
    && (forall text :: (name, text) in values ==> RateMeaning(text) == Ok(rate))
    && ((forall text :: (name, text) !in values) ==> rate == 0)
  }

  lemma FillsAt(values: seq<Named>, rates: Rates, i: nat)
    requires IsReading(values, Ok(rates)) && i < 10
    ensures Fills(values, Name(i), rates.Values()[i])
  {
    hide RateMeaning, Listed, ScanError, Name;
    ListedBefore(values, |values|, Name(i));
    forall text | (Name(i), text) in values ensures RateMeaning(text) == Ok(rates.Values()[i]) {
      var k :| 0 <= k < |values| && values[k] == (Name(i), text);
      ListedIs(values, |values|, k);
    }
    if k :| 0 <= k < |values| && values[k].0 == Name(i) {
      assert (Name(i), values[k].1) in values;
    }
  }

  /** Every name of an accepted list fills the dimension it is the name of. */
  lemma FieldsByName(values: seq<Named>, rates: Rates)
    requires IsReading(values, Ok(rates))
    ensures var s := rates.snapshot;
            && Fills(values, "prompt", s.prompt)
            && Fills(values, "completion", s.completion)
            && Fills(values, "request", s.request)
            && Fills(values, "internal_reasoning", s.internalReasoning)
            && Fills(values, "input_cache_read", s.inputCacheRead)
            && Fills(values, "input_cache_write", s.inputCacheWrite)
            && Fills(values, "image", s.image)
            && Fills(values, "audio", s.audio)
            && Fills(values, "web_search", s.webSearch)
            && Fills(values, "unrecognized", s.unrecognized)
            && rates.unrecognized == s.unrecognized
  {
    hide IsReading, Fills;
    forall i | 0 <= i < 10 ensures Fills(values, Name(i), rates.Values()[i]) {
      FillsAt(values, rates, i);
    }
    ReadIsConsistent(values, rates);
    assert Fills(values, Name(0), rates.Values()[0]) && Fills(values, Name(1), rates.Values()[1])
        && Fills(values, Name(2), rates.Values()[2]) && Fills(values, Name(3), rates.Values()[3])
        && Fills(values, Name(4), rates.Values()[4]) && Fills(values, Name(5), rates.Values()[5])
        && Fills(values, Name(6), rates.Values()[6]) && Fills(values, Name(7), rates.Values()[7])
        && Fills(values, Name(8), rates.Values()[8]) && Fills(values, Name(9), rates.Values()[9]);
  }

  lemma ReadIsConsistent(values: seq<Named>, rates: Rates)
    requires IsReading(values, Ok(rates))
    ensures rates.Consistent()
  {
  }

  predicate IsDimensionName(name: string) {
    name in {"prompt", "completion", "request", "internal_reasoning", "input_cache_read", "input_cache_write",
             "image", "audio", "web_search", "unrecognized"}
  }

  lemma KnownByName(name: string)
    ensures Known(name) <==> IsDimensionName(name)
  {
    assert Name(0) == "prompt" && Name(1) == "completion" && Name(2) == "request" && Name(3) == "internal_reasoning";
    assert Name(4) == "input_cache_read" && Name(5) == "input_cache_write" && Name(6) == "image";
    assert Name(7) == "audio" && Name(8) == "web_search" && Name(9) == "unrecognized";
    hide Name;
  }

  /** Accepted exactly: names known and different, texts all rates, and both token prices there. */
  lemma AcceptedByName(values: seq<Named>)
    ensures (exists rates :: IsReading(values, Ok(rates))) <==>
              && (forall k :: 0 <= k < |values| ==> IsDimensionName(values[k].0) && RateMeaning(values[k].1).Ok?)
              && (forall i, k :: 0 <= i < k < |values| ==> values[i].0 != values[k].0)
              && (exists k :: 0 <= k < |values| && values[k].0 == "prompt")
              && (exists k :: 0 <= k < |values| && values[k].0 == "completion")
  {
    hide RateMeaning, Listed, ScanError, Known, IsDimensionName;
    ScanIsAllFine(values, |values|);
    forall k | 0 <= k < |values| ensures Known(values[k].0) <==> IsDimensionName(values[k].0) {
      KnownByName(values[k].0);
    }
    assert Name(0) == "prompt" && Name(1) == "completion";
    hide Name;
    if AllFine(values, |values|) {
      ListedBefore(values, |values|, Name(0));
      ListedBefore(values, |values|, Name(1));
      if Listed(values, |values|, Name(0)).Some? && Listed(values, |values|, Name(1)).Some? {
        var rates := seq(10, i requires 0 <= i < 10 => Listed(values, |values|, Name(i)));
        BuiltReads(values, rates);
        assert IsReading(values, Ok(FromSlots(rates)));
      }
    }
  }

  /** What is stored, name by name. */
  lemma PrintedByName(rates: Rates)
    requires rates.Consistent()
    ensures Printed(rates)
         == [("prompt", DisplayRate(rates.snapshot.prompt)),
               ("completion", DisplayRate(rates.snapshot.completion)),
               ("request", DisplayRate(rates.snapshot.request)),
               ("internal_reasoning", DisplayRate(rates.snapshot.internalReasoning)),
               ("input_cache_read", DisplayRate(rates.snapshot.inputCacheRead)),
               ("input_cache_write", DisplayRate(rates.snapshot.inputCacheWrite)),
               ("image", DisplayRate(rates.snapshot.image)),
               ("audio", DisplayRate(rates.snapshot.audio)),
               ("web_search", DisplayRate(rates.snapshot.webSearch)),
               ("unrecognized", DisplayRate(rates.snapshot.unrecognized))]
  {
    hide DisplayRate;
  }
}
