/** Human copy of exact numbers, from `copy.rs`. */
module Copy {
  import opened Prelude
  import opened Decimal
  import opened Money

  /** Trailing zeros removed as long as two digits stay. */
  function DropZeros(digits: string): (r: string)
    ensures r <= digits
    ensures |digits| >= 2 ==> |r| >= 2
    ensures |r| > 2 ==> r[|r| - 1] != '0'
    ensures forall i :: |r| <= i < |digits| ==> digits[i] == '0'
  {
    if |digits| > 2 && digits[|digits| - 1] == '0' then DropZeros(digits[..|digits| - 1]) else digits
  }

  /** The amount without its currency sign. */
  function Compact(amount: Usd): string {
    Print(amount / MICROS_PER_DOLLAR) + "." + DropZeros(Padded(6, amount % MICROS_PER_DOLLAR))
  }

  /** An amount is rewritten compactly; a text that is no amount comes back unchanged. */
  method CompactUsd(exact: string) returns (shown: string)
    ensures Meaning(exact).Ok? ==> shown == "$" + Compact(Meaning(exact).value)
    ensures Meaning(exact).Err? ==> shown == exact
  {
    var value := FromStr(exact);
    if value.Err? {
      return exact;
    }
    var micros := value.value;
    var whole := micros / MICROS_PER_DOLLAR;
    var fraction := micros % MICROS_PER_DOLLAR;
    var digits := Padded(6, fraction);
    while |digits| > 2 && digits[|digits| - 1] == '0'
      invariant DropZeros(digits) == DropZeros(Padded(6, fraction))
      decreases |digits|
    {
      digits := digits[..|digits| - 1];
    }
    shown := "$" + Print(whole) + "." + digits;
  }

  /** The fraction digits that `Compact` keeps. */
  lemma CompactFraction(amount: Usd)
    ensures var padded := Padded(6, amount % MICROS_PER_DOLLAR);
            var kept := DropZeros(padded);
            && 2 <= |kept| <= 6 && |padded| == 6 && AllDigits(kept)
            && padded == kept + Zeros(6 - |kept|)
            && Num(kept) * Pow10(6 - |kept|) == amount % MICROS_PER_DOLLAR
  {
    var padded := Padded(6, amount % MICROS_PER_DOLLAR);
    var kept := DropZeros(padded);
    MillionIsPow10();
    PaddedValue(6, amount % MICROS_PER_DOLLAR);
    ZerosUnique(padded[|kept|..], 6 - |kept|);
    NumTrailingZeros(kept, 6 - |kept|);
  }

  /** The compact text still means exactly the amount. */
  lemma CompactIsExact(amount: Usd)
    ensures Meaning(Compact(amount)) == Ok(amount)
  {
    CompactFraction(amount);
    SplitAmount(amount, Compact(amount), DropZeros(Padded(6, amount % MICROS_PER_DOLLAR)));
  }

  /** It shows the dollars without leading zeros and two to six decimals, the last of more than two not zero. */
  lemma CompactShows(amount: Usd)
    ensures IsDecimalText(Compact(amount))
    ensures var (whole, fraction) := Parts(Compact(amount));
            && whole == Print(amount / 1_000_000) && 2 <= |fraction| <= 6
            && Compact(amount) == whole + "." + fraction
            && (|fraction| > 2 ==> fraction[|fraction| - 1] != '0')
  {
    CompactFraction(amount);
    PartsAre(Compact(amount), Print(amount / MICROS_PER_DOLLAR), DropZeros(Padded(6, amount % MICROS_PER_DOLLAR)));
  }

  /** No text with at least two decimals that means the amount is shorter. */
  lemma CompactIsShortest(amount: Usd, text: string)
    requires Meaning(text) == Ok(amount) && |Parts(text).1| >= 2
    ensures |Compact(amount)| <= |text|
  {
    var (whole, fraction) := Parts(text);
    var rest := Num(fraction) * Pow10(6 - |fraction|);
    MillionIsPow10();
    FractionIsSmall(fraction, 6);
    SplitBack(Num(whole), rest, amount);
    WholeIsShortest(whole);
    KeptIsShortest(fraction);
  }

  lemma SplitBack(dollars: nat, rest: nat, amount: nat)
    requires rest < MICROS_PER_DOLLAR && amount == dollars * MICROS_PER_DOLLAR + rest
    ensures amount / MICROS_PER_DOLLAR == dollars && amount % MICROS_PER_DOLLAR == rest
  {
  }

  lemma WholeIsShortest(whole: string)
    requires whole != [] && AllDigits(whole)
    ensures |Print(Num(whole))| <= |whole|
  {
    NumBound(whole);
    PrintLength(Num(whole), |whole|);
  }

  lemma KeptIsShortest(fraction: string)
    requires AllDigits(fraction) && 2 <= |fraction| <= 6
    ensures |DropZeros(Padded(6, Num(fraction) * Pow10(6 - |fraction|)))| <= |fraction|
  {
    var rest := Num(fraction) * Pow10(6 - |fraction|);
    var padded := Padded(6, rest);
    var filled := fraction + Zeros(6 - |fraction|);
    FractionIsSmall(fraction, 6);
    PaddedValue(6, rest);
    NumTrailingZeros(fraction, 6 - |fraction|);
    NumUnique(padded, filled);
    assert forall i :: |fraction| <= i < 6 ==> filled[i] == '0';
  }

  // ---- grouping ----

  function NoCommas(s: string): (r: string)
  {
    if s == [] then [] else (if s[0] == ',' then [] else [s[0]]) + NoCommas(s[1..])
  }

  function Reverse(s: string): (r: string)
    ensures |r| == |s|
    ensures forall i :: 0 <= i < |s| ==> r[i] == s[|s| - 1 - i]
  {
    if s == [] then [] else [s[|s| - 1]] + Reverse(s[..|s| - 1])
  }

  /** The digits of the number with a comma before each full group of three from the right. */
  ghost predicate IsGrouped(text: string, digits: string) {
    && NoCommas(text) == digits
    && text != [] && text[0] != ','
    && forall i :: 0 <= i < |text| ==> (text[|text| - 1 - i] == ',' <==> i % 4 == 3)
  }

  method Grouped(value: U64) returns (text: string)
    ensures IsGrouped(text, Print(value))
  {
    hide *;
    var digits := Print(value);
    var out: string := [];
    ghost var groups, last: nat := 0, 0;
    NothingBuilt(digits);
    for index := 0 to |digits|
      invariant Built(out, digits, index, groups, last)
    {
      var digit := digits[|digits| - 1 - index];
      if index > 0 && index % 3 == 0 {
        BuildComma(out, digits, index, groups, last);
        out := out + [','];
        groups, last := groups + 1, 0;
      } else {
        BuildPlain(out, digits, index, groups, last);
      }
      BuildDigit(out, digits, index, groups, last);
      out := out + [digit];
      last := last + 1;
    }
    text := Reverse(out);
    GroupedFromRight(out, digits, groups, last);
  }

  /** The reversed text so far: the last `index` digits, with `groups` commas and `last` digits behind the last one. */
  ghost predicate Built(out: string, digits: string, index: nat, groups: nat, last: nat) {
    && IsCanonical(digits) && index <= |digits|
    && index == 3 * groups + last && |out| == 4 * groups + last
    && (if index == 0 then groups == last == 0 else 1 <= last <= 3)
    && (index > 0 ==> IsDigit(out[|out| - 1]))
    && CommasAt(out)
    && NoCommas(Reverse(out)) == digits[|digits| - index..]
  }

  /** Ready for the next digit: fewer than three digits stand behind the last comma. */
  ghost predicate Ready(out: string, digits: string, index: nat, groups: nat, last: nat) {
    && IsCanonical(digits) && index < |digits|
    && index == 3 * groups + last && |out| == 4 * groups + last && last <= 2
    && CommasAt(out)
    && NoCommas(Reverse(out)) == digits[|digits| - index..]
  }

  lemma NothingBuilt(digits: string)
    requires IsCanonical(digits)
    ensures Built([], digits, 0, 0, 0)
  {
  }

  lemma BuildComma(out: string, digits: string, index: nat, groups: nat, last: nat)
    requires Built(out, digits, index, groups, last) && index < |digits| && index > 0 && index % 3 == 0
    ensures Ready(out + [','], digits, index, groups + 1, 0)
  {
    hide NoCommas, Reverse;
    assert last == 3;
    ReverseAppend(out, ',');
    CommasAppend(out, ',', groups, last);
  }

  lemma BuildPlain(out: string, digits: string, index: nat, groups: nat, last: nat)
    requires Built(out, digits, index, groups, last) && index < |digits| && !(index > 0 && index % 3 == 0)
    ensures Ready(out, digits, index, groups, last)
  {
    hide NoCommas, Reverse, CommasAt;
  }

  lemma BuildDigit(out: string, digits: string, index: nat, groups: nat, last: nat)
    requires Ready(out, digits, index, groups, last)
    ensures Built(out + [digits[|digits| - 1 - index]], digits, index + 1, groups, last + 1)
  {
    hide NoCommas, Reverse, CommasAt;
    var digit := digits[|digits| - 1 - index];
    ReverseAppend(out, digit);
    CommasAppend(out, digit, groups, last);
    assert digits[|digits| - index - 1..] == [digit] + digits[|digits| - index..];
  }

  ghost predicate CommasAt(out: string) {
    forall i :: 0 <= i < |out| ==> (out[i] == ',' <==> i % 4 == 3)
  }

  lemma CommasAppend(out: string, c: char, groups: nat, last: nat)
    requires CommasAt(out) && |out| == 4 * groups + last && last <= 3
    requires c == ',' <==> last == 3
    ensures CommasAt(out + [c])
  {
    assert |out| % 4 == last;
  }

  lemma GroupedFromRight(out: string, digits: string, groups: nat, last: nat)
    requires Built(out, digits, |digits|, groups, last)
    ensures IsGrouped(Reverse(out), digits)
  {
    var text := Reverse(out);
    assert forall i :: 0 <= i < |text| ==> text[|text| - 1 - i] == out[i];
  }

  lemma ReverseAppend(s: string, c: char)
    ensures Reverse(s + [c]) == [c] + Reverse(s)
    ensures NoCommas(Reverse(s + [c])) == (if c == ',' then [] else [c]) + NoCommas(Reverse(s))
  {
    assert (s + [c])[..|s|] == s;
    assert Reverse(s + [c])[1..] == Reverse(s);
  }
}
