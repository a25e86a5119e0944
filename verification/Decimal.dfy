/** Unsigned decimal text: its value, its canonical printing, and unsigned checked accumulation. */
module Decimal {
  import opened Prelude

  predicate IsDigit(c: char) {
    '0' <= c <= '9'
  }

  predicate AllDigits(s: string) {
    forall i :: 0 <= i < |s| ==> IsDigit(s[i])
  }

  function Digit(c: char): nat
    requires IsDigit(c)
    ensures Digit(c) <= 9
  {
    c as int - '0' as int
  }

  function DigitChar(d: nat): (c: char)
    requires d <= 9
    ensures IsDigit(c) && Digit(c) == d
  {
    ('0' as int + d) as char
  }

  function Pow10(n: nat): (p: nat)
    ensures p >= 1
  {
    if n == 0 then 1 else 10 * Pow10(n - 1)
  }

  lemma {:induction false} Pow10Add(a: nat, b: nat)
    ensures Pow10(a + b) == Pow10(a) * Pow10(b)
    decreases b
  {
    if b > 0 {
      Pow10Add(a, b - 1);
      assert Pow10(a) * (10 * Pow10(b - 1)) == 10 * (Pow10(a) * Pow10(b - 1));
    }
  }

  lemma {:induction false} Pow10Monotone(a: nat, b: nat)
    requires a <= b
    ensures Pow10(a) <= Pow10(b)
    decreases b
  {
    if a < b {
      Pow10Monotone(a, b - 1);
    }
  }

  /** The number a digit string writes. */
  function Num(s: string): nat
    requires AllDigits(s)
  {
    if s == [] then 0 else 10 * Num(s[..|s| - 1]) + Digit(s[|s| - 1])
  }

  lemma {:induction false} NumAppend(a: string, b: string)
    requires AllDigits(a) && AllDigits(b)
    ensures AllDigits(a + b) && Num(a + b) == Num(a) * Pow10(|b|) + Num(b)
    decreases |b|
  {
    if b == [] {
      assert a + b == a;
      EmptyIsZero();
    } else {
      var b', x := b[..|b| - 1], b[|b| - 1];
      NumAppend(a, b');
      NumLast(a + b', x);
      NumLast(b', x);
      assert a + b == a + b' + [x] && b == b' + [x];
      TimesTen(Num(a), Pow10(|b'|));
    }
  }

  lemma NumLast(s: string, x: char)
    requires AllDigits(s) && IsDigit(x)
    ensures AllDigits(s + [x]) && Num(s + [x]) == 10 * Num(s) + Digit(x)
  {
    assert (s + [x])[..|s|] == s;
  }

  lemma TimesTen(n: nat, p: nat)
    ensures n * (10 * p) == 10 * (n * p)
  {
  }

  lemma {:induction false} NumBound(s: string)
    requires AllDigits(s)
    ensures Num(s) < Pow10(|s|)
  {
    if s != [] {
      NumBound(s[..|s| - 1]);
    }
  }

  /** Equally long digit strings with one value are equal. */
  lemma {:induction false} NumUnique(a: string, b: string)
    requires AllDigits(a) && AllDigits(b) && |a| == |b| && Num(a) == Num(b)
    ensures a == b
  {
    if a != [] {
      var a', b' := a[..|a| - 1], b[..|b| - 1];
      NumUnique(a', b');
      assert a == a' + [a[|a| - 1]] && b == b' + [b[|b| - 1]];
    }
  }

  function Zeros(n: nat): (s: string)
    ensures |s| == n && AllDigits(s)
    ensures forall i :: 0 <= i < n ==> s[i] == '0'
  {
    if n == 0 then [] else Zeros(n - 1) + ['0']
  }

  lemma {:induction false} NumZeros(n: nat)
    ensures Num(Zeros(n)) == 0
  {
    if n > 0 {
      NumZeros(n - 1);
      assert Zeros(n)[..n - 1] == Zeros(n - 1);
    }
  }

  lemma ZerosUnique(s: string, n: nat)
    requires |s| == n && forall i :: 0 <= i < n ==> s[i] == '0'
    ensures s == Zeros(n)
  {
  }

  lemma NumLeadingZeros(n: nat, s: string)
    requires AllDigits(s)
    ensures AllDigits(Zeros(n) + s) && Num(Zeros(n) + s) == Num(s)
  {
    hide Num, Pow10, Zeros;
    NumZeros(n);
    NumAppend(Zeros(n), s);
  }

  lemma NumTrailingZeros(s: string, n: nat)
    requires AllDigits(s)
    ensures AllDigits(s + Zeros(n)) && |s + Zeros(n)| == |s| + n && Num(s + Zeros(n)) == Num(s) * Pow10(n)
  {
    hide Num, Pow10, Zeros;
    NumZeros(n);
    NumAppend(s, Zeros(n));
  }

  /** The first `i + 1` digits from the first `i`. */
  lemma PrefixStep(digits: string, i: nat)
    requires AllDigits(digits) && i < |digits|
    ensures Num(digits[..i + 1]) == 10 * Num(digits[..i]) + Digit(digits[i])
    ensures Num(digits[..i + 1]) < Pow10(i + 1)
  {
    assert digits[..i + 1][..i] == digits[..i];
    NumBound(digits[..i + 1]);
  }

  lemma PowerStep(n: nat, k: nat)
    ensures n * Pow10(k + 1) == n * Pow10(k) * 10
  {
    assert Pow10(k + 1) == 10 * Pow10(k);
  }

  /** A digit behind a number counts ten times the number and what its character stands for. */
  lemma DigitsCount(s: string, x: char)
    requires '0' <= x <= '9' && forall i :: 0 <= i < |s| ==> '0' <= s[i] <= '9'
    ensures Num("") == 0 && AllDigits(s) && AllDigits(s + [x])
    ensures Num(s + [x]) == 10 * Num(s) + (x as int - 48)
  {
    NumLast(s, x);
  }

  lemma EmptyIsZero()
    ensures Num("") == 0 && Pow10(0) == 1
  {
  }

  // ---- printing ----

  /** At least one digit, and no leading zero unless it is the digit zero itself. */
  predicate IsCanonical(s: string) {
    s != [] && AllDigits(s) && (s == "0" || s[0] != '0')
  }

  function Print(n: nat): (s: string)
    ensures IsCanonical(s) && (n > 0 ==> s[0] != '0')
  {
    if n < 10 then [DigitChar(n)] else Print(n / 10) + [DigitChar(n % 10)]
  }

  lemma {:induction false} NumPrint(n: nat)
    ensures Num(Print(n)) == n
  {
    var s := Print(n);
    if n >= 10 {
      assert s[..|s| - 1] == Print(n / 10);
      NumPrint(n / 10);
    } else {
      assert s[..|s| - 1] == [];
    }
  }

  lemma {:induction false} PrintLength(n: nat, k: nat)
    requires k >= 1 && n < Pow10(k)
    ensures |Print(n)| <= k
    decreases k
  {
    if n >= 10 {
      assert Pow10(k) == 10 * Pow10(k - 1);
      assert k >= 2;
      PrintLength(n / 10, k - 1);
    }
  }

  lemma {:induction false} CanonicalIsLarge(s: string)
    requires IsCanonical(s)
    ensures s[0] != '0' ==> Num(s) >= Pow10(|s| - 1)
  {
    if |s| == 1 {
      assert s[..0] == [];
    } else {
      var t := s[..|s| - 1];
      assert t[0] == s[0] && IsCanonical(t);
      CanonicalIsLarge(t);
    }
  }

  /** Canonical digits are the printing of their value. */
  lemma {:induction false} PrintNum(s: string)
    requires IsCanonical(s)
    ensures Print(Num(s)) == s
  {
    if |s| == 1 {
      assert s[..0] == [] && s == [s[0]];
    } else {
      var t, x := s[..|s| - 1], s[|s| - 1];
      assert t[0] == s[0] && IsCanonical(t) && s == t + [x];
      PrintNum(t);
      CanonicalIsLarge(t);
      NumLast(t, x);
      Pow10Monotone(0, |t| - 1);
      assert Num(t) >= 1;
      PrintLast(Num(t), x);
    }
  }

  lemma PrintLast(n: nat, x: char)
    requires n >= 1 && IsDigit(x)
    ensures Print(10 * n + Digit(x)) == Print(n) + [x]
  {
  }

  /** The printing of `n` filled up with zeros on the left. */
  function Padded(width: nat, n: nat): (s: string)
    ensures AllDigits(s) && |s| >= width
  {
    var digits := Print(n);
    if |digits| >= width then digits else Zeros(width - |digits|) + digits
  }

  lemma PaddedValue(width: nat, n: nat)
    requires width >= 1 && n < Pow10(width)
    ensures |Padded(width, n)| == width && Num(Padded(width, n)) == n
  {
    hide Num, Pow10, Print, Zeros;
    var digits := Print(n);
    PrintLength(n, width);
    NumPrint(n);
    if |digits| < width {
      NumLeadingZeros(width - |digits|, digits);
    }
  }

  // ---- trimming zeros ----

  function TrimStartZeros(s: string): (r: string)
    ensures |r| <= |s| && r == s[|s| - |r|..]
    ensures r == [] || r[0] != '0'
    ensures forall i :: 0 <= i < |s| - |r| ==> s[i] == '0'
  {
    if s == [] || s[0] != '0' then s else TrimStartZeros(s[1..])
  }

  function TrimEndZeros(s: string): (r: string)
    ensures |r| <= |s| && r == s[..|r|]
    ensures r == [] || r[|r| - 1] != '0'
    ensures forall i :: |r| <= i < |s| ==> s[i] == '0'
  {
    if s == [] || s[|s| - 1] != '0' then s else TrimEndZeros(s[..|s| - 1])
  }

  lemma TrimStartSplits(s: string)
    ensures s == Zeros(|s| - |TrimStartZeros(s)|) + TrimStartZeros(s)
  {
    var r := TrimStartZeros(s);
    hide TrimStartZeros, Zeros;
    ZerosUnique(s[..|s| - |r|], |s| - |r|);
  }

  lemma TrimEndSplits(s: string)
    ensures s == TrimEndZeros(s) + Zeros(|s| - |TrimEndZeros(s)|)
  {
    var r := TrimEndZeros(s);
    hide TrimEndZeros, Zeros;
    ZerosUnique(s[|r|..], |s| - |r|);
  }

  // ---- decimal text with an optional fraction ----

  /** The text is `whole`, or `whole.fraction` with a nonempty fraction. */
  ghost predicate IsDecimal(text: string, whole: string, fraction: string) {
    && whole != [] && AllDigits(whole) && AllDigits(fraction)
    && text == whole + (if fraction == [] then [] else "." + fraction)
  }

  /** The position of the first character that is one of `marks`. */
  function Find(s: string, marks: set<char>): (r: Option<nat>)
    ensures r.None? ==> forall i :: 0 <= i < |s| ==> s[i] !in marks
    ensures r.Some? ==> r.value < |s| && s[r.value] in marks && forall i :: 0 <= i < r.value ==> s[i] !in marks
  {
    if s == [] then None
    else if s[0] in marks then Some(0)
    else
      match Find(s[1..], marks)
      case None => None
      case Some(i) => Some(i + 1)
  }

  /** Both sides of the first mark, as `split_once` returns them. */
  function SplitOnce(s: string, marks: set<char>): (r: Option<(string, string)>)
    ensures r.None? ==> forall i :: 0 <= i < |s| ==> s[i] !in marks
    ensures r.Some? ==>
              var (left, right) := r.value;
              && |left| < |s| && s[|left|] in marks
              && s == left + [s[|left|]] + right
              && forall i :: 0 <= i < |left| ==> left[i] !in marks
  {
    match Find(s, marks)
    case None => None
    case Some(i) => Some((s[..i], s[i + 1..]))
  }

  /** What `split_once` finds in a text that is known to be a decimal. */
  lemma SplitDecimal(text: string, whole: string, fraction: string)
    requires IsDecimal(text, whole, fraction)
    ensures fraction == [] ==> SplitOnce(text, {'.'}) == None && text == whole
    ensures fraction != [] ==> SplitOnce(text, {'.'}) == Some((whole, fraction))
  {
    if fraction != [] {
      assert text == whole + ['.'] + fraction;
      assert text[|whole|] == '.';
      var left := SplitOnce(text, {'.'}).value.0;
      assert |left| == |whole|;
    }
  }

  /** A text is a decimal in at most one way. */
  lemma DecimalUnique(text: string, w1: string, f1: string, w2: string, f2: string)
    requires IsDecimal(text, w1, f1) && IsDecimal(text, w2, f2)
    ensures w1 == w2 && f1 == f2
  {
    SplitDecimal(text, w1, f1);
    SplitDecimal(text, w2, f2);
  }

  ghost predicate IsDecimalText(text: string) {
    exists w, f :: IsDecimal(text, w, f)
  }

  /** The whole part and the fraction of a decimal. */
  ghost function Parts(text: string): (r: (string, string))
    requires IsDecimalText(text)
    ensures IsDecimal(text, r.0, r.1)
  {
    var w, f :| IsDecimal(text, w, f);
    (w, f)
  }

  lemma PartsAre(text: string, whole: string, fraction: string)
    requires IsDecimal(text, whole, fraction)
    ensures IsDecimalText(text) && Parts(text) == (whole, fraction)
  {
    DecimalUnique(text, whole, fraction, Parts(text).0, Parts(text).1);
  }

  /** Splitting at the first point decides whether a text is a decimal. */
  lemma SplitDecides(text: string)
    ensures var point := SplitOnce(text, {'.'});
            var (whole, fraction) := if point.Some? then point.value else (text, []);
            if whole != [] && AllDigits(whole) && AllDigits(fraction) && (point.Some? ==> fraction != [])
            then IsDecimal(text, whole, fraction)
            else !IsDecimalText(text)
  {
    var point := SplitOnce(text, {'.'});
    var (whole, fraction) := if point.Some? then point.value else (text, []);
    if point.Some? {
      assert text == whole + (['.'] + fraction);
    }
    forall w, f | IsDecimal(text, w, f) ensures whole == w && fraction == f && (point.Some? ==> f != []) {
      SplitDecimal(text, w, f);
    }
  }

  /** The value of a decimal times ten to the `places`, for at most that many fraction digits. */
  function Scaled(whole: string, fraction: string, places: nat): nat
    requires AllDigits(whole) && AllDigits(fraction) && |fraction| <= places
  {
    Num(whole) * Pow10(places) + Num(fraction) * Pow10(places - |fraction|)
  }

  lemma FractionIsSmall(fraction: string, places: nat)
    requires AllDigits(fraction) && |fraction| <= places
    ensures Num(fraction) * Pow10(places - |fraction|) < Pow10(places)
  {
    NumTrailingZeros(fraction, places - |fraction|);
    NumBound(fraction + Zeros(places - |fraction|));
  }

  // ---- UTF-8 length ----

  function Utf8Width(c: char): nat {
    if c as int < 0x80 then 1 else if c as int < 0x800 then 2 else if c as int < 0x1_0000 then 3 else 4
  }

  /** The length in bytes, as `str::len` counts. */
  function ByteLen(s: string): (n: nat)
    ensures n >= |s|
  {
    if s == [] then 0 else ByteLen(s[..|s| - 1]) + Utf8Width(s[|s| - 1])
  }

  /** One to four bytes by the ranges of section 3 of RFC 3629. */
  lemma BytesByRange(s: string, c: char)
    ensures ByteLen("") == 0
    ensures var more := ByteLen(s + [c]) - ByteLen(s);
            && (more == 1 <==> c as int <= 0x7F)
            && (more == 2 <==> 0x80 <= c as int <= 0x7FF)
            && (more == 3 <==> 0x800 <= c as int <= 0xFFFF)
            && (more == 4 <==> 0x1_0000 <= c as int)
  {
    assert (s + [c])[..|s|] == s;
  }

  lemma {:induction false} AsciiByteLen(s: string)
    requires forall i :: 0 <= i < |s| ==> s[i] as int < 0x80
    ensures ByteLen(s) == |s|
  {
    if s != [] {
      AsciiByteLen(s[..|s| - 1]);
    }
  }
}
