/** Canonical source-language lists of a translation profile, from `translation.rs`. */
module Translation {
  import opened Prelude
  import opened Text

  const MAX_LANGUAGES: nat := 64

  // ---- comma-separated lists ----

  predicate HasComma(s: string) {
    ',' in s
  }

  /** The pieces between commas; at least one. */
  function Split(s: string): (pieces: seq<string>)
    ensures pieces != []
    ensures forall i :: 0 <= i < |pieces| ==> !HasComma(pieces[i])
  {
    if s == [] then [""]
    else
      var rest := Split(s[1..]);
      if s[0] == ',' then [""] + rest else [[s[0]] + rest[0]] + rest[1..]
  }

  function Join(pieces: seq<string>): string {
    if pieces == [] then []
    else if |pieces| == 1 then pieces[0]
    else pieces[0] + "," + Join(pieces[1..])
  }

  lemma {:induction false} JoinSplit(s: string)
    ensures Join(Split(s)) == s
  {
    if s != [] {
      var rest := Split(s[1..]);
      JoinSplit(s[1..]);
      if s[0] == ',' {
        assert ([""] + rest)[1..] == rest;
        assert Join([""] + rest) == "" + "," + Join(rest);
        assert s == "," + s[1..];
      } else {
        JoinPrepend(s[0], rest);
        assert s == [s[0]] + s[1..];
      }
    }
  }

  lemma JoinPrepend(c: char, pieces: seq<string>)
    requires pieces != []
    ensures Join([[c] + pieces[0]] + pieces[1..]) == [c] + Join(pieces)
  {
    var more := [[c] + pieces[0]] + pieces[1..];
    assert more[1..] == pieces[1..];
    if |pieces| > 1 {
      assert [c] + pieces[0] + "," + Join(pieces[1..]) == [c] + (pieces[0] + "," + Join(pieces[1..]));
    }
  }

  lemma {:induction false} SplitPiece(piece: string)
    requires !HasComma(piece)
    ensures Split(piece) == [piece]
  {
    if piece != [] {
      assert piece == [piece[0]] + piece[1..];
      SplitPiece(piece[1..]);
    }
  }

  lemma {:induction false} SplitAppend(piece: string, tail: string)
    requires !HasComma(piece)
    ensures Split(piece + "," + tail) == [piece] + Split(tail)
    decreases |piece|
  {
    var s := piece + "," + tail;
    if piece == [] {
      assert s[0] == ',' && s[1..] == tail;
    } else {
      assert s[1..] == piece[1..] + "," + tail;
      assert piece == [piece[0]] + piece[1..];
      SplitAppend(piece[1..], tail);
    }
  }

  /** A list is cut at its commas and nowhere else. */
  lemma CutAtComma(first: string, rest: string)
    requires forall i :: 0 <= i < |first| ==> first[i] != ','
    ensures Split(first + "," + rest) == [first] + Split(rest)
    ensures Split(first) == [first]
  {
    SplitAppend(first, rest);
    SplitPiece(first);
  }

  lemma {:induction false} SplitJoin(pieces: seq<string>)
    requires pieces != [] && forall i :: 0 <= i < |pieces| ==> !HasComma(pieces[i])
    ensures Split(Join(pieces)) == pieces
    decreases |pieces|
  {
    if |pieces| == 1 {
      SplitPiece(pieces[0]);
    } else {
      SplitJoin(pieces[1..]);
      SplitAppend(pieces[0], Join(pieces[1..]));
    }
  }

  // ---- validity ----

  predicate IsCode(code: string) {
    2 <= |code| <= 3 && forall i :: 0 <= i < |code| ==> 'a' <= code[i] <= 'z'
  }

  predicate StrictlySorted(codes: seq<string>) {
    forall i :: 0 <= i < |codes| - 1 ==> Less(codes[i], codes[i + 1])
  }

  predicate ValidCodes(codes: seq<string>) {
    && codes != [] && |codes| <= MAX_LANGUAGES && StrictlySorted(codes)
    && forall i :: 0 <= i < |codes| ==> IsCode(codes[i])
  }

  predicate LanguagesValid(value: string) {
    ValidCodes(Split(value))
  }

  /** Whether the profile's list declares this primary language subtag. */
  predicate Declares(languages: string, language: string) {
    language in Split(languages)
  }

  // ---- canonicalization ----

  function LowerChar(c: char): char {
    if 'A' <= c <= 'Z' then (c as int + 32) as char else c
  }

  function Lower(s: string): (r: string)
    ensures |r| == |s| && forall i :: 0 <= i < |s| ==> r[i] == LowerChar(s[i])
  {
    seq(|s|, i requires 0 <= i < |s| => LowerChar(s[i]))
  }

  function Clean(piece: string): string {
    Lower(Trim(piece))
  }

  /** The cleaned codes, with empty ones left out. */
  function Cleaned(pieces: seq<string>): seq<string> {
    if pieces == [] then []
    else
      var code := Clean(pieces[|pieces| - 1]);
      Cleaned(pieces[..|pieces| - 1]) + (if code == [] then [] else [code])
  }

  /** Equal neighbours collapsed to one. */
  function Dedup(codes: seq<string>): (r: seq<string>)
    ensures codes != [] ==> r != [] && r[|r| - 1] == codes[|codes| - 1]
    ensures forall x :: x in r <==> x in codes
  {
    if |codes| <= 1 then codes
    else
      var n := |codes| - 1;
      assert codes == codes[..n] + [codes[n]];
      var before := Dedup(codes[..n]);
      if codes[n - 1] == codes[n] then before else before + [codes[n]]
  }

  /** What `CanonicalLanguages` promises about its result. */
  ghost predicate IsCanonicalOf(value: string, r: Option<string>) {
    && (r.Some? <==> Accepted(CodesOf(value)))
    && (r.Some? ==> LanguagesValid(r.value) && forall x :: x in Split(r.value) <==> x in CodesOf(value))
  }

  method CanonicalLanguages(value: string) returns (r: Option<string>)
    ensures IsCanonicalOf(value, r)
  {
    hide Cleaned, CodesOf, Sort, Dedup, Join, Split, LanguagesValid, Accepted, SortedBy, StrictlySorted, HasComma;
    var codes := Cleaned(Split(value));
    CleanedAre(value);
    codes := Sort((code: string) => code, codes);
    SortKeeps(Cleaned(Split(value)), codes);
    DedupSorts(codes);
    codes := Dedup(codes);
    var joined := Join(codes);
    JoinedList(codes, CodesOf(value));
    if !LanguagesValid(joined) {
      return None;
    }
    return Some(joined);
  }

  /** The trimmed lowercase codes a list names. */
  ghost function CodesOf(value: string): set<string> {
    set piece | piece in Split(value) && Clean(piece) != [] :: Clean(piece)
  }

  /** What makes a set of codes a profile's languages. */
  ghost predicate Accepted(codes: set<string>) {
    codes != {} && |codes| <= MAX_LANGUAGES && forall code :: code in codes ==> IsCode(code)
  }

  /** The cleaned list holds exactly the codes the value names, all nonempty and free of commas. */
  lemma CleanedAre(value: string)
    ensures forall x :: x in Cleaned(Split(value)) <==> x in CodesOf(value)
    ensures forall x :: x in CodesOf(value) ==> x != [] && !HasComma(x)
  {
    var pieces := Split(value);
    forall x ensures x in Cleaned(pieces) <==> x in CodesOf(value) {
      CleanedIs(pieces, x);
      hide Clean, Split, Cleaned;
      if i :| 0 <= i < |pieces| && Clean(pieces[i]) == x {
        assert pieces[i] in pieces;
      }
      if x in CodesOf(value) {
        var piece :| piece in pieces && Clean(piece) == x;
        assert exists i :: 0 <= i < |pieces| && Clean(pieces[i]) == x;
      }
    }
    forall x | x in CodesOf(value) ensures x != [] && !HasComma(x) {
      var piece :| piece in pieces && Clean(piece) == x;
      CleanHasNoComma(piece);
    }
  }

  lemma CleanHasNoComma(piece: string)
    requires !HasComma(piece)
    ensures !HasComma(Clean(piece))
  {
    var kept := TrimStart(piece);
    assert forall i :: 0 <= i < |kept| ==> kept[i] in piece;
    assert forall i :: 0 <= i < |Trim(piece)| ==> Trim(piece)[i] in kept;
  }

  lemma {:induction false} CleanedIs(pieces: seq<string>, x: string)
    ensures x in Cleaned(pieces) <==> x != [] && exists i :: 0 <= i < |pieces| && Clean(pieces[i]) == x
  {
    hide Clean;
    if pieces != [] {
      var n := |pieces| - 1;
      var before := pieces[..n];
      CleanedIs(before, x);
      if i :| 0 <= i < n && Clean(before[i]) == x {
        assert Clean(pieces[i]) == x;
      }
      if i :| 0 <= i < n && Clean(pieces[i]) == x {
        assert Clean(before[i]) == x;
      }
    }
  }

  lemma SortKeeps(codes: seq<string>, sorted: seq<string>)
    requires multiset(codes) == multiset(sorted)
    ensures forall x :: x in sorted <==> x in codes
  {
    assert forall x :: x in sorted <==> x in multiset(sorted);
    assert forall x :: x in codes <==> x in multiset(codes);
  }

  lemma {:induction false} DedupSorts(codes: seq<string>)
    requires SortedBy((code: string) => code, codes)
    ensures StrictlySorted(Dedup(codes))
  {
    if |codes| > 1 {
      var n := |codes| - 1;
      var key := (code: string) => code;
      assert SortedBy(key, codes[..n]);
      DedupSorts(codes[..n]);
      assert !Less(key(codes[n]), key(codes[n - 1]));
      LessTotal(codes[n - 1], codes[n]);
      var before := Dedup(codes[..n]);
      assert before[|before| - 1] == codes[..n][n - 1];
    }
  }

  lemma {:induction false} StrictlyApart(codes: seq<string>, i: nat, k: nat)
    requires StrictlySorted(codes) && i < k < |codes|
    ensures Less(codes[i], codes[k])
    decreases k
  {
    if i < k - 1 {
      StrictlyApart(codes, i, k - 1);
      LessTransitive(codes[i], codes[k - 1], codes[k]);
    }
  }

  /** A strictly sorted list has as many elements as the set it lists. */
  lemma {:induction false} SizeOfList(codes: seq<string>, listed: set<string>)
    requires StrictlySorted(codes) && forall x :: x in listed <==> x in codes
    ensures |listed| == |codes|
    decreases |codes|
  {
    if codes == [] {
      assert listed == {};
    } else {
      var n := |codes| - 1;
      var last := codes[n];
      assert codes == codes[..n] + [last];
      forall i | 0 <= i < n ensures codes[i] != last {
        StrictlyApart(codes, i, n);
        LessIrreflexive(last);
      }
      SizeOfList(codes[..n], listed - {last});
    }
  }

  /** Joining a strictly sorted list gives a valid text exactly when the set is acceptable. */
  lemma JoinedList(codes: seq<string>, listed: set<string>)
    requires StrictlySorted(codes) && forall x :: x in listed <==> x in codes
    requires forall x :: x in codes ==> !HasComma(x)
    ensures LanguagesValid(Join(codes)) <==> Accepted(listed)
    ensures LanguagesValid(Join(codes)) ==> forall x :: x in Split(Join(codes)) <==> x in listed
  {
    SizeOfList(codes, listed);
    if codes == [] {
      assert Split(Join(codes)) == [""];
      assert !IsCode([""][0]);
      assert listed == {};
    } else {
      SplitJoin(codes);
      hide Split, Join, IsCode;
      assert codes[0] in listed;
      if Accepted(listed) {
        assert forall i :: 0 <= i < |codes| ==> IsCode(codes[i]);
      } else {
        assert listed != {};
        if forall i :: 0 <= i < |codes| ==> IsCode(codes[i]) {
          assert forall code :: code in listed ==> IsCode(code);
        }
      }
    }
  }

  // ---- what the canonical form is ----

  /** A strictly sorted list is determined by its elements. */
  lemma {:induction false} StrictListUnique(a: seq<string>, b: seq<string>)
    requires StrictlySorted(a) && StrictlySorted(b) && forall x :: x in a <==> x in b
    ensures a == b
    decreases |a|
  {
    hide Less;
    assert a != [] ==> a[0] in b;
    assert b != [] ==> b[0] in a;
    if a != [] && b != [] {
      var n, m := |a| - 1, |b| - 1;
      SameLargest(a, b);
      assert a == a[..n] + [a[n]] && b == b[..m] + [b[m]];
      SameRest(a[..n], b[..m], a[n]);
      StrictListUnique(a[..n], b[..m]);
    }
  }

  /** Lists with the same elements and the same last one agree on the rest. */
  lemma SameRest(a: seq<string>, b: seq<string>, last: string)
    requires StrictlySorted(a + [last]) && StrictlySorted(b + [last])
    requires forall x :: x in a + [last] <==> x in b + [last]
    ensures forall x :: x in a <==> x in b
  {
    hide Less, StrictlySorted;
    LastOnce(a, last);
    LastOnce(b, last);
    forall x ensures x in a <==> x in b {
      assert x in a + [last] <==> x in a || x == last;
      assert x in b + [last] <==> x in b || x == last;
    }
  }

  lemma LastOnce(a: seq<string>, last: string)
    requires StrictlySorted(a + [last])
    ensures last !in a
  {
    forall i | 0 <= i < |a| ensures a[i] != last {
      StrictlyApart(a + [last], i, |a|);
      LessIrreflexive(last);
    }
  }

  lemma SameLargest(a: seq<string>, b: seq<string>)
    requires StrictlySorted(a) && StrictlySorted(b) && a != [] && b != [] && forall x :: x in a <==> x in b
    ensures a[|a| - 1] == b[|b| - 1]
  {
    var x, y := a[|a| - 1], b[|b| - 1];
    assert x in b && y in a;
    var i :| 0 <= i < |a| && a[i] == y;
    var k :| 0 <= k < |b| && b[k] == x;
    if i < |a| - 1 && k < |b| - 1 {
      StrictlyApart(a, i, |a| - 1);
      StrictlyApart(b, k, |b| - 1);
      LessTransitive(x, y, x);
      LessIrreflexive(x);
    }
  }

  /** The result depends only on the set of codes the value names. */
  lemma CanonicalDependsOnCodes(a: string, b: string, ra: Option<string>, rb: Option<string>)
    requires CodesOf(a) == CodesOf(b) && IsCanonicalOf(a, ra) && IsCanonicalOf(b, rb)
    ensures ra == rb
  {
    hide IsCode, Split, Join;
    if ra.Some? {
      StrictListUnique(Split(ra.value), Split(rb.value));
      JoinSplit(ra.value);
      JoinSplit(rb.value);
    }
  }

  lemma CodeIsClean(code: string)
    requires IsCode(code)
    ensures Clean(code) == code && code != []
  {
    hide TrimStart, TrimEnd, Trim;
    LowerNothing(code);
    assert forall i :: 0 <= i < |code| ==> !IsWhitespace(code[i]);
    TrimNothing(code);
  }

  lemma LowerNothing(code: string)
    requires forall i :: 0 <= i < |code| ==> 'a' <= code[i] <= 'z'
    ensures Lower(code) == code
  {
    assert forall i :: 0 <= i < |code| ==> LowerChar(code[i]) == code[i];
  }

  lemma TrimNothing(s: string)
    requires forall i :: 0 <= i < |s| ==> !IsWhitespace(s[i])
    ensures Trim(s) == s
  {
    hide IsWhitespace;
    assert TrimStart(s) == s;
  }

  /** A valid list names exactly its own codes. */
  lemma ValidNamesItself(value: string)
    requires LanguagesValid(value)
    ensures forall x :: x in CodesOf(value) <==> x in Split(value)
    ensures Accepted(CodesOf(value))
  {
    var codes := Split(value);
    hide Clean, Split, IsCode;
    forall piece | piece in codes ensures Clean(piece) == piece && piece != [] {
      CodeIsClean(piece);
    }
    forall x ensures x in CodesOf(value) <==> x in codes {
      if x in CodesOf(value) {
        var piece :| piece in codes && Clean(piece) == x;
      }
    }
    SizeOfList(codes, CodesOf(value));
    assert codes[0] in CodesOf(value);
  }

  /** A list is valid exactly when it is its own canonical form; so canonicalizing twice changes nothing. */
  lemma ValidIffCanonical(value: string, r: Option<string>)
    requires IsCanonicalOf(value, r)
    ensures LanguagesValid(value) <==> r == Some(value)
  {
    hide Clean, Split, Join, IsCode;
    if LanguagesValid(value) {
      ValidNamesItself(value);
      StrictListUnique(Split(value), Split(r.value));
      JoinSplit(value);
      JoinSplit(r.value);
    }
  }

  lemma CanonicalTwice(value: string, once: string, twice: Option<string>)
    requires IsCanonicalOf(value, Some(once)) && IsCanonicalOf(once, twice)
    ensures twice == Some(once)
  {
    ValidIffCanonical(once, twice);
  }

  /** A profile with the canonical list declares exactly the trimmed lowercase codes of the value. */
  lemma DeclaresIsMembership(value: string, canonical: string, language: string)
    requires IsCanonicalOf(value, Some(canonical))
    ensures Declares(canonical, language) <==> language in CodesOf(value)
  {
  }

  // ---- codes, by the characters of a piece ----

  /** The letters of the code, in either case, stand at `n` with nothing but white space around them. */
  predicate SpellsCode(piece: string, code: string, n: nat) {
    && n + |code| <= |piece|
    && (forall i :: 0 <= i < n ==> IsWhitespace(piece[i]))
    && (forall i :: n + |code| <= i < |piece| ==> IsWhitespace(piece[i]))
    && (forall i :: 0 <= i < |code| ==>
          piece[n + i] == code[i] || ('A' <= piece[n + i] <= 'Z' && piece[n + i] as int + 32 == code[i] as int))
  }

  /** A piece names a code exactly when it spells it, whatever the case and the white space around it. */
  lemma NamesExactly(piece: string, code: string)
    requires 2 <= |code| <= 3 && forall i :: 0 <= i < |code| ==> 'a' <= code[i] <= 'z'
    ensures Clean(piece) == code <==> exists n :: SpellsCode(piece, code, n)
  {
    hide *;
    if Clean(piece) == code {
      CleanedSpells(piece, code);
    }
    if n :| SpellsCode(piece, code, n) {
      SpelledCleans(piece, code, n);
    }
  }

  lemma CleanedSpells(piece: string, code: string)
    requires Clean(piece) == code
    ensures exists n :: SpellsCode(piece, code, n)
  {
    var n, core := |piece| - |TrimStart(piece)|, TrimEnd(TrimStart(piece));
    TrimCore(piece, n, core);
    hide *;
    CoreSpells(piece, code, n, core);
  }

  lemma SpelledCleans(piece: string, code: string, k: nat)
    requires 2 <= |code| <= 3 && forall i :: 0 <= i < |code| ==> 'a' <= code[i] <= 'z'
    requires SpellsCode(piece, code, k)
    ensures Clean(piece) == code
  {
    var n, core := |piece| - |TrimStart(piece)|, TrimEnd(TrimStart(piece));
    TrimCore(piece, n, core);
    hide *;
    SpelledIsCore(piece, code, k, n, core);
    LowerIs(core, code);
  }

  lemma LowerIs(core: string, code: string)
    requires |core| == |code| && forall i :: 0 <= i < |code| ==> LowerChar(core[i]) == code[i]
    ensures Lower(core) == code
  {
    hide LowerChar;
  }

  lemma CoreSpells(piece: string, code: string, n: nat, core: string)
    requires n + |core| <= |piece| && core == piece[n..n + |core|] && Lower(core) == code
    requires forall i :: 0 <= i < n ==> IsWhitespace(piece[i])
    requires forall i :: n + |core| <= i < |piece| ==> IsWhitespace(piece[i])
    ensures SpellsCode(piece, code, n)
  {
    hide IsWhitespace;
    assert forall i :: 0 <= i < |code| ==> LowerChar(core[i]) == code[i] && core[i] == piece[n + i];
  }

  lemma TrimCore(piece: string, n: nat, core: string)
    requires n == |piece| - |TrimStart(piece)| && core == TrimEnd(TrimStart(piece))
    ensures n + |core| <= |piece| && core == piece[n..n + |core|] && Clean(piece) == Lower(core)
    ensures forall i :: 0 <= i < n ==> IsWhitespace(piece[i])
    ensures forall i :: n + |core| <= i < |piece| ==> IsWhitespace(piece[i])
    ensures core != [] ==> !IsWhitespace(core[0]) && !IsWhitespace(core[|core| - 1])
  {
    hide IsWhitespace, TrimStart, TrimEnd;
    var right := TrimStart(piece);
    assert right == piece[n..];
    assert forall i :: n + |core| <= i < |piece| ==> piece[i] == right[i - n];
  }

  /** What is left of a spelled code is the letters of the code. */
  lemma SpelledIsCore(piece: string, code: string, k: nat, n: nat, core: string)
    requires 2 <= |code| <= 3 && forall i :: 0 <= i < |code| ==> 'a' <= code[i] <= 'z'
    requires SpellsCode(piece, code, k)
    requires n + |core| <= |piece| && core == piece[n..n + |core|]
    requires forall i :: 0 <= i < n ==> IsWhitespace(piece[i])
    requires forall i :: n + |core| <= i < |piece| ==> IsWhitespace(piece[i])
    requires core != [] ==> !IsWhitespace(core[0]) && !IsWhitespace(core[|core| - 1])
    ensures n == k && |core| == |code| && forall i :: 0 <= i < |code| ==> LowerChar(core[i]) == code[i]
  {
    forall i | 0 <= i < |code| ensures !IsWhitespace(piece[k + i]) && LowerChar(piece[k + i]) == code[i] {
      LetterOfEitherCase(piece[k + i], code[i]);
    }
    var last := |code| - 1;
    assert piece[k + 0] == code[0] || piece[k + 0] as int + 32 == code[0] as int;
    LetterOfEitherCase(piece[k], code[0]);
    LetterOfEitherCase(piece[k + last], code[last]);
    hide IsWhitespace, SpellsCode, LowerChar;
    BlankApart(piece, k, |code|, n, |core|);
    assert core[0] == piece[n] && core[|core| - 1] == piece[n + |core| - 1];
    assert n == k by {
      SpelledBlanks(piece, code, k);
    }
    assert |core| == |code| by {
      SpelledBlanks(piece, code, k);
    }
    assert forall i :: 0 <= i < |code| ==> core[i] == piece[k + i];
  }

  lemma LetterOfEitherCase(c: char, letter: char)
    requires 'a' <= letter <= 'z' && (c == letter || ('A' <= c <= 'Z' && c as int + 32 == letter as int))
    ensures !IsWhitespace(c) && LowerChar(c) == letter
  {
  }

  lemma SpelledBlanks(piece: string, code: string, k: nat)
    requires SpellsCode(piece, code, k)
    ensures forall i :: 0 <= i < k || k + |code| <= i < |piece| ==> IsWhitespace(piece[i])
  {
  }

  /** A stretch that is blank around holds every character that is not. */
  lemma BlankApart(piece: string, k: nat, size: nat, n: nat, rest: nat)
    requires size >= 1 && k + size <= |piece| && n + rest <= |piece|
    requires !IsWhitespace(piece[k]) && !IsWhitespace(piece[k + (size - 1)])
    requires forall i :: 0 <= i < n ==> IsWhitespace(piece[i])
    requires forall i :: n + rest <= i < |piece| ==> IsWhitespace(piece[i])
    ensures n <= k && k + size <= n + rest
  {
    hide IsWhitespace;
  }

  /** There is a canonical list exactly for one to 64 codes of two or three lowercase letters. */
  lemma AcceptedExactly(value: string, r: Option<string>)
    requires IsCanonicalOf(value, r)
    ensures r.Some? <==>
              && 1 <= |CodesOf(value)| <= 64
              && forall code :: code in CodesOf(value) ==>
                   2 <= |code| <= 3 && forall i :: 0 <= i < |code| ==> 'a' <= code[i] <= 'z'
  {
    assert CodesOf(value) != {} <==> |CodesOf(value)| >= 1;
  }
}
