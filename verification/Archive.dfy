/** The continuation token of an archive search, from `archive.rs`. */
module Archive {
  import opened Prelude
  import opened Decimal

  const MAX_KEY_BYTES: nat := 128

  predicate IsKeyChar(c: char) {
    IsDigit(c) || 'a' <= c <= 'z' || 'A' <= c <= 'Z' || c in {'-', '_', ':', '.'}
  }

  /** Stored identifiers: short, and without a slash among other things. */
  predicate IsKey(value: string) {
    value != [] && ByteLen(value) <= MAX_KEY_BYTES && forall i :: 0 <= i < |value| ==> IsKeyChar(value[i])
  }

  datatype ArchiveCursor = ArchiveCursor(transcriptId: string, transcriptRevision: I64, pass: U32, ordinal: U32) {
    predicate Valid() {
      IsKey(transcriptId) && 1 <= transcriptRevision <= 65 && pass <= 64 && ordinal <= 256
    }

    /** The text form `ID/REVISION/PASS/ORDINAL`. */
    function Token(): string {
      transcriptId + "/" + PrintInt(transcriptRevision) + "/" + Print(pass) + "/" + Print(ordinal)
    }
  }

  function PrintInt(n: int): string {
    if n < 0 then "-" + Print(-n) else Print(n)
  }

  /** The position of the last slash. */
  function LastSlash(s: string): (r: Option<nat>)
    ensures r.None? ==> forall i :: 0 <= i < |s| ==> s[i] != '/'
    ensures r.Some? ==> r.value < |s| && s[r.value] == '/' && forall i :: r.value < i < |s| ==> s[i] != '/'
  {
    if s == [] then None
    else if s[|s| - 1] == '/' then Some(|s| - 1)
    else LastSlash(s[..|s| - 1])
  }

  /** Both sides of the last slash. */
  function SplitLast(s: string): (r: Option<(string, string)>)
    ensures r.Some? ==> s == r.value.0 + "/" + r.value.1 && NoSlash(r.value.1)
    ensures r.None? ==> NoSlash(s)
  {
    match LastSlash(s)
    case None => None
    case Some(i) =>
      assert s == s[..i] + "/" + s[i + 1..];
      Some((s[..i], s[i + 1..]))
  }

  predicate NoSlash(s: string) {
    forall i :: 0 <= i < |s| ==> s[i] != '/'
  }

  lemma SplitLastOf(left: string, right: string)
    requires NoSlash(right)
    ensures SplitLast(left + "/" + right) == Some((left, right))
  {
    var s := left + "/" + right;
    assert s[|left|] == '/';
    assert forall i :: |left| < i < |s| ==> s[i] == right[i - |left| - 1];
    assert s[..|left|] == left && s[|left| + 1..] == right;
  }

  /** One to three digits. */
  predicate IsNumber(text: string) {
    1 <= |text| <= 3 && AllDigits(text)
  }

  lemma DigitsByteLen(text: string)
    ensures AllDigits(text) ==> ByteLen(text) == |text|
  {
    if AllDigits(text) {
      AsciiByteLen(text);
    }
  }

  /** A number's value; three digits fit every target type. */
  function ReadNumber(text: string): (r: Option<nat>)
    ensures r.Some? <==> IsNumber(text)
    ensures r.Some? ==> r.value == Num(text) <= 999
  {
    DigitsByteLen(text);
    if text == [] || ByteLen(text) > 3 || !AllDigits(text) then None
    else
      NumBound(text);
      Pow10Monotone(|text|, 3);
      assert Pow10(3) == 1000;
      Some(Num(text))
  }

  /** The token writes the cursor, with any leading zeros in its three numbers. */
  ghost predicate IsTokenOf(token: string, c: ArchiveCursor) {
    exists revision, pass, ordinal :: Writes(token, c, revision, pass, ordinal)
  }

  ghost predicate Writes(token: string, c: ArchiveCursor, revision: string, pass: string, ordinal: string) {
    && IsNumber(revision) && IsNumber(pass) && IsNumber(ordinal)
    && token == c.transcriptId + "/" + revision + "/" + pass + "/" + ordinal
    && c.transcriptRevision == Num(revision) && c.pass == Num(pass) && c.ordinal == Num(ordinal)
  }

  /** What a parse answers: the valid cursor the token writes, or nothing when there is none. */
  ghost predicate IsParse(token: string, r: Option<ArchiveCursor>) {
    match r
    case Some(c) => c.Valid() && IsTokenOf(token, c)
    case None => forall c: ArchiveCursor :: !(c.Valid() && IsTokenOf(token, c))
  }

  /** Pulls the parts from the right; the fourth is all that is left. */
  method Parse(token: string) returns (r: Option<ArchiveCursor>)
    ensures IsParse(token, r)
  {
    hide LastSlash, SplitLast, Num, ByteLen, IsKey;
    PartsOfWritten(token);
    var rest := token;
    var parts: seq<string> := [];
    for k := 0 to 3
      invariant |parts| == k
      invariant Rights(token, k) == Some((rest, parts))
    {
      var next := SplitLast(rest);
      if next.None? {
        RightsStop(token, k);
        return None;
      }
      parts := parts + [next.value.1];
      rest := next.value.0;
    }
    var revision, pass, ordinal := ReadNumber(parts[2]), ReadNumber(parts[1]), ReadNumber(parts[0]);
    if revision.None? || pass.None? || ordinal.None? {
      return None;
    }
    var cursor := ArchiveCursor(rest, revision.value, pass.value, ordinal.value);
    if !cursor.Valid() {
      return None;
    }
    RightsJoin(token, rest, parts);
    assert Writes(token, cursor, parts[2], parts[1], parts[0]);
    return Some(cursor);
  }

  /** What is left, and the parts, after pulling `k` parts from the right. */
  ghost function Rights(token: string, k: nat): Option<(string, seq<string>)> {
    if k == 0 then Some((token, []))
    else
      match Rights(token, k - 1)
      case None => None
      case Some(p) =>
        match SplitLast(p.0)
        case None => None
        case Some(q) => Some((q.0, p.1 + [q.1]))
  }

  lemma RightsStop(token: string, k: nat)
    requires k < 3 && Rights(token, k).Some? && SplitLast(Rights(token, k).value.0).None?
    ensures Rights(token, 3) == None
  {
    hide SplitLast;
    assert Rights(token, k + 1) == None;
    assert k + 2 <= 3 ==> Rights(token, k + 2) == None;
    assert k + 3 <= 3 ==> Rights(token, k + 3) == None;
  }

  lemma RightsJoin(token: string, rest: string, parts: seq<string>)
    requires Rights(token, 3) == Some((rest, parts))
    ensures |parts| == 3 && token == rest + "/" + parts[2] + "/" + parts[1] + "/" + parts[0]
  {
    hide LastSlash, SplitLast;
    var one, two := Rights(token, 1).value, Rights(token, 2).value;
    assert Rights(token, 0) == Some((token, []));
    assert token == one.0 + "/" + one.1[0];
    assert one.0 == two.0 + "/" + two.1[1];
    assert two.0 == rest + "/" + parts[2];
    assert two.1 == one.1 + [two.1[1]] && parts == two.1 + [parts[2]];
  }

  /** Whatever cursor a token writes, its parts are the ones pulled from the right. */
  lemma PartsOfWritten(token: string)
    ensures forall c: ArchiveCursor, revision, pass, ordinal :: Writes(token, c, revision, pass, ordinal) ==>
              Rights(token, 3) == Some((c.transcriptId, [ordinal, pass, revision]))
  {
    forall c: ArchiveCursor, revision, pass, ordinal | Writes(token, c, revision, pass, ordinal)
      ensures Rights(token, 3) == Some((c.transcriptId, [ordinal, pass, revision]))
    {
      RightsOfJoined(token, c.transcriptId, revision, pass, ordinal);
    }
  }

  lemma RightsOfJoined(token: string, id: string, revision: string, pass: string, ordinal: string)
    requires token == id + "/" + revision + "/" + pass + "/" + ordinal
    requires NoSlash(revision) && NoSlash(pass) && NoSlash(ordinal)
    ensures Rights(token, 3) == Some((id, [ordinal, pass, revision]))
  {
    SplitLastOf(id + "/" + revision + "/" + pass, ordinal);
    SplitLastOf(id + "/" + revision, pass);
    SplitLastOf(id, revision);
    hide SplitLast, NoSlash;
    assert Rights(token, 0) == Some((token, []));
    assert [] + [ordinal] == [ordinal] && [ordinal] + [pass] + [revision] == [ordinal, pass, revision];
    assert Rights(token, 1) == Some((id + "/" + revision + "/" + pass, [ordinal]));
    assert Rights(token, 2) == Some((id + "/" + revision, [ordinal] + [pass]));
  }

  // ---- round trips ----

  lemma PrintIsNumber(n: nat)
    requires n <= 999
    ensures IsNumber(Print(n)) && Num(Print(n)) == n
  {
    NumPrint(n);
    assert Pow10(3) == 1000;
    PrintLength(n, 3);
  }

  lemma TokenWrites(c: ArchiveCursor)
    requires c.Valid()
    ensures IsTokenOf(c.Token(), c)
  {
    PrintIsNumber(c.transcriptRevision);
    PrintIsNumber(c.pass);
    PrintIsNumber(c.ordinal);
    hide Print, Num;
    assert Writes(c.Token(), c, Print(c.transcriptRevision), Print(c.pass), Print(c.ordinal));
  }

  /** A token writes at most one cursor: it is split from the right, so the ID may be anything. */
  lemma TokenUnique(token: string, c: ArchiveCursor, d: ArchiveCursor)
    requires IsTokenOf(token, c) && IsTokenOf(token, d)
    ensures c == d
  {
    var r1, p1, o1 :| Writes(token, c, r1, p1, o1);
    var r2, p2, o2 :| Writes(token, d, r2, p2, o2);
    PartsOfWritten(token);
    hide Num;
    assert [o1, p1, r1] == [o2, p2, r2];
    assert o1 == [o1, p1, r1][0] && p1 == [o1, p1, r1][1] && r1 == [o1, p1, r1][2];
    assert o2 == [o2, p2, r2][0] && p2 == [o2, p2, r2][1] && r2 == [o2, p2, r2][2];
  }

  /** Parsing the token of a valid cursor gives the cursor back. */
  lemma TokenRoundTrip(c: ArchiveCursor, r: Option<ArchiveCursor>)
    requires c.Valid() && IsParse(c.Token(), r)
    ensures r == Some(c)
  {
    TokenWrites(c);
    if r.Some? {
      TokenUnique(c.Token(), c, r.value);
    }
  }

  /** A number without its leading zeros, keeping one digit. */
  function Unpadded(text: string): string {
    if TrimStartZeros(text) == [] then "0" else TrimStartZeros(text)
  }

  lemma KeptCounts(text: string, kept: string)
    requires AllDigits(text) && kept == TrimStartZeros(text)
    ensures AllDigits(kept) && Num(text) == Num(kept)
    ensures kept != [] ==> IsCanonical(kept)
    ensures kept == [] ==> Print(Num(text)) == "0"
  {
    TailDigits(text, |text| - |kept|);
    KeptFirst(text, kept);
    hide *;
    TrimStartSplits(text);
    NumLeadingZeros(|text| - |kept|, kept);
    EmptyIsZero();
    PrintZero();
  }

  lemma TailDigits(text: string, n: nat)
    requires AllDigits(text) && n <= |text|
    ensures AllDigits(text[n..])
  {
  }

  lemma KeptFirst(text: string, kept: string)
    requires kept == TrimStartZeros(text) && AllDigits(kept)
    ensures kept == text[|text| - |kept|..] && (kept != [] ==> IsCanonical(kept))
  {
    hide TrimStartZeros;
  }

  lemma PrintZero()
    ensures Print(0) == "0"
  {
  }

  lemma UnpaddedIsPrint(text: string)
    requires AllDigits(text) && text != []
    ensures Print(Num(text)) == Unpadded(text)
  {
    KeptCounts(text, TrimStartZeros(text));
    hide Num, Print, AllDigits, TrimStartZeros;
    if TrimStartZeros(text) != [] {
      PrintNum(TrimStartZeros(text));
    }
  }

  /** An accepted token differs from the token of its cursor by leading zeros only. */
  lemma AcceptedUpToZeros(token: string, c: ArchiveCursor)
    requires IsParse(token, Some(c))
    ensures exists revision, pass, ordinal ::
              && token == c.transcriptId + "/" + revision + "/" + pass + "/" + ordinal
              && c.Token() == c.transcriptId + "/" + Unpadded(revision) + "/" + Unpadded(pass) + "/" + Unpadded(ordinal)
  {
    var revision, pass, ordinal :| Writes(token, c, revision, pass, ordinal);
    UnpaddedIsPrint(revision);
    UnpaddedIsPrint(pass);
    UnpaddedIsPrint(ordinal);
  }

  /** A number with a zero in front of other digits. */
  predicate HasPadding(text: string) {
    |text| > 1 && text[0] == '0'
  }

  /** One of the three numbers behind the last three slashes has padding. */
  ghost predicate PaddedToken(token: string) {
    var parts := Rights(token, 3);
    parts.Some? && exists i :: 0 <= i < |parts.value.1| && HasPadding(parts.value.1[i])
  }

  /** An accepted token is the one its cursor prints exactly when none of its numbers has padding. */
  lemma PrintedIffUnpadded(token: string, c: ArchiveCursor)
    requires IsParse(token, Some(c))
    ensures token == c.Token() <==> !PaddedToken(token)
  {
    var revision, pass, ordinal :| Writes(token, c, revision, pass, ordinal);
    PartsOfWritten(token);
    PaddingShows(revision);
    PaddingShows(pass);
    PaddingShows(ordinal);
    hide Print, Num, Rights;
    var parts := [ordinal, pass, revision];
    assert parts[0] == ordinal && parts[1] == pass && parts[2] == revision;
    if token == c.Token() {
      TokenWrites(c);
      PrintedParts(token, c);
      var printed := [Print(c.ordinal), Print(c.pass), Print(c.transcriptRevision)];
      assert printed[0] == ordinal && printed[1] == pass && printed[2] == revision;
    }
  }

  lemma PrintedParts(token: string, c: ArchiveCursor)
    requires c.Valid() && token == c.Token()
    ensures Rights(token, 3) == Some((c.transcriptId, [Print(c.ordinal), Print(c.pass), Print(c.transcriptRevision)]))
  {
    PrintIsNumber(c.transcriptRevision);
    PrintIsNumber(c.pass);
    PrintIsNumber(c.ordinal);
    hide Print, Num, Rights;
    RightsOfJoined(token, c.transcriptId, Print(c.transcriptRevision), Print(c.pass), Print(c.ordinal));
  }

  lemma PaddingShows(text: string)
    requires IsNumber(text)
    ensures HasPadding(text) <==> Print(Num(text)) != text
  {
    if !HasPadding(text) {
      PrintNum(text);
    }
  }

  /** A padded token is accepted for a cursor that prints another one. */
  lemma PaddedTokenAccepted()
    ensures var c := ArchiveCursor("a", 1, 0, 0); IsParse("a/01/0/0", Some(c)) && c.Token() != "a/01/0/0"
  {
    var c := ArchiveCursor("a", 1, 0, 0);
    SmallNumbers();
    hide *;
    PaddedWrites(c, "01", "0", "a/01/0/0");
    PrintedIffUnpadded("a/01/0/0", c);
  }

  lemma SmallNumbers()
    ensures Num("0") == 0 && Num("01") == 1 && ArchiveCursor("a", 1, 0, 0).Valid()
    ensures IsNumber("0") && IsNumber("01") && HasPadding("01")
    ensures "a" + "/" + "01" + "/" + "0" + "/" + "0" == "a/01/0/0"
  {
    assert "0"[..0] == "" && "01"[..1] == "0";
  }

  /** A padded revision writes the cursor like any other. */
  lemma PaddedWrites(c: ArchiveCursor, revision: string, zero: string, token: string)
    requires c.Valid() && IsNumber(revision) && IsNumber(zero) && HasPadding(revision)
    requires c.transcriptRevision == Num(revision) && c.pass == c.ordinal == Num(zero)
    requires token == c.transcriptId + "/" + revision + "/" + zero + "/" + zero
    ensures IsParse(token, Some(c)) && PaddedToken(token)
  {
    hide Num, Rights;
    assert Writes(token, c, revision, zero, zero);
    PartsOfWritten(token);
    assert [zero, zero, revision][2] == revision;
  }

  // ---- the bounds of a cursor ----

  /** Short, and of letters, digits and four punctuation marks only. */
  predicate IsStoredId(id: string) {
    1 <= |id| <= 128
    && forall i :: 0 <= i < |id| ==>
         '0' <= id[i] <= '9' || 'a' <= id[i] <= 'z' || 'A' <= id[i] <= 'Z' || id[i] in "-_:."
  }

  lemma KeysAreStoredIds(id: string)
    ensures IsKey(id) <==> IsStoredId(id)
  {
    if forall i :: 0 <= i < |id| ==> IsKeyChar(id[i]) {
      AsciiByteLen(id);
    }
  }

  lemma PlainNumber(n: nat)
    ensures AllDigits(Print(n)) && NoSlash(Print(n)) && Num(Print(n)) == n
  {
    NumPrint(n);
  }

  /** `ID/REVISION/PASS/ORDINAL` is a cursor exactly within the bounds of its four parts, and then of those parts. */
  lemma ParsesExactly(id: string, revision: nat, pass: nat, ordinal: nat, r: Option<ArchiveCursor>)
    requires IsParse(id + "/" + Print(revision) + "/" + Print(pass) + "/" + Print(ordinal), r)
    ensures r.Some? <==> IsStoredId(id) && 1 <= revision <= 65 && pass <= 64 && ordinal <= 256
    ensures r.Some? ==> r.value.transcriptId == id && r.value.transcriptRevision == revision
    ensures r.Some? ==> r.value.pass == pass && r.value.ordinal == ordinal
  {
    var token := id + "/" + Print(revision) + "/" + Print(pass) + "/" + Print(ordinal);
    KeysAreStoredIds(id);
    PlainNumber(revision);
    PlainNumber(pass);
    PlainNumber(ordinal);
    hide Print, Num, Rights, NoSlash, AllDigits, IsKey, IsStoredId;
    RightsOfJoined(token, id, Print(revision), Print(pass), Print(ordinal));
    if IsStoredId(id) && 1 <= revision <= 65 && pass <= 64 && ordinal <= 256 {
      TokenRoundTrip(ArchiveCursor(id, revision, pass, ordinal), r);
    }
    if r.Some? {
      WrittenParts(token, r.value, id, Print(revision), Print(pass), Print(ordinal));
    }
  }

  /** What a cursor is written with is what stands between the slashes. */
  lemma WrittenParts(token: string, c: ArchiveCursor, id: string, revision: string, pass: string, ordinal: string)
    requires IsTokenOf(token, c) && Rights(token, 3) == Some((id, [ordinal, pass, revision]))
    ensures c.transcriptId == id && AllDigits(revision) && AllDigits(pass) && AllDigits(ordinal)
    ensures c.transcriptRevision == Num(revision) && c.pass == Num(pass) && c.ordinal == Num(ordinal)
  {
    var r, p, o :| Writes(token, c, r, p, o);
    PartsOfWritten(token);
    hide Num, Rights;
    var written := [o, p, r];
    assert written[0] == ordinal && written[1] == pass && written[2] == revision;
  }
}
