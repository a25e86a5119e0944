/** Line wrapping of the doctor report, from `doctor_view.rs`. Positions count characters. */
module DoctorView {
  import opened Prelude
  import opened Text

  const WIDTH: nat := 100

  /** The room a lead leaves on its line; never less than one character. */
  function Room(lead: string): nat {
    Max(Max(WIDTH - |lead|, 0), 1)
  }

  /** The last space among the first `n` characters. */
  function LastSpace(s: string, n: nat): (r: Option<nat>)
    requires n <= |s|
    ensures r.None? ==> forall i :: 0 <= i < n ==> s[i] != ' '
    ensures r.Some? ==> r.value < n && s[r.value] == ' ' && forall i :: r.value < i < n ==> s[i] != ' '
  {
    if n == 0 then None else if s[n - 1] == ' ' then Some(n - 1) else LastSpace(s, n - 1)
  }

  /** Where a rest that does not fit is split: at the last space in the room, or where the room ends. */
  function SplitAt(rest: string, room: nat): (split: nat)
    requires 1 <= room < |rest|
    ensures 1 <= split <= room
  {
    var space := LastSpace(rest, room);
    if space.Some? && space.value > 0 then space.value else room
  }

  /** The part of the text one line shows; all but a last line that fits lose trailing white space. */
  datatype Part = Part(start: nat, end: nat, room: nat, fits: bool)

  /** Where the part after `at` begins: behind the split and the white space there. */
  function NextAt(text: string, at: nat, room: nat): (next: nat)
    requires at <= |text| && 1 <= room < |text| - at
    ensures at + SplitAt(text[at..], room) <= next <= |text|
    ensures next < |text| ==> !IsWhitespace(text[next])
    ensures forall i :: at + SplitAt(text[at..], room) <= i < next ==> IsWhitespace(text[i])
  {
    var split := SplitAt(text[at..], room);
    var tail := text[at..][split..];
    var next := |text| - |TrimStart(tail)|;
    assert forall i :: 0 <= i < |tail| ==> tail[i] == text[at + split + i];
    next
  }

  /** The parts from position `at` on. */
  function Parts(text: string, at: nat, room: nat, laterRoom: nat): (parts: seq<Part>)
    requires at <= |text| && room >= 1 && laterRoom >= 1
    ensures parts != []
    decreases |text| - at
  {
    if |text| - at <= room then [Part(at, |text|, room, true)]
    else
      var part := Part(at, at + SplitAt(text[at..], room), room, false);
      var next := NextAt(text, at, room);
      [part] + (if next == |text| then [] else Parts(text, next, laterRoom, laterRoom))
  }

  function Body(text: string, part: Part): string
    requires part.start <= part.end <= |text|
  {
    if part.fits then text[part.start..part.end] else TrimEnd(text[part.start..part.end])
  }

  /** The parts lie in the text, in order, and only white space is left between and behind them. */
  ghost predicate Covers(text: string, parts: seq<Part>, at: nat)
    decreases |parts|
  {
    && at <= |text|
    && (forall i :: at <= i < (if parts == [] then |text| else Min(parts[0].start, |text|)) ==> IsWhitespace(text[i]))
    && (parts != [] ==>
          && at <= parts[0].start <= parts[0].end <= |text|
          && Covers(text, parts[1..], parts[0].end))
  }

  lemma PartsStep(text: string, at: nat, room: nat, laterRoom: nat)
    requires at <= |text| && 1 <= room < |text| - at && laterRoom >= 1
    ensures var next := NextAt(text, at, room);
            var parts := Parts(text, at, room, laterRoom);
            && parts[0] == Part(at, at + SplitAt(text[at..], room), room, false)
            && (next == |text| ==> parts[1..] == [])
            && (next < |text| ==> parts[1..] == Parts(text, next, laterRoom, laterRoom))
  {
    hide NextAt, SplitAt, TrimStart;
  }

  lemma {:induction false} PartsCover(text: string, at: nat, room: nat, laterRoom: nat)
    requires at <= |text| && room >= 1 && laterRoom >= 1
    ensures Covers(text, Parts(text, at, room, laterRoom), at)
    ensures Parts(text, at, room, laterRoom)[0].start == at
    decreases |text| - at
  {
    var parts := Parts(text, at, room, laterRoom);
    if |text| - at <= room {
      assert parts == [Part(at, |text|, room, true)];
      assert parts[1..] == [];
    } else {
      PartsStep(text, at, room, laterRoom);
      var next := NextAt(text, at, room);
      hide Parts, NextAt, SplitAt;
      if next < |text| {
        PartsCover(text, next, laterRoom, laterRoom);
      }
      CoversFrom(text, parts[1..], parts[0].end, next);
    }
  }

  /** A covering may start earlier when only white space is in front of it. */
  lemma CoversFrom(text: string, parts: seq<Part>, at: nat, next: nat)
    requires at <= next <= |text| && forall i :: at <= i < next ==> IsWhitespace(text[i])
    requires if next == |text| then parts == [] else parts != [] && Covers(text, parts, next) && parts[0].start == next
    ensures Covers(text, parts, at)
  {
  }

  /** The parts lie in the text. */
  ghost predicate InText(text: string, parts: seq<Part>) {
    forall i :: 0 <= i < |parts| ==> parts[i].start <= parts[i].end <= |text|
  }

  /** The lines of the parts: the first behind its own lead, the others behind the continuation. */
  function Lines(text: string, parts: seq<Part>, lead: string, continuation: string): (lines: seq<string>)
    requires InText(text, parts)
    ensures |lines| == |parts|
    ensures forall i :: 0 <= i < |lines| ==> lines[i] == (if i == 0 then lead else continuation) + Body(text, parts[i])
  {
    seq(|parts|, i requires 0 <= i < |parts| => (if i == 0 then lead else continuation) + Body(text, parts[i]))
  }

  lemma {:induction false} CoversBounds(text: string, parts: seq<Part>, at: nat)
    requires Covers(text, parts, at)
    ensures forall i :: 0 <= i < |parts| ==> at <= parts[i].start <= parts[i].end <= |text|
    decreases |parts|
  {
    if parts != [] {
      CoversBounds(text, parts[1..], parts[0].end);
      assert forall i :: 1 <= i < |parts| ==> parts[i] == parts[1..][i - 1];
    }
  }

  /** The wrapped form of what is left of a text. */
  function Wrapped(rest: string, lead: string, continuation: string): seq<string>
    decreases |rest|
  {
    var room := Room(lead);
    if |rest| <= room then [lead + rest]
    else
      var split := SplitAt(rest, room);
      var trimmed := TrimStart(rest[split..]);
      [lead + TrimEnd(rest[..split])] + (if trimmed == [] then [] else Wrapped(trimmed, continuation, continuation))
  }

  lemma WrapOnce(rest: string, lead: string, continuation: string)
    requires Room(lead) < |rest|
    ensures var split := SplitAt(rest, Room(lead));
            var trimmed := TrimStart(rest[split..]);
            Wrapped(rest, lead, continuation)
            == [lead + TrimEnd(rest[..split])]
               + (if trimmed == [] then [] else Wrapped(trimmed, continuation, continuation))
  {
    hide SplitAt, TrimStart, TrimEnd;
  }

  lemma WrapLast(rest: string, lead: string, continuation: string)
    requires |rest| <= Room(lead)
    ensures Wrapped(rest, lead, continuation) == [lead + rest]
  {
  }

  lemma PushOn(out: seq<string>, line: string, more: seq<string>)
    ensures out + ([line] + more) == out + [line] + more
    ensures out + [line] + [] == out + [line]
  {
  }

  /** Scans the room once, remembering its end and the last space seen. */
  method FindSplit(rest: string, room: nat) returns (split: nat)
    requires 1 <= room < |rest|
    ensures split == SplitAt(rest, room)
  {
    var end := 0;
    var lastSpace: Option<nat> := None;
    var seen := 0;
    while seen < room
      invariant 0 <= seen == end <= room < |rest|
      invariant lastSpace == LastSpace(rest, seen)
    {
      end := seen + 1;
      if rest[seen] == ' ' {
        lastSpace := Some(seen);
      }
      seen := seen + 1;
    }
    split := if lastSpace.Some? && lastSpace.value > 0 then lastSpace.value else end;
  }

  method PushWrapped(out: seq<string>, prefix: string, continuation: string, text: string)
    returns (pushed: seq<string>)
    ensures pushed == out + Wrapped(text, prefix, continuation)
  {
    hide *;
    pushed := out;
    var rest := text;
    var first := true;
    while true
      invariant out + Wrapped(text, prefix, continuation)
             == pushed + Wrapped(rest, if first then prefix else continuation, continuation)
      decreases |rest|
    {
      var lead := if first then prefix else continuation;
      first := false;
      var room := Room(lead);
      if |rest| <= room {
        WrapLast(rest, lead, continuation);
        pushed := pushed + [lead + rest];
        break;
      }
      WrapOnce(rest, lead, continuation);
      var split := FindSplit(rest, room);
      assert split != 0;
      var head, tail := rest[..split], rest[split..];
      var trimmed := TrimStart(tail);
      assert trimmed != rest;
      PushOn(pushed, lead + TrimEnd(head), if trimmed == [] then [] else Wrapped(trimmed, continuation, continuation));
      pushed := pushed + [lead + TrimEnd(head)];
      if trimmed == [] {
        break;
      }
      rest := trimmed;
    }
  }

  /** Every pushed line is its lead and the body of its part of the text. */
  lemma {:induction false} WrappedIsLines(text: string, at: nat, lead: string, continuation: string)
    requires at <= |text|
    ensures var parts := Parts(text, at, Room(lead), Room(continuation));
            && InText(text, parts)
            && Wrapped(text[at..], lead, continuation) == Lines(text, parts, lead, continuation)
    decreases |text| - at
  {
    var room := Room(lead);
    PartsInText(text, at, room, Room(continuation));
    if |text| - at <= room {
      LastLine(text, at, lead, continuation);
    } else {
      var next := NextAt(text, at, room);
      assert next > at;
      hide *;
      if next < |text| {
        WrappedIsLines(text, next, continuation, continuation);
      }
      MoreLines(text, at, next, lead, continuation);
    }
  }

  lemma PartsInText(text: string, at: nat, room: nat, laterRoom: nat)
    requires at <= |text| && room >= 1 && laterRoom >= 1
    ensures InText(text, Parts(text, at, room, laterRoom))
  {
    PartsCover(text, at, room, laterRoom);
    CoversBounds(text, Parts(text, at, room, laterRoom), at);
  }

  lemma LastLine(text: string, at: nat, lead: string, continuation: string)
    requires at <= |text| && |text| - at <= Room(lead)
    ensures var parts := Parts(text, at, Room(lead), Room(continuation));
            && InText(text, parts)
            && Wrapped(text[at..], lead, continuation) == Lines(text, parts, lead, continuation)
  {
    var parts := Parts(text, at, Room(lead), Room(continuation));
    assert parts == [Part(at, |text|, Room(lead), true)];
    assert parts[1..] == [];
    assert text[at..|text|] == text[at..];
  }

  lemma MoreLines(text: string, at: nat, next: nat, lead: string, continuation: string)
    requires at <= |text| && Room(lead) < |text| - at && next == NextAt(text, at, Room(lead))
    requires InText(text, Parts(text, at, Room(lead), Room(continuation)))
    requires next < |text| ==>
               var parts := Parts(text, next, Room(continuation), Room(continuation));
               && InText(text, parts)
               && Wrapped(text[next..], continuation, continuation) == Lines(text, parts, continuation, continuation)
    ensures Wrapped(text[at..], lead, continuation)
         == Lines(text, Parts(text, at, Room(lead), Room(continuation)), lead, continuation)
  {
    hide Parts, Wrapped, NextAt, SplitAt, Lines, TrimEnd, TrimStart, InText, Body;
    PartsStep(text, at, Room(lead), Room(continuation));
    WrapOnce(text[at..], lead, continuation);
    TailTrim(text, at, Room(lead));
    HeadOf(text, at, SplitAt(text[at..], Room(lead)));
    LinesStep(text, Parts(text, at, Room(lead), Room(continuation)), lead, continuation);
  }

  lemma HeadOf(text: string, at: nat, split: nat)
    requires at + split <= |text|
    ensures text[at..][..split] == text[at..at + split]
  {
  }

  lemma TailTrim(text: string, at: nat, room: nat)
    requires at <= |text| && 1 <= room < |text| - at
    ensures TrimStart(text[at..][SplitAt(text[at..], room)..]) == text[NextAt(text, at, room)..]
  {
    hide SplitAt, TrimStart;
    var tail := text[at..][SplitAt(text[at..], room)..];
    assert tail == text[at + SplitAt(text[at..], room)..];
  }

  lemma LinesStep(text: string, parts: seq<Part>, lead: string, continuation: string)
    requires InText(text, parts)
    requires parts != [] && !parts[0].fits
    ensures InText(text, parts[1..])
    ensures Lines(text, parts, lead, continuation)
         == [lead + TrimEnd(text[parts[0].start..parts[0].end])]
            + (if parts[1..] == [] then [] else Lines(text, parts[1..], continuation, continuation))
  {
  }

  // ---- width ----

  /** No line is wider than the page, or one character more than its lead when the lead fills the page. */
  lemma {:induction false} WidthIsKept(text: string, lead: string, continuation: string, i: nat)
    requires i < |Wrapped(text, lead, continuation)|
    ensures |Wrapped(text, lead, continuation)[i]| <= Max(WIDTH, |if i == 0 then lead else continuation| + 1)
    decreases |text|
  {
    hide SplitAt, TrimStart, TrimEnd, Wrapped;
    var room := Room(lead);
    if |text| <= room {
      WrapLast(text, lead, continuation);
    } else {
      WrapOnce(text, lead, continuation);
      var trimmed := TrimStart(text[SplitAt(text, room)..]);
      if i > 0 {
        WidthIsKept(trimmed, continuation, continuation, i - 1);
      }
    }
  }

  /** A first line with no room for more than one character that shows none: no text, or white space and more. */
  predicate ShowsNothing(text: string, i: nat) {
    i == 0 && (text == "" || (|text| > 1 && IsWhitespace(text[0])))
  }

  /** A line is wider than the page exactly when its lead is, or its lead fills the page and it shows any text. */
  lemma {:induction false} WideExactly(text: string, lead: string, continuation: string, i: nat)
    requires i < |Wrapped(text, lead, continuation)|
    ensures var shown := if i == 0 then lead else continuation;
            |Wrapped(text, lead, continuation)[i]| > 100
            <==> |shown| > 100 || (|shown| == 100 && !ShowsNothing(text, i))
    decreases |text|
  {
    hide SplitAt, TrimStart, TrimEnd, Wrapped;
    var room := Room(lead);
    if |text| <= room {
      WrapLast(text, lead, continuation);
    } else {
      WrapOnce(text, lead, continuation);
      var trimmed := TrimStart(text[SplitAt(text, room)..]);
      if i > 0 {
        WideExactly(trimmed, continuation, continuation, i - 1);
      } else if room == 1 {
        OneCharacter(text);
      }
    }
  }

  lemma OneCharacter(text: string)
    requires |text| > 1
    ensures SplitAt(text, 1) == 1 && (TrimEnd(text[..1]) == "" <==> IsWhitespace(text[0]))
  {
    assert text[..1] == [text[0]] && text[..1][..0] == "";
  }

  /** With both leads shorter than the page every line fits the page. */
  lemma LinesFitThePage(text: string, prefix: string, continuation: string)
    requires |prefix| < 100 && |continuation| < 100
    ensures var lines := Wrapped(text, prefix, continuation);
            forall i :: 0 <= i < |lines| ==> |lines[i]| <= 100
  {
    var lines := Wrapped(text, prefix, continuation);
    forall i | 0 <= i < |lines| ensures |lines[i]| <= 100 {
      WidthIsKept(text, prefix, continuation, i);
    }
  }

  // ---- nothing visible is lost ----

  /** The bodies of the parts, one behind the other. */
  function Bodies(text: string, parts: seq<Part>): string
    requires InText(text, parts)
    decreases |parts|
  {
    if parts == [] then [] else Body(text, parts[0]) + Bodies(text, parts[1..])
  }

  lemma BodyVisible(text: string, part: Part)
    requires part.start <= part.end <= |text|
    ensures Visible(Body(text, part)) == Visible(text[part.start..part.end])
  {
    var whole := text[part.start..part.end];
    if !part.fits {
      var kept := TrimEnd(whole);
      assert whole == kept + whole[|kept|..];
      VisibleAppend(kept, whole[|kept|..]);
      VisibleBlank(whole[|kept|..]);
    }
  }

  lemma {:induction false} CoverVisible(text: string, parts: seq<Part>, at: nat)
    requires Covers(text, parts, at)
    requires InText(text, parts)
    ensures Visible(Bodies(text, parts)) == Visible(text[at..])
    decreases |parts|
  {
    hide Body, Visible;
    if parts == [] {
      VisibleBlank(text[at..]);
      VisibleBlank([]);
    } else {
      var start, end := parts[0].start, parts[0].end;
      CoverVisible(text, parts[1..], end);
      BodyVisible(text, parts[0]);
      VisibleAppend(Body(text, parts[0]), Bodies(text, parts[1..]));
      assert forall i :: 0 <= i < start - at ==> text[at..start][i] == text[at + i];
      VisibleBlank(text[at..start]);
      VisibleSplit(text, at, start, end);
    }
  }

  lemma VisibleSplit(text: string, at: nat, start: nat, end: nat)
    requires at <= start <= end <= |text|
    ensures Visible(text[at..]) == Visible(text[at..start]) + Visible(text[start..end]) + Visible(text[end..])
  {
    assert text[at..] == text[at..start] + text[start..];
    assert text[start..] == text[start..end] + text[end..];
    VisibleAppend(text[at..start], text[start..]);
    VisibleAppend(text[start..end], text[end..]);
  }

  /** The pushed lines are the leads and bodies of parts that keep every visible character, in order. */
  lemma NothingVisibleIsLost(text: string, prefix: string, continuation: string)
    ensures var parts := Parts(text, 0, Room(prefix), Room(continuation));
            && InText(text, parts)
            && Wrapped(text, prefix, continuation) == Lines(text, parts, prefix, continuation)
            && Visible(Bodies(text, parts)) == Visible(text)
  {
    var parts := Parts(text, 0, Room(prefix), Room(continuation));
    assert text[0..] == text;
    WrappedIsLines(text, 0, prefix, continuation);
    PartsCover(text, 0, Room(prefix), Room(continuation));
    CoverVisible(text, parts, 0);
  }

  // ---- words ----

  /** How many characters up to `p` are not white space, counting back. */
  function Back(text: string, p: nat): nat
    requires p <= |text|
  {
    if p == 0 || IsWhitespace(text[p - 1]) then 0 else Back(text, p - 1) + 1
  }

  /** How many characters from `p` on are not white space. */
  function Ahead(text: string, p: nat): nat
    requires p <= |text|
    decreases |text| - p
  {
    if p == |text| || IsWhitespace(text[p]) then 0 else Ahead(text, p + 1) + 1
  }

  /** Position `p` is inside a word of at most `room` characters; words are set off by white space. */
  predicate InFittingWord(text: string, p: nat, room: nat) {
    && 0 < p < |text|
    && !IsWhitespace(text[p - 1]) && !IsWhitespace(text[p])
    && Back(text, p) + Ahead(text, p) <= room
  }

  /** The part ends inside a word that would have fitted the room of its line. */
  predicate BreaksFittingWord(text: string, part: Part) {
    InFittingWord(text, part.end, part.room)
  }

  /**
   The line has no space to be split at behind its first character, and its room ends
   inside a word that fits.
   */
  predicate Stuck(text: string, at: nat, room: nat) {
    && InFittingWord(text, at + room, room)
    && forall i :: at < i < at + room ==> text[i] != ' '
  }

  lemma {:induction false} BackAtLeast(text: string, p: nat, n: nat)
    requires n <= p <= |text| && forall i :: p - n <= i < p ==> !IsWhitespace(text[i])
    ensures Back(text, p) >= n
    ensures (n == p || IsWhitespace(text[p - n - 1])) ==> Back(text, p) == n
    decreases n
  {
    if n > 0 {
      BackAtLeast(text, p - 1, n - 1);
    }
  }

  /** A line that is split breaks a fitting word exactly when it is stuck. */
  lemma SplitBreaksIffStuck(text: string, at: nat, room: nat)
    requires 1 <= room < |text| - at
    ensures BreaksFittingWord(text, Part(at, at + SplitAt(text[at..], room), room, false)) <==> Stuck(text, at, room)
  {
    hide Back, Ahead;
    var rest := text[at..];
    var split := SplitAt(rest, room);
    assert forall i :: 0 <= i < |rest| ==> rest[i] == text[at + i];
    assert split < room ==> text[at + split] == ' ';
  }

  /** For every text: a part breaks a fitting word exactly when its line is stuck. */
  lemma {:induction false} BrokenIffStuck(text: string, at: nat, room: nat, laterRoom: nat, i: nat)
    requires at <= |text| && room >= 1 && laterRoom >= 1
    requires i < |Parts(text, at, room, laterRoom)|
    ensures var part := Parts(text, at, room, laterRoom)[i];
            BreaksFittingWord(text, part) <==> Stuck(text, part.start, part.room)
    decreases |text| - at
  {
    hide Parts, NextAt, SplitAt, BreaksFittingWord, Stuck;
    var parts := Parts(text, at, room, laterRoom);
    if |text| - at <= room {
      LastPartKeepsWords(text, at, room, laterRoom);
    } else {
      PartsStep(text, at, room, laterRoom);
      if i == 0 {
        SplitBreaksIffStuck(text, at, room);
      } else {
        assert parts[i] == parts[1..][i - 1];
        BrokenIffStuck(text, NextAt(text, at, room), laterRoom, laterRoom, i - 1);
      }
    }
  }

  lemma LastPartKeepsWords(text: string, at: nat, room: nat, laterRoom: nat)
    requires at <= |text| <= at + room && room >= 1 && laterRoom >= 1
    ensures Parts(text, at, room, laterRoom) == [Part(at, |text|, room, true)]
    ensures !BreaksFittingWord(text, Part(at, |text|, room, true)) && !Stuck(text, at, room)
  {
  }

  /** Later parts start inside the text at a character that is not white space, with the later room. */
  lemma {:induction false} PartsStart(text: string, at: nat, room: nat, laterRoom: nat, i: nat)
    requires at <= |text| && room >= 1 && laterRoom >= 1
    requires i < |Parts(text, at, room, laterRoom)|
    ensures var part := Parts(text, at, room, laterRoom)[i];
            && (i == 0 ==> part.start == at && part.room == room)
            && (i > 0 ==> part.start < |text| && !IsWhitespace(text[part.start]) && part.room == laterRoom)
    decreases |text| - at
  {
    hide NextAt, SplitAt;
    var parts := Parts(text, at, room, laterRoom);
    if |text| - at <= room {
      LastPartKeepsWords(text, at, room, laterRoom);
    } else {
      PartsStep(text, at, room, laterRoom);
      if i > 0 {
        assert parts[i] == parts[1..][i - 1];
        PartsStart(text, NextAt(text, at, room), laterRoom, laterRoom, i - 1);
      }
    }
  }

  /** No tabs, line breaks or other white space than the space itself. */
  predicate OnlySpaces(text: string) {
    forall i :: 0 <= i < |text| ==> IsWhitespace(text[i]) ==> text[i] == ' '
  }

  /** One space in front of a word that is exactly as long as the first line has room. */
  predicate Trap(text: string, room: nat) {
    && room >= 2 && room < |text| && text[0] == ' '
    && (forall i :: 1 <= i <= room ==> text[i] != ' ')
    && (room + 1 == |text| || text[room + 1] == ' ')
  }

  /** A line that starts with a word is never stuck when spaces are the only white space. */
  lemma WordFirstIsNotStuck(text: string, at: nat, room: nat)
    requires OnlySpaces(text) && at < |text| && !IsWhitespace(text[at])
    ensures !Stuck(text, at, room)
  {
    if Stuck(text, at, room) {
      forall i | at <= i < at + room ensures !IsWhitespace(text[i]) {
        assert i == at || text[i] != ' ';
      }
      BackAtLeast(text, at + room, room);
    }
  }

  /** A first line that starts with a space is stuck exactly in the trap. */
  lemma StuckIffTrap(text: string, room: nat)
    requires OnlySpaces(text) && text != "" && IsWhitespace(text[0]) && room >= 1
    ensures Stuck(text, 0, room) <==> Trap(text, room)
  {
    if room >= 2 && room < |text| && (forall i :: 1 <= i <= room ==> text[i] != ' ') {
      BackAtLeast(text, room, room - 1);
      assert Ahead(text, room) == Ahead(text, room + 1) + 1;
    }
  }

  /**
   Where spaces are the only white space, a word that fits its line is broken exactly when the
   text is one space in front of a word that fills the first line; so never without a leading space.
   */
  lemma WordsAreKept(text: string, prefix: string, continuation: string)
    requires OnlySpaces(text)
    ensures (exists i :: 0 <= i < |Parts(text, 0, Room(prefix), Room(continuation))|
                         && BreaksFittingWord(text, Parts(text, 0, Room(prefix), Room(continuation))[i]))
            <==> Trap(text, Room(prefix))
  {
    var room, later := Room(prefix), Room(continuation);
    var parts := Parts(text, 0, room, later);
    hide Parts, BreaksFittingWord, Stuck, Trap, OnlySpaces;
    forall i | 0 <= i < |parts| ensures BreaksFittingWord(text, parts[i]) <==> i == 0 && Trap(text, room) {
      BrokenIffStuck(text, 0, room, later, i);
      PartsStart(text, 0, room, later, i);
      if i > 0 {
        WordFirstIsNotStuck(text, parts[i].start, later);
      } else {
        FirstLine(text, room);
      }
    }
    assert 0 < |parts| && (Trap(text, room) ==> BreaksFittingWord(text, parts[0]));
  }

  lemma FirstLine(text: string, room: nat)
    requires OnlySpaces(text) && room >= 1
    ensures Stuck(text, 0, room) <==> Trap(text, room)
  {
    if text != "" && IsWhitespace(text[0]) {
      StuckIffTrap(text, room);
    } else if text != "" {
      WordFirstIsNotStuck(text, 0, room);
    }
  }

  // ---- how far a line is filled ----

  /** Every line but a short last one has the room its lead leaves of a hundred characters, and at least one. */
  lemma RoomOfLines(text: string, prefix: string, continuation: string, i: nat)
    requires i < |Parts(text, 0, Room(prefix), Room(continuation))|
    ensures var lead := if i == 0 then prefix else continuation;
            Parts(text, 0, Room(prefix), Room(continuation))[i].room == if |lead| < 100 then 100 - |lead| else 1
  {
    PartsStart(text, 0, Room(prefix), Room(continuation), i);
  }

  /** A place behind the first character where a line that starts at `at` may end: a space, no further than its room. */
  predicate IsBreak(text: string, at: nat, room: nat, p: nat) {
    at < p <= at + room && p < |text| && text[p] == ' '
  }

  /**
   A split line ends at its last break, unless that is right behind its room: then it ends at the
   break before. Without any break inside it ends where its room does.
   */
  lemma FilledToTheLastBreak(text: string, at: nat, room: nat, laterRoom: nat, i: nat)
    requires at <= |text| && room >= 1 && laterRoom >= 1
    requires i < |Parts(text, at, room, laterRoom)| && !Parts(text, at, room, laterRoom)[i].fits
    ensures var part := Parts(text, at, room, laterRoom)[i];
            && (part.end < part.start + part.room ==> IsBreak(text, part.start, part.room, part.end))
            && part.end <= part.start + part.room
            && forall p: nat ::
                 IsBreak(text, part.start, part.room, p) ==> p <= part.end || p == part.start + part.room
  {
    hide *;
    SplitPart(text, at, room, laterRoom, i);
    var part := Parts(text, at, room, laterRoom)[i];
    SplitIsLastBreak(text, part.start, part.room);
  }

  /** A part that does not fit is split where the scan of its line says. */
  lemma {:induction false} SplitPart(text: string, at: nat, room: nat, laterRoom: nat, i: nat)
    requires at <= |text| && room >= 1 && laterRoom >= 1
    requires i < |Parts(text, at, room, laterRoom)| && !Parts(text, at, room, laterRoom)[i].fits
    ensures var part := Parts(text, at, room, laterRoom)[i];
            && 1 <= part.room < |text| - part.start
            && part.end == part.start + SplitAt(text[part.start..], part.room)
    decreases |text| - at
  {
    hide NextAt, SplitAt, Parts;
    if |text| - at <= room {
      LastPartKeepsWords(text, at, room, laterRoom);
    } else {
      PartsStep(text, at, room, laterRoom);
      if i > 0 {
        var parts := Parts(text, at, room, laterRoom);
        assert parts[i] == parts[1..][i - 1];
        SplitPart(text, NextAt(text, at, room), laterRoom, laterRoom, i - 1);
      }
    }
  }

  lemma SplitIsLastBreak(text: string, at: nat, room: nat)
    requires 1 <= room < |text| - at
    ensures var end := at + SplitAt(text[at..], room);
            && (end < at + room ==> IsBreak(text, at, room, end))
            && end <= at + room
            && forall p: nat :: IsBreak(text, at, room, p) ==> p <= end || p == at + room
  {
    var rest := text[at..];
    assert forall p :: at <= p < |text| ==> text[p] == rest[p - at];
  }

  /** A word that would fill its line exactly goes to the next one: the scan does not look behind the room. */
  lemma ExactFitIsLeft()
    ensures Wrapped("ab cd ef", seq(95, _ => ' '), "")[0] == seq(95, _ => ' ') + "ab"
  {
    var lead, text := seq(95, _ => ' '), "ab cd ef";
    assert Room(lead) == 5;
    assert text[2] == ' ' && text[3] == 'c' && text[4] == 'd';
    assert SplitAt(text, 5) == 2;
    assert text[..2] == "ab";
    hide SplitAt;
    WrapOnce(text, lead, "");
  }

  const TABBED: string := "abcdefgh\tijk lmn"

  /** With a tab, a text that starts with a word and is no trap has a three-letter word broken in a room of ten. */
  lemma TabBreaksAWord()
    ensures !Trap(TABBED, 10) && !IsWhitespace(TABBED[0]) && !OnlySpaces(TABBED)
    ensures TABBED[9..12] == "ijk" && IsWhitespace(TABBED[8]) && IsWhitespace(TABBED[12])
    ensures Parts(TABBED, 0, 10, 10)[0].end == 10 && BreaksFittingWord(TABBED, Parts(TABBED, 0, 10, 10)[0])
  {
    TabIsStuck();
    TabSplits();
    TabWord();
    hide OnlySpaces, Trap, IsWhitespace, Parts, NextAt, Stuck, BreaksFittingWord, SplitAt;
    PartsStep(TABBED, 0, 10, 10);
    SplitBreaksIffStuck(TABBED, 0, 10);
  }

  lemma TabWord()
    ensures !Trap(TABBED, 10) && !IsWhitespace(TABBED[0]) && !OnlySpaces(TABBED)
    ensures TABBED[9..12] == "ijk" && IsWhitespace(TABBED[8]) && IsWhitespace(TABBED[12])
  {
    assert TABBED[8] != ' ';
  }

  lemma TabSplits()
    ensures TABBED[0..] == TABBED && SplitAt(TABBED, 10) == 10
  {
  }

  lemma TabIsStuck()
    ensures Stuck(TABBED, 0, 10)
  {
    assert Back(TABBED, 9) == 0 && Back(TABBED, 10) == 1;
    assert Ahead(TABBED, 12) == 0 && Ahead(TABBED, 11) == 1 && Ahead(TABBED, 10) == 2;
  }
}
