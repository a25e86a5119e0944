/** What the walk guarantees for every executor: exact tiling, cue ownership, and conserved accounts. */
module RecognizerWalk {
  import opened Prelude
  import opened Recognizer

  // ---- tiling ----

  /** The coverages tile the segment from `from` to its end, in steps of at most `CHUNK_US`. */
  ghost predicate Tiles(segment: Segment, covers: seq<Coverage>, from: U64)
    decreases |covers|
  {
    if from >= segment.endUs then covers == []
    else
      && covers != []
      && covers[0].startUs == from && from < covers[0].endUs <= segment.endUs
      && covers[0].endUs - from <= CHUNK_US
      && covers[0].interval == segment.ordinal && covers[0].source == segment.source
      && Tiles(segment, covers[1..], covers[0].endUs)
  }

  /** The coverages are a tiling of each segment, one segment after the other. */
  ghost predicate TilesAll(segments: seq<Segment>, covers: seq<Coverage>)
    decreases |segments|
  {
    if segments == [] then covers == []
    else exists n: nat :: TilesFirst(segments, covers, n)
  }

  ghost predicate TilesFirst(segments: seq<Segment>, covers: seq<Coverage>, n: nat)
    requires segments != []
    decreases |segments|, 0
  {
    n <= |covers| && Tiles(segments[0], covers[..n], segments[0].startUs) && TilesAll(segments[1..], covers[n..])
  }

  /** A walk that goes on past a window accepted what the window gave. */
  lemma WalkGoesOn(task: Task, world: World, segment: Segment, cursor: U64, lists: Lists)
    requires WalkSegment(task, world, segment, cursor, lists).progress.Going? && cursor < segment.endUs
    ensures var window := WindowAt(segment, cursor, |lists.coverages|);
            && RunChunk(task, world, window).Got?
            && var piece := RunChunk(task, world, window).piece;
               && WindowAccepted(piece, window) && lists.HasRoom(piece)
               && lists.With(piece).coverages == lists.coverages + [piece.coverage]
               && segment.endUs - piece.coverage.endUs < segment.endUs - cursor
               && piece.coverage.endUs <= segment.endUs
               && var rest := WalkSegment(task, world, segment, piece.coverage.endUs, lists.With(piece));
                  WalkSegment(task, world, segment, cursor, lists) == Trace(rest.progress, [window] + rest.ran)
  {
  }

  /** An accepted window in front of a tiling of what is left makes a tiling. */
  lemma AcceptedTiles(segment: Segment, cursor: U64, ordinal: U32, piece: Piece, rest: seq<Coverage>)
    requires cursor < segment.endUs && WindowAccepted(piece, WindowAt(segment, cursor, ordinal))
    requires Tiles(segment, rest, piece.coverage.endUs)
    ensures Tiles(segment, [piece.coverage] + rest, cursor)
  {
    assert ([piece.coverage] + rest)[1..] == rest;
  }

  /** The walk of a segment that goes on appends a tiling of what was left of it. */
  lemma {:induction false} SegmentTiles(task: Task, world: World, segment: Segment, cursor: U64, lists: Lists)
    returns (covers: seq<Coverage>)
    requires WalkSegment(task, world, segment, cursor, lists).progress.Going?
    ensures WalkSegment(task, world, segment, cursor, lists).progress.lists.coverages == lists.coverages + covers
    ensures Tiles(segment, covers, cursor)
    decreases segment.endUs - cursor
  {
    if cursor >= segment.endUs {
      return [];
    }
    WalkGoesOn(task, world, segment, cursor, lists);
    var window := WindowAt(segment, cursor, |lists.coverages|);
    var piece := RunChunk(task, world, window).piece;
    hide *;
    var rest := SegmentTiles(task, world, segment, piece.coverage.endUs, lists.With(piece));
    AcceptedTiles(segment, cursor, |lists.coverages|, piece, rest);
    covers := [piece.coverage] + rest;
  }

  lemma {:induction false} AllTile(task: Task, world: World, segments: seq<Segment>, lists: Lists)
    returns (covers: seq<Coverage>)
    requires WalkAll(task, world, segments, lists).progress.Going?
    ensures WalkAll(task, world, segments, lists).progress.lists.coverages == lists.coverages + covers
    ensures TilesAll(segments, covers)
    decreases |segments|
  {
    hide Tiles, WalkSegment;
    if segments == [] {
      covers := [];
    } else {
      var first := SegmentTiles(task, world, segments[0], segments[0].startUs, lists);
      var next := WalkSegment(task, world, segments[0], segments[0].startUs, lists).progress.lists;
      var rest := AllTile(task, world, segments[1..], next);
      covers := first + rest;
      TilesJoin(segments, first, rest);
    }
  }

  lemma TilesJoin(segments: seq<Segment>, first: seq<Coverage>, rest: seq<Coverage>)
    requires segments != [] && Tiles(segments[0], first, segments[0].startUs) && TilesAll(segments[1..], rest)
    ensures TilesAll(segments, first + rest)
  {
    var covers := first + rest;
    assert covers[..|first|] == first && covers[|first|..] == rest;
    assert TilesFirst(segments, covers, |first|);
  }

  // ---- point by point ----

  predicate Holds(cover: Coverage, t: nat) {
    cover.startUs <= t < cover.endUs
  }

  /** Exactly one coverage of the tiling holds each moment of the segment. */
  lemma {:induction false} OneHolds(segment: Segment, covers: seq<Coverage>, from: U64, t: nat) returns (k: nat)
    requires Tiles(segment, covers, from) && from <= t < segment.endUs
    ensures k < |covers| && Holds(covers[k], t)
    ensures forall i :: 0 <= i < |covers| && Holds(covers[i], t) ==> i == k
    decreases |covers|
  {
    var first := covers[0];
    LaterStart(segment, covers[1..], first.endUs);
    if t < first.endUs {
      k := 0;
      assert forall i :: 1 <= i < |covers| ==> covers[i] == covers[1..][i - 1];
    } else {
      var rest := OneHolds(segment, covers[1..], first.endUs, t);
      k := rest + 1;
      forall i | 0 <= i < |covers| && Holds(covers[i], t) ensures i == k {
        if i > 0 {
          assert covers[i] == covers[1..][i - 1];
        }
      }
    }
  }

  /** Every coverage of a tiling lies inside what is tiled, in steps of at most `CHUNK_US`. */
  lemma {:induction false} LaterStart(segment: Segment, covers: seq<Coverage>, from: U64)
    requires Tiles(segment, covers, from)
    ensures forall i :: 0 <= i < |covers| ==> InPart(segment, covers[i], from)
    decreases |covers|
  {
    if from < segment.endUs {
      LaterStart(segment, covers[1..], covers[0].endUs);
      forall i | 0 <= i < |covers| ensures InPart(segment, covers[i], from) {
        if i > 0 {
          assert covers[i] == covers[1..][i - 1];
        }
      }
    }
  }

  predicate InPart(segment: Segment, cover: Coverage, from: U64) {
    && from <= cover.startUs < cover.endUs <= segment.endUs
    && cover.endUs - cover.startUs <= CHUNK_US
    && cover.interval == segment.ordinal && cover.source == segment.source
  }

  ghost predicate DistinctOrdinals(segments: seq<Segment>) {
    forall i, k :: 0 <= i < k < |segments| ==> segments[i].ordinal != segments[k].ordinal
  }

  ghost predicate HeldOnce(segment: Segment, covers: seq<Coverage>, t: nat) {
    exists k: nat :: OnlyHolder(segment, covers, t, k)
  }

  /** Coverage `k`, and no other of the segment's, holds the moment. */
  ghost predicate OnlyHolder(segment: Segment, covers: seq<Coverage>, t: nat, k: nat) {
    && k < |covers| && covers[k].interval == segment.ordinal && Holds(covers[k], t)
    && forall i :: 0 <= i < |covers| && covers[i].interval == segment.ordinal && Holds(covers[i], t) ==> i == k
  }

  /** Every coverage of a full tiling belongs to one of the segments. */
  lemma {:induction false} BelongsToOne(segments: seq<Segment>, covers: seq<Coverage>, i: nat) returns (s: nat)
    requires TilesAll(segments, covers) && i < |covers|
    ensures s < |segments| && InPart(segments[s], covers[i], segments[s].startUs)
    decreases |segments|
  {
    var n: nat :| TilesFirst(segments, covers, n);
    if i < n {
      LaterStart(segments[0], covers[..n], segments[0].startUs);
      s := 0;
      assert covers[i] == covers[..n][i];
    } else {
      var rest := BelongsToOne(segments[1..], covers[n..], i - n);
      s := rest + 1;
    }
  }

  /** Each moment of each segment is held by exactly one coverage of that segment. */
  lemma {:induction false} MomentsHeldOnce(segments: seq<Segment>, covers: seq<Coverage>, s: nat, t: nat)
    requires TilesAll(segments, covers) && DistinctOrdinals(segments)
    requires s < |segments| && segments[s].startUs <= t < segments[s].endUs
    ensures HeldOnce(segments[s], covers, t)
    decreases |segments|
  {
    var n: nat :| TilesFirst(segments, covers, n);
    hide Tiles, TilesAll, HeldOnce;
    if s == 0 {
      HeldByFirst(segments, covers, n, t);
    } else {
      assert segments[1..][s - 1] == segments[s];
      MomentsHeldOnce(segments[1..], covers[n..], s - 1, t);
      HeldByLater(segments, covers, n, s, t);
    }
  }

  /** A moment of the first segment is held in its own part of the coverages and in no other. */
  lemma HeldByFirst(segments: seq<Segment>, covers: seq<Coverage>, n: nat, t: nat)
    requires segments != [] && TilesFirst(segments, covers, n) && DistinctOrdinals(segments)
    requires segments[0].startUs <= t < segments[0].endUs
    ensures HeldOnce(segments[0], covers, t)
  {
    hide Tiles, TilesAll;
    var first, rest := covers[..n], covers[n..];
    var k := OneHolds(segments[0], first, segments[0].startUs, t);
    LaterStart(segments[0], first, segments[0].startUs);
    forall i | n <= i < |covers| ensures covers[i].interval != segments[0].ordinal {
      assert covers[i] == rest[i - n];
      var b := BelongsToOne(segments[1..], rest, i - n);
      assert segments[1..][b] == segments[b + 1];
    }
    assert forall i :: 0 <= i < n ==> covers[i] == first[i];
    assert OnlyHolder(segments[0], covers, t, k);
  }

  lemma HeldByLater(segments: seq<Segment>, covers: seq<Coverage>, n: nat, s: nat, t: nat)
    requires 0 < s < |segments| && TilesFirst(segments, covers, n) && DistinctOrdinals(segments)
    requires HeldOnce(segments[s], covers[n..], t)
    ensures HeldOnce(segments[s], covers, t)
  {
    hide Tiles, TilesAll;
    var first, rest := covers[..n], covers[n..];
    LaterStart(segments[0], first, segments[0].startUs);
    assert forall i :: 0 <= i < n ==> covers[i] == first[i];
    assert forall i :: n <= i < |covers| ==> covers[i] == rest[i - n];
    var k: nat :| OnlyHolder(segments[s], rest, t, k);
    assert OnlyHolder(segments[s], covers, t, n + k);
  }

  // ---- numbering, cues and languages ----

  /** The cue lies inside the coverage that owns it. */
  predicate CueInside(cue: Cue, cover: Coverage) {
    cover.startUs <= cue.startUs < cue.endUs <= cover.endUs
  }

  /**
   Coverages and cues are numbered from zero without a gap, `owner` assigns every cue, in
   order, to a coverage that contains it, and a language row repeats the clock of a
   coverage that has cues.
   */
  ghost predicate Sound(lists: Lists, owner: seq<nat>) {
    && (forall k :: 0 <= k < |lists.coverages| ==> lists.coverages[k].ordinal == k)
    && (forall k :: 0 <= k < |lists.cues| ==> lists.cues[k].ordinal == k)
    && |owner| == |lists.cues|
    && (forall i, k :: 0 <= i < k < |owner| ==> owner[i] <= owner[k])
    && (forall k :: 0 <= k < |owner| ==>
          owner[k] < |lists.coverages| && CueInside(lists.cues[k], lists.coverages[owner[k]]))
    && (forall k :: 0 <= k < |lists.languages| ==> LanguageSound(lists, owner, lists.languages[k]))
    && (forall i, k :: 0 <= i < k < |lists.languages| ==> lists.languages[i].ordinal < lists.languages[k].ordinal)
    && |lists.hashes| == |lists.coverages|
  }

  ghost predicate LanguageSound(lists: Lists, owner: seq<nat>, language: Language) {
    && language.ordinal < |lists.coverages|
    && language.code != ""
    && language.ordinal in owner
    && var cover := lists.coverages[language.ordinal];
       language.interval == cover.interval && language.startUs == cover.startUs && language.endUs == cover.endUs
  }

  function Repeat(x: nat, n: nat): (r: seq<nat>)
    ensures |r| == n && forall i :: 0 <= i < n ==> r[i] == x
  {
    seq(n, _ => x)
  }

  /** A language is only ever attached to a piece with cues. */
  lemma LanguageNeedsCues(task: Task, world: World, window: Window)
    requires RunChunk(task, world, window).Got?
    ensures RunChunk(task, world, window).piece.language.Some? ==> RunChunk(task, world, window).piece.cues != []
  {
  }

  lemma PushKeepsSound(lists: Lists, owner: seq<nat>, piece: Piece, window: Window)
    requires Sound(lists, owner) && lists.HasRoom(piece)
    requires WindowAccepted(piece, window) && window.ordinal == |lists.coverages|
    requires piece.language.Some? ==> piece.cues != []
    ensures Sound(lists.With(piece), owner + Repeat(|lists.coverages|, |piece.cues|))
  {
    var next := lists.With(piece);
    var n, more := |lists.coverages|, Repeat(|lists.coverages|, |piece.cues|);
    var owners := owner + more;
    assert next.coverages[n] == piece.coverage;
    forall k | 0 <= k < |owners|
      ensures owners[k] < |next.coverages| && CueInside(next.cues[k], next.coverages[owners[k]])
    {
      if k >= |owner| {
        assert next.cues[k] == Renumbered(piece.cues, |lists.cues|)[k - |owner|];
      }
    }
    PushKeepsLanguages(lists, owner, piece, window);
  }

  lemma PushKeepsLanguages(lists: Lists, owner: seq<nat>, piece: Piece, window: Window)
    requires Sound(lists, owner) && lists.HasRoom(piece)
    requires WindowAccepted(piece, window) && window.ordinal == |lists.coverages|
    requires piece.language.Some? ==> piece.cues != []
    ensures var next := lists.With(piece);
            var owners := owner + Repeat(|lists.coverages|, |piece.cues|);
            && (forall k :: 0 <= k < |next.languages| ==> LanguageSound(next, owners, next.languages[k]))
            && (forall i, k :: 0 <= i < k < |next.languages| ==> next.languages[i].ordinal < next.languages[k].ordinal)
  {
    var next := lists.With(piece);
    var n, more := |lists.coverages|, Repeat(|lists.coverages|, |piece.cues|);
    var owners := owner + more;
    forall k | 0 <= k < |next.languages| ensures LanguageSound(next, owners, next.languages[k]) {
      if k < |lists.languages| {
        assert LanguageSound(lists, owner, lists.languages[k]);
      } else {
        assert more[0] == n && owners[|owner|] == n;
      }
    }
  }

  lemma {:induction false} SegmentKeepsSound(task: Task, world: World, segment: Segment, cursor: U64, lists: Lists,
                                             owner: seq<nat>)
    returns (owners: seq<nat>)
    requires Sound(lists, owner) && WalkSegment(task, world, segment, cursor, lists).progress.Going?
    ensures Sound(WalkSegment(task, world, segment, cursor, lists).progress.lists, owners)
    decreases segment.endUs - cursor
  {
    owners := owner;
    if cursor < segment.endUs {
      WalkGoesOn(task, world, segment, cursor, lists);
      hide WalkSegment, RunChunk, WindowAccepted, Sound;
      var window := WindowAt(segment, cursor, |lists.coverages|);
      var piece := RunChunk(task, world, window).piece;
      LanguageNeedsCues(task, world, window);
      PushKeepsSound(lists, owner, piece, window);
      owners := SegmentKeepsSound(task, world, segment, piece.coverage.endUs, lists.With(piece),
                                  owner + Repeat(|lists.coverages|, |piece.cues|));
    }
  }

  lemma {:induction false} AllKeepSound(task: Task, world: World, segments: seq<Segment>, lists: Lists,
                                        owner: seq<nat>)
    returns (owners: seq<nat>)
    requires Sound(lists, owner) && WalkAll(task, world, segments, lists).progress.Going?
    ensures Sound(WalkAll(task, world, segments, lists).progress.lists, owners)
    decreases |segments|
  {
    owners := owner;
    if segments != [] {
      var next := WalkSegment(task, world, segments[0], segments[0].startUs, lists).progress.lists;
      owners := SegmentKeepsSound(task, world, segments[0], segments[0].startUs, lists, owner);
      owners := AllKeepSound(task, world, segments[1..], next, owners);
    }
  }

  /**
   A job that succeeds published an exact tiling of every segment, with cues numbered
   through and owned by their coverages, whatever the executor answered.
   */
  lemma SuccessTilesExactly(task: Task, world: World)
    requires Ended(task, world).0.Some? && Ended(task, world).0.value.outcome.Succeeded?
    ensures var reaped := Ended(task, world).0.value;
            && TilesAll(task.segments, reaped.outcome.coverages)
            && (exists owner, hashes ::
                  Sound(Lists(reaped.outcome.coverages, reaped.outcome.cues, reaped.languages, hashes,
                              reaped.observations), owner))
  {
    var trace := WalkAll(task, world, task.segments, NOTHING);
    if trace.progress.Halted? {
      HaltedNeverSucceeds(task, world, task.segments, NOTHING);
    }
    var lists := trace.progress.lists;
    var covers := AllTile(task, world, task.segments, NOTHING);
    assert lists.coverages == covers;
    assert Sound(NOTHING, []);
    var owner := AllKeepSound(task, world, task.segments, NOTHING, []);
    assert Sound(Lists(lists.coverages, lists.cues, lists.languages, lists.hashes, lists.observations), owner);
  }

  /** In a successful job each moment of each segment is published exactly once. */
  lemma SuccessCoversEachMomentOnce(task: Task, world: World, s: nat, t: nat)
    requires Ended(task, world).0.Some? && Ended(task, world).0.value.outcome.Succeeded?
    requires DistinctOrdinals(task.segments)
    requires s < |task.segments| && task.segments[s].startUs <= t < task.segments[s].endUs
    ensures HeldOnce(task.segments[s], Ended(task, world).0.value.outcome.coverages, t)
  {
    SuccessTilesExactly(task, world);
    MomentsHeldOnce(task.segments, Ended(task, world).0.value.outcome.coverages, s, t);
  }

  lemma {:induction false} SegmentHaltedNeverSucceeds(task: Task, world: World, segment: Segment, cursor: U64,
                                                      lists: Lists)
    requires WalkSegment(task, world, segment, cursor, lists).progress.Halted?
    ensures !WalkSegment(task, world, segment, cursor, lists).progress.reaped.outcome.Succeeded?
    decreases segment.endUs - cursor
  {
    if cursor < segment.endUs {
      var window := WindowAt(segment, cursor, Min(|lists.coverages|, U32_MAX));
      var step := RunChunk(task, world, window);
      if !world.cancelled(|lists.coverages|) && CoveragesFitOnePage(world, |lists.coverages| + 1)
         && step.Got? && WindowAccepted(step.piece, window) && lists.HasRoom(step.piece) {
        SegmentHaltedNeverSucceeds(task, world, segment, step.piece.coverage.endUs, lists.With(step.piece));
      }
    }
  }

  lemma {:induction false} HaltedNeverSucceeds(task: Task, world: World, segments: seq<Segment>, lists: Lists)
    requires WalkAll(task, world, segments, lists).progress.Halted?
    ensures !WalkAll(task, world, segments, lists).progress.reaped.outcome.Succeeded?
    decreases |segments|
  {
    if segments != [] {
      var first := WalkSegment(task, world, segments[0], segments[0].startUs, lists);
      if first.progress.Going? {
        HaltedNeverSucceeds(task, world, segments[1..], first.progress.lists);
      } else {
        SegmentHaltedNeverSucceeds(task, world, segments[0], segments[0].startUs, lists);
      }
    }
  }

  // ---- containment accounts ----

  /** The accounts of the windows that ran, in order. */
  function AccountsOf(world: World, ran: seq<Window>): seq<Account>
    decreases |ran|
  {
    if ran == [] then []
    else
      (match world.execute(ran[0])
       case Answered(_, accounts, _) => accounts
       case _ => [])
      + AccountsOf(world, ran[1..])
  }

  lemma {:induction false} AccountsAppend(world: World, a: seq<Window>, b: seq<Window>)
    ensures AccountsOf(world, a + b) == AccountsOf(world, a) + AccountsOf(world, b)
    decreases |a|
  {
    if a == [] {
      assert a + b == b;
    } else {
      assert (a + b)[1..] == a[1..] + b;
      AccountsAppend(world, a[1..], b);
    }
  }

  /** The accounts a step carries are those of its window, if it ran. */
  lemma StepAccounts(task: Task, world: World, window: Window)
    ensures var ran := if Ran(task, world, window) then [window] else [];
            var step := RunChunk(task, world, window);
            && (step.Got? ==> step.piece.observations == AccountsOf(world, ran))
            && (step.Stop? ==> step.reaped.observations == AccountsOf(world, ran))
  {
    assert [window][1..] == [];
  }

  ghost predicate Accounted(world: World, lists: Lists, trace: Trace) {
    match trace.progress
    case Faulted => true
    case Halted(reaped) => reaped.observations == lists.observations + AccountsOf(world, trace.ran)
    case Going(next) => next.observations == lists.observations + AccountsOf(world, trace.ran)
  }

  lemma {:induction false} SegmentConservesAccounts(task: Task, world: World, segment: Segment, cursor: U64,
                                                    lists: Lists)
    ensures Accounted(world, lists, WalkSegment(task, world, segment, cursor, lists))
    decreases segment.endUs - cursor
  {
    if cursor < segment.endUs && !world.cancelled(|lists.coverages|)
       && CoveragesFitOnePage(world, |lists.coverages| + 1) {
      var window := WindowAt(segment, cursor, |lists.coverages|);
      StepAccounts(task, world, window);
      var ran := if Ran(task, world, window) then [window] else [];
      var step := RunChunk(task, world, window);
      if step.Got? && WindowAccepted(step.piece, window) && lists.HasRoom(step.piece) {
        var rest := WalkSegment(task, world, segment, step.piece.coverage.endUs, lists.With(step.piece));
        SegmentConservesAccounts(task, world, segment, step.piece.coverage.endUs, lists.With(step.piece));
        AccountsAppend(world, ran, rest.ran);
      }
    }
  }

  lemma NothingRan(world: World, lists: Lists)
    ensures Accounted(world, lists, Trace(Going(lists), []))
  {
  }

  lemma AccountsJoin(world: World, lists: Lists, first: Trace, rest: Trace)
    requires first.progress.Going? && Accounted(world, lists, first)
    requires Accounted(world, first.progress.lists, rest)
    ensures Accounted(world, lists, Trace(rest.progress, first.ran + rest.ran))
  {
    hide AccountsOf;
    AccountsAppend(world, first.ran, rest.ran);
  }

  lemma {:induction false} AllConserveAccounts(task: Task, world: World, segments: seq<Segment>, lists: Lists)
    ensures Accounted(world, lists, WalkAll(task, world, segments, lists))
    decreases |segments|
  {
    hide WalkSegment, AccountsOf, Accounted;
    if segments == [] {
      NothingRan(world, lists);
    } else {
      var first := WalkSegment(task, world, segments[0], segments[0].startUs, lists);
      SegmentConservesAccounts(task, world, segments[0], segments[0].startUs, lists);
      if first.progress.Going? {
        var rest := WalkAll(task, world, segments[1..], first.progress.lists);
        AllConserveAccounts(task, world, segments[1..], first.progress.lists);
        AccountsJoin(world, lists, first, rest);
      }
    }
  }

  /** Success, failure, cancellation or a rejected window: no account of a drained process is lost or invented. */
  lemma AccountsConserved(task: Task, world: World)
    ensures Ended(task, world).0.Some? ==>
              Ended(task, world).0.value.observations == AccountsOf(world, Ended(task, world).1)
  {
    hide WalkAll, AccountsOf;
    AllConserveAccounts(task, world, task.segments, NOTHING);
    NothingRan(world, NOTHING);
  }

  // ---- what ran and what was published ----

  /** The coverages are those of the windows that ran: same start, same ordinal, and each run succeeded. */
  ghost predicate FromRuns(world: World, covers: seq<Coverage>, ran: seq<Window>) {
    && |covers| == |ran|
    && forall k :: 0 <= k < |ran| ==> FromRun(world, covers[k], ran[k])
  }

  predicate FromRun(world: World, cover: Coverage, window: Window) {
    && cover.ordinal == window.ordinal && cover.interval == window.interval && cover.source == window.source
    && cover.startUs == window.startUs && cover.endUs <= window.endUs
    && var answer := world.execute(window);
       answer.Answered? && answer.result.RanOk? && |answer.result.coverages| == 1
       && cover == answer.result.coverages[0].(ordinal := window.ordinal)
  }

  lemma FromRunsFirst(world: World, cover: Coverage, window: Window, rest: seq<Coverage>, ran: seq<Window>)
    requires FromRun(world, cover, window) && FromRuns(world, rest, ran)
    ensures FromRuns(world, [cover] + rest, [window] + ran)
  {
    hide FromRun;
  }

  lemma GotFromRun(task: Task, world: World, window: Window)
    requires RunChunk(task, world, window).Got? && WindowAccepted(RunChunk(task, world, window).piece, window)
    ensures Ran(task, world, window) && FromRun(world, RunChunk(task, world, window).piece.coverage, window)
  {
  }

  lemma NoRuns(world: World)
    ensures FromRuns(world, [], [])
  {
  }

  lemma FromRunsJoin(world: World, a: seq<Coverage>, ra: seq<Window>, b: seq<Coverage>, rb: seq<Window>)
    requires FromRuns(world, a, ra) && FromRuns(world, b, rb)
    ensures FromRuns(world, a + b, ra + rb)
  {
  }

  lemma {:induction false} SegmentFromRuns(task: Task, world: World, segment: Segment, cursor: U64, lists: Lists)
    returns (covers: seq<Coverage>)
    requires WalkSegment(task, world, segment, cursor, lists).progress.Going?
    ensures WalkSegment(task, world, segment, cursor, lists).progress.lists.coverages == lists.coverages + covers
    ensures FromRuns(world, covers, WalkSegment(task, world, segment, cursor, lists).ran)
    decreases segment.endUs - cursor
  {
    if cursor >= segment.endUs {
      return [];
    }
    WalkGoesOn(task, world, segment, cursor, lists);
    hide *;
    var window := WindowAt(segment, cursor, |lists.coverages|);
    var piece := RunChunk(task, world, window).piece;
    GotFromRun(task, world, window);
    var rest := SegmentFromRuns(task, world, segment, piece.coverage.endUs, lists.With(piece));
    var ran := WalkSegment(task, world, segment, piece.coverage.endUs, lists.With(piece)).ran;
    FromRunsFirst(world, piece.coverage, window, rest, ran);
    covers := [piece.coverage] + rest;
  }

  lemma {:induction false} AllFromRuns(task: Task, world: World, segments: seq<Segment>, lists: Lists)
    returns (covers: seq<Coverage>)
    requires WalkAll(task, world, segments, lists).progress.Going?
    ensures WalkAll(task, world, segments, lists).progress.lists.coverages == lists.coverages + covers
    ensures FromRuns(world, covers, WalkAll(task, world, segments, lists).ran)
    decreases |segments|
  {
    hide WalkSegment, FromRuns;
    covers := [];
    if segments == [] {
      NoRuns(world);
    } else {
      var trace := WalkSegment(task, world, segments[0], segments[0].startUs, lists);
      var first := SegmentFromRuns(task, world, segments[0], segments[0].startUs, lists);
      var rest := AllFromRuns(task, world, segments[1..], trace.progress.lists);
      FromRunsJoin(world, first, trace.ran, rest, WalkAll(task, world, segments[1..], trace.progress.lists).ran);
      covers := first + rest;
    }
  }

  // ---- cues and languages as the executor gave them ----

  function Unnumbered(cues: seq<Cue>): (r: seq<Cue>)
    ensures |r| == |cues| && forall i :: 0 <= i < |r| ==> r[i] == cues[i].(ordinal := 0)
  {
    seq(|cues|, i requires 0 <= i < |cues| => cues[i].(ordinal := 0))
  }

  function CueHeard(world: World, window: Window): seq<Cue> {
    match world.execute(window)
    case Answered(RanOk(_, cues, _), _, _) => Unnumbered(cues)
    case _ => []
  }

  /** The cues the executor gave for the windows, in order, without their numbers. */
  function CuesHeard(world: World, ran: seq<Window>): seq<Cue>
    decreases |ran|
  {
    if ran == [] then [] else CueHeard(world, ran[0]) + CuesHeard(world, ran[1..])
  }

  /** The executor's language for a window with cues, on the clock of its coverage. */
  function LanguageHeard(world: World, window: Window): seq<Language> {
    match world.execute(window)
    case Answered(RanOk(coverages, cues, languages), _, _) =>
      if cues == [] || languages == [] || coverages == [] then []
      else
        [Language(window.ordinal, coverages[0].interval, coverages[0].startUs, coverages[0].endUs, languages[0].code)]
    case _ => []
  }

  function LanguagesHeard(world: World, ran: seq<Window>): seq<Language>
    decreases |ran|
  {
    if ran == [] then [] else LanguageHeard(world, ran[0]) + LanguagesHeard(world, ran[1..])
  }

  /** `next` holds what `lists` held and then what the executor gave for the windows that ran. */
  ghost predicate Hears(world: World, lists: Lists, next: Lists, ran: seq<Window>) {
    && Unnumbered(next.cues) == Unnumbered(lists.cues) + CuesHeard(world, ran)
    && next.languages == lists.languages + LanguagesHeard(world, ran)
  }

  lemma HearsNothing(world: World, lists: Lists)
    ensures Hears(world, lists, lists, [])
  {
  }

  lemma {:induction false} HeardAppend(world: World, a: seq<Window>, b: seq<Window>)
    ensures CuesHeard(world, a + b) == CuesHeard(world, a) + CuesHeard(world, b)
    ensures LanguagesHeard(world, a + b) == LanguagesHeard(world, a) + LanguagesHeard(world, b)
    decreases |a|
  {
    hide CueHeard, LanguageHeard;
    if a == [] {
      assert a + b == b;
    } else {
      assert (a + b)[1..] == a[1..] + b;
      HeardAppend(world, a[1..], b);
    }
  }

  lemma HearsJoin(world: World, lists: Lists, mid: Lists, next: Lists, a: seq<Window>, b: seq<Window>)
    requires Hears(world, lists, mid, a) && Hears(world, mid, next, b)
    ensures Hears(world, lists, next, a + b)
  {
    hide CuesHeard, LanguagesHeard, Unnumbered;
    HeardAppend(world, a, b);
  }

  lemma WindowIsHeard(task: Task, world: World, lists: Lists, window: Window)
    requires RunChunk(task, world, window).Got? && lists.HasRoom(RunChunk(task, world, window).piece)
    ensures Hears(world, lists, lists.With(RunChunk(task, world, window).piece), [window])
  {
    assert [window][1..] == [];
  }

  lemma {:induction false} SegmentHears(task: Task, world: World, segment: Segment, cursor: U64, lists: Lists)
    requires WalkSegment(task, world, segment, cursor, lists).progress.Going?
    ensures var trace := WalkSegment(task, world, segment, cursor, lists);
            Hears(world, lists, trace.progress.lists, trace.ran)
    decreases segment.endUs - cursor
  {
    if cursor >= segment.endUs {
      HearsNothing(world, lists);
      return;
    }
    WalkGoesOn(task, world, segment, cursor, lists);
    hide *;
    var window := WindowAt(segment, cursor, |lists.coverages|);
    var piece := RunChunk(task, world, window).piece;
    var rest := WalkSegment(task, world, segment, piece.coverage.endUs, lists.With(piece));
    WindowIsHeard(task, world, lists, window);
    SegmentHears(task, world, segment, piece.coverage.endUs, lists.With(piece));
    HearsJoin(world, lists, lists.With(piece), rest.progress.lists, [window], rest.ran);
  }

  lemma {:induction false} AllHear(task: Task, world: World, segments: seq<Segment>, lists: Lists)
    requires WalkAll(task, world, segments, lists).progress.Going?
    ensures var trace := WalkAll(task, world, segments, lists);
            Hears(world, lists, trace.progress.lists, trace.ran)
    decreases |segments|
  {
    hide WalkSegment, Hears;
    if segments == [] {
      HearsNothing(world, lists);
    } else {
      var first := WalkSegment(task, world, segments[0], segments[0].startUs, lists);
      var rest := WalkAll(task, world, segments[1..], first.progress.lists);
      SegmentHears(task, world, segments[0], segments[0].startUs, lists);
      AllHear(task, world, segments[1..], first.progress.lists);
      HearsJoin(world, lists, first.progress.lists, rest.progress.lists, first.ran, rest.ran);
    }
  }

  /**
   A successful job published what the executor answered for each window that ran, in order:
   its coverage, all of its cues but for their numbers, and its language where it had cues.
   */
  lemma SuccessPublishesTheRuns(task: Task, world: World)
    requires Ended(task, world).0.Some? && Ended(task, world).0.value.outcome.Succeeded?
    ensures var (reaped, ran) := (Ended(task, world).0.value, Ended(task, world).1);
            && FromRuns(world, reaped.outcome.coverages, ran)
            && Unnumbered(reaped.outcome.cues) == CuesHeard(world, ran)
            && reaped.languages == LanguagesHeard(world, ran)
  {
    hide WalkAll, FromRuns, CuesHeard, LanguagesHeard;
    var trace := WalkAll(task, world, task.segments, NOTHING);
    if trace.progress.Halted? {
      HaltedNeverSucceeds(task, world, task.segments, NOTHING);
    }
    var covers := AllFromRuns(task, world, task.segments, NOTHING);
    assert trace.progress.lists.coverages == covers;
    AllHear(task, world, task.segments, NOTHING);
  }

  // ---- cancellation ----

  /**
   Why a walk that began with `before` coverages ended as cancelled: the signal stood at the
   window it was about to form, or the executor answered so for the last window that ran.
   */
  ghost predicate CancelCause(world: World, before: nat, trace: Trace) {
    || world.cancelled(before + |trace.ran|)
    || (trace.ran != [] && var answer := world.execute(trace.ran[|trace.ran| - 1]);
                           answer.Answered? && answer.result.RanCancelled?)
  }

  lemma AcceptedAdvances(piece: Piece, window: Window)
    requires WindowAccepted(piece, window)
    ensures window.startUs < piece.coverage.endUs <= window.endUs
  {
  }

  lemma {:induction false} SegmentCancelCause(task: Task, world: World, segment: Segment, cursor: U64, lists: Lists)
    requires WalkSegment(task, world, segment, cursor, lists).progress.Halted?
    requires WalkSegment(task, world, segment, cursor, lists).progress.reaped.outcome.Cancelled?
    ensures CancelCause(world, |lists.coverages|, WalkSegment(task, world, segment, cursor, lists))
    decreases segment.endUs - cursor
  {
    hide WindowAccepted;
    var count := |lists.coverages|;
    if !world.cancelled(count) && CoveragesFitOnePage(world, count + 1) {
      var window := WindowAt(segment, cursor, count);
      var step := RunChunk(task, world, window);
      if step.Got? {
        AcceptedAdvances(step.piece, window);
        SegmentCancelCause(task, world, segment, step.piece.coverage.endUs, lists.With(step.piece));
      }
    }
  }

  lemma CauseLater(world: World, before: nat, first: seq<Window>, rest: Trace)
    requires CancelCause(world, before + |first|, rest)
    ensures CancelCause(world, before, Trace(rest.progress, first + rest.ran))
  {
    assert before + |first| + |rest.ran| == before + |first + rest.ran|;
  }

  lemma {:induction false} AllCancelCause(task: Task, world: World, segments: seq<Segment>, lists: Lists)
    requires WalkAll(task, world, segments, lists).progress.Halted?
    requires WalkAll(task, world, segments, lists).progress.reaped.outcome.Cancelled?
    ensures CancelCause(world, |lists.coverages|, WalkAll(task, world, segments, lists))
    decreases |segments|
  {
    hide WalkSegment, CancelCause;
    var first := WalkSegment(task, world, segments[0], segments[0].startUs, lists);
    if first.progress.Going? {
      var gained := SegmentFromRuns(task, world, segments[0], segments[0].startUs, lists);
      assert |first.progress.lists.coverages| == |lists.coverages| + |first.ran|;
      AllCancelCause(task, world, segments[1..], first.progress.lists);
      CauseLater(world, |lists.coverages|, first.ran, WalkAll(task, world, segments[1..], first.progress.lists));
    } else {
      SegmentCancelCause(task, world, segments[0], segments[0].startUs, lists);
    }
  }

  /**
   A job never ends as cancelled unless the signal stood when it stopped, after as many
   windows as ran, or the last of them was answered as cancelled.
   */
  lemma CancelledHasCause(task: Task, world: World)
    requires Ended(task, world).0.Some? && Ended(task, world).0.value.outcome.Cancelled?
    ensures var ran := Ended(task, world).1;
            || world.cancelled(|ran|)
            || (ran != [] && world.execute(ran[|ran| - 1]).Answered?
                && world.execute(ran[|ran| - 1]).result.RanCancelled?)
  {
    hide WalkAll;
    AllCancelCause(task, world, task.segments, NOTHING);
  }

  // ---- windows and their trims ----

  /** The trim's offset and length give the window back. */
  lemma TrimReconstructs(segment: Segment, window: Window)
    requires ChunkTrim(segment, window).Some?
    ensures var (offset, slice) := ChunkTrim(segment, window).value;
            && window.startUs == segment.startUs + offset
            && window.endUs == (if slice.None? then segment.endUs else segment.startUs + offset + slice.value)
            && (slice.None? <==> offset == 0 && window.endUs == segment.endUs)
  {
  }

  lemma {:induction false} FindsItself(segments: seq<Segment>, s: nat)
    requires DistinctOrdinals(segments) && s < |segments|
    ensures FirstWith(segments, segments[s].ordinal) == Some(segments[s])
  {
    if s > 0 {
      assert DistinctOrdinals(segments[1..]);
      assert segments[1..][s - 1] == segments[s];
      FindsItself(segments[1..], s - 1);
    }
  }

  /** With distinct ordinals every window the walk forms finds its segment and passes its trim. */
  lemma FormedWindowPasses(task: Task, world: World, s: nat, cursor: U64, ordinal: U32)
    requires DistinctOrdinals(task.segments) && s < |task.segments|
    requires task.segments[s].startUs <= cursor < task.segments[s].endUs
    ensures var window := WindowAt(task.segments[s], cursor, ordinal);
            && task.SegmentFor(window.interval) == Some(task.segments[s])
            && ChunkTrim(task.segments[s], window).Some?
            && window.startUs == cursor < window.endUs <= cursor + CHUNK_US
            && (Ran(task, world, window) <==> world.execute(window).Answered?)
  {
    FindsItself(task.segments, s);
  }
}
