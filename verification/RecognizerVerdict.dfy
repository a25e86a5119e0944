/**
 How a recognition job ends, decided by the answers alone: the exact condition of success,
 and the failure of the first window that is not as it should be.
 */
module RecognizerVerdict {
  import opened Prelude
  import opened Recognizer
  import opened RecognizerWalk

  datatype Verdict = Finishes | Ends(outcome: Outcome) | Breaks

  /**
   The answer for the window at `at`: one coverage of the segment that starts there and ends
   behind it, within the segment and thirty seconds; cues inside it; at most one language,
   with a code if there are cues.
   */
  predicate IsGood(segment: Segment, at: nat, coverages: seq<Coverage>, cues: seq<Cue>, languages: seq<Language>) {
    && |coverages| == 1 && |languages| <= 1
    && coverages[0].interval == segment.ordinal && coverages[0].source == segment.source
    && coverages[0].startUs == at
    && at < coverages[0].endUs <= segment.endUs && coverages[0].endUs <= at + 30_000_000
    && (forall i :: 0 <= i < |cues| ==> at <= cues[i].startUs < cues[i].endUs <= coverages[0].endUs)
    && (cues != [] && languages != [] ==> languages[0].code != "")
  }

  /** The cues can be numbered on from `heard` in 32 bits. */
  predicate CanNumber(heard: nat, cues: seq<Cue>) {
    heard <= 0xFFFF_FFFF && (cues != [] ==> heard + |cues| <= 0x1_0000_0000)
  }

  function Start(segments: seq<Segment>): U64 {
    if segments == [] then 0 else segments[0].startUs
  }

  /** Segments are walked from `at` in the first of them, after `count` windows with `heard` cues in all. */
  ghost function VerdictOf(world: World, segments: seq<Segment>, at: U64, count: nat, heard: nat): Verdict
    decreases |segments|, if segments == [] then 0 else Max(segments[0].endUs - at, 0)
  {
    if segments == [] then Finishes
    else
      var segment := segments[0];
      if at >= segment.endUs then VerdictOf(world, segments[1..], Start(segments[1..]), count, heard)
      else if world.cancelled(count) then Ends(Cancelled)
      else if count >= 1024 || !world.pageFits(count + 1) then Ends(Failed(InvalidOutput))
      else
        match world.execute(Window(count, segment.ordinal, at, Min(at + 30_000_000, segment.endUs), segment.source))
        case Unsealed => Ends(Failed(RecognizerFailed))
        case Broken => Breaks
        case Answered(RanFailed(failure), _, _) => Ends(Failed(failure))
        case Answered(RanCancelled, _, _) => Ends(Cancelled)
        case Answered(RanOk(coverages, cues, languages), _, _) =>
          if !IsGood(segment, at, coverages, cues, languages) then Ends(Failed(InvalidOutput))
          else if !CanNumber(heard, cues) then Breaks
          else VerdictOf(world, segments, coverages[0].endUs, count + 1, heard + |cues|)
  }

  /** What the walk of a segment says of the whole. */
  ghost function After(world: World, progress: Progress, later: seq<Segment>): Verdict {
    match progress
    case Faulted => Breaks
    case Halted(reaped) => Ends(reaped.outcome)
    case Going(lists) => VerdictOf(world, later, Start(later), |lists.coverages|, |lists.cues|)
  }

  lemma {:induction false} SegmentVerdict(task: Task, world: World, s: nat, cursor: U64, lists: Lists)
    requires DistinctOrdinals(task.segments) && s < |task.segments|
    requires task.segments[s].startUs <= cursor
    ensures VerdictOf(world, task.segments[s..], cursor, |lists.coverages|, |lists.cues|)
         == After(world, WalkSegment(task, world, task.segments[s], cursor, lists).progress, task.segments[s + 1..])
    decreases task.segments[s].endUs - cursor
  {
    hide WindowAccepted, RunChunk, IsGood, CanNumber;
    var segment := task.segments[s];
    assert task.segments[s..][0] == segment && task.segments[s..][1..] == task.segments[s + 1..];
    if cursor < segment.endUs && !world.cancelled(|lists.coverages|)
       && CoveragesFitOnePage(world, |lists.coverages| + 1) {
      var window := WindowAt(segment, cursor, |lists.coverages|);
      FormedWindowPasses(task, world, s, cursor, |lists.coverages|);
      AnswerDecides(task, world, segment, window, lists);
      var step := RunChunk(task, world, window);
      if step.Got? && WindowAccepted(step.piece, window) && lists.HasRoom(step.piece) {
        AcceptedAdvances(step.piece, window);
        SegmentVerdict(task, world, s, step.piece.coverage.endUs, lists.With(step.piece));
      }
    }
  }

  /** A formed window is accepted exactly when its answer is good. */
  lemma AnswerDecides(task: Task, world: World, segment: Segment, window: Window, lists: Lists)
    requires segment.startUs <= window.startUs < segment.endUs
    requires window == WindowAt(segment, window.startUs, window.ordinal)
    requires task.SegmentFor(segment.ordinal) == Some(segment) && ChunkTrim(segment, window).Some?
    ensures var step := RunChunk(task, world, window);
            match world.execute(window)
            case Unsealed => step == Stop(Refused(RecognizerFailed))
            case Broken => step == Fault
            case Answered(RanFailed(failure), _, _) => step.Stop? && step.reaped.outcome == Failed(failure)
            case Answered(RanCancelled, _, _) => step.Stop? && step.reaped.outcome == Cancelled
            case Answered(RanOk(coverages, cues, languages), _, _) =>
              if IsGood(segment, window.startUs, coverages, cues, languages)
              then
                && step.Got? && WindowAccepted(step.piece, window)
                && (lists.HasRoom(step.piece) <==> CanNumber(|lists.cues|, cues))
                && step.piece.cues == cues && step.piece.coverage.endUs == coverages[0].endUs
              else if step.Got? then !WindowAccepted(step.piece, window)
              else step.Stop? && step.reaped.outcome == Failed(InvalidOutput)
  {
  }

  /** A window outside the first segment with its ordinal never runs; with distinct ordinals none is formed. */
  lemma OutsideNeverRuns(task: Task, world: World, window: Window, f: nat)
    requires f < |task.segments| && task.segments[f].ordinal == window.interval
    requires forall i :: 0 <= i < f ==> task.segments[i].ordinal != window.interval
    requires var segment := task.segments[f];
             || window.source != segment.source || window.startUs < segment.startUs
             || window.endUs > segment.endUs || window.endUs <= window.startUs
    ensures RunChunk(task, world, window) == Stop(Reaped(Failed(RecognizerFailed), [], []))
    ensures !Ran(task, world, window)
  {
    FirstIsFound(task.segments, f);
  }

  lemma {:induction false} FirstIsFound(segments: seq<Segment>, f: nat)
    requires f < |segments| && forall i :: 0 <= i < f ==> segments[i].ordinal != segments[f].ordinal
    ensures FirstWith(segments, segments[f].ordinal) == Some(segments[f])
  {
    if f > 0 {
      assert segments[1..][f - 1] == segments[f];
      FirstIsFound(segments[1..], f - 1);
    }
  }

  lemma {:induction false} AllVerdict(task: Task, world: World, s: nat, lists: Lists)
    requires DistinctOrdinals(task.segments) && s <= |task.segments|
    ensures VerdictOf(world, task.segments[s..], Start(task.segments[s..]), |lists.coverages|, |lists.cues|)
         == After(world, WalkAll(task, world, task.segments[s..], lists).progress, [])
    decreases |task.segments| - s
  {
    var left := task.segments[s..];
    hide WalkSegment;
    if left != [] {
      assert left[0] == task.segments[s] && left[1..] == task.segments[s + 1..];
      SegmentVerdict(task, world, s, left[0].startUs, lists);
      var first := WalkSegment(task, world, left[0], left[0].startUs, lists).progress;
      if first.Going? {
        AllVerdict(task, world, s + 1, first.lists);
      }
    }
  }

  /** The verdict of a job, from its first window on. */
  ghost function JobVerdict(task: Task, world: World): Verdict {
    if !task.profileMatches then Ends(Failed(ProfileUnavailable))
    else if task.planned == 0 || task.segments == [] then Ends(Failed(InputUnavailable))
    else VerdictOf(world, task.segments, Start(task.segments), 0, 0)
  }

  /** Every job ends as its verdict says: with success exactly when all answers are good, else by the first bad one. */
  lemma EndsByVerdict(task: Task, world: World)
    requires DistinctOrdinals(task.segments)
    ensures Ended(task, world).0.None? <==> JobVerdict(task, world).Breaks?
    ensures Ended(task, world).0.Some? && Ended(task, world).0.value.outcome.Succeeded? <==>
              JobVerdict(task, world).Finishes?
    ensures forall outcome :: JobVerdict(task, world) == Ends(outcome) <==>
              Ended(task, world).0.Some? && !outcome.Succeeded? && Ended(task, world).0.value.outcome == outcome
  {
    if task.profileMatches && task.planned != 0 && task.segments != [] {
      assert task.segments[0..] == task.segments;
      AllVerdict(task, world, 0, NOTHING);
      if WalkAll(task, world, task.segments, NOTHING).progress.Halted? {
        HaltedNeverSucceeds(task, world, task.segments, NOTHING);
      }
    }
  }
}
