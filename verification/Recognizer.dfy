/**
 The chunked recognition walk of `recognizer.rs`. A cursor moves through each retained
 segment; an executor that is not trusted decides how far each window reaches.
 */
module Recognizer {
  import opened Prelude

  const CHUNK_US: nat := 30_000_000
  const MAX_CHUNKS: nat := 1024

  datatype Segment = Segment(ordinal: U32, startUs: U64, endUs: U64, source: string)

  /** A window the walk hands to the executor. */
  datatype Window = Window(ordinal: U32, interval: U32, startUs: U64, endUs: U64, source: string)

  datatype Coverage = Coverage(ordinal: U32, interval: U32, startUs: U64, endUs: U64, source: string)

  datatype Cue = Cue(ordinal: U32, startUs: U64, endUs: U64, script: string)

  datatype Language = Language(ordinal: U32, interval: U32, startUs: U64, endUs: U64, code: string)

  /** A containment account, opaque to the walk. */
  type Account = string

  datatype Failure =
    | InputUnavailable | DecoderFailed | RecognizerFailed | Deadline | WorkerPanicked
    | ProfileUnavailable | LimitsUnavailable | InvalidOutput

  datatype Outcome = Succeeded(coverages: seq<Coverage>, cues: seq<Cue>) | Failed(failure: Failure) | Cancelled

  /** A completed job: its outcome and the accounts of every process group that drained. */
  datatype Reaped = Reaped(outcome: Outcome, languages: seq<Language>, observations: seq<Account>)

  datatype RunResult =
    | RanOk(coverages: seq<Coverage>, cues: seq<Cue>, languages: seq<Language>)
    | RanFailed(failure: Failure)
    | RanCancelled

  /**
   What happens to one window: its task description cannot be sealed and nothing runs, the
   executor or its envelope is broken, or it answers for processes that drained.
   */
  datatype Answer = Unsealed | Broken | Answered(result: RunResult, accounts: seq<Account>, hash: string)

  /** Everything the walk does not control. Windows carry their ordinal, so each call is its own. */
  datatype World = World(execute: Window -> Answer, cancelled: nat -> bool, pageFits: nat -> bool)

  datatype Task = Task(profileMatches: bool, planned: nat, segments: seq<Segment>) {
    /** The first segment with the ordinal. */
    function SegmentFor(ordinal: U32): Option<Segment> {
      FirstWith(segments, ordinal)
    }
  }

  function FirstWith(segments: seq<Segment>, ordinal: U32): Option<Segment> {
    if segments == [] then None
    else if segments[0].ordinal == ordinal then Some(segments[0])
    else FirstWith(segments[1..], ordinal)
  }

  function Refused(failure: Failure): Reaped {
    Reaped(Failed(failure), [], [])
  }

  function CancelledJob(): Reaped {
    Reaped(Cancelled, [], [])
  }

  function CoveragesFitOnePage(world: World, count: nat): bool {
    1 <= count <= MAX_CHUNKS && world.pageFits(count)
  }

  // ---- one window ----

  /** The offset of the window in its file, and its length unless it is the whole file. */
  function ChunkTrim(segment: Segment, window: Window): Option<(nat, Option<nat>)> {
    if window.interval == segment.ordinal && window.source == segment.source
       && window.startUs >= segment.startUs && window.endUs <= segment.endUs && window.endUs > window.startUs
    then
      var whole := window.startUs == segment.startUs && window.endUs == segment.endUs;
      Some((window.startUs - segment.startUs, if whole then None else Some(window.endUs - window.startUs)))
    else None
  }

  datatype Piece = Piece(coverage: Coverage, cues: seq<Cue>, language: Option<Language>, hash: string,
                         observations: seq<Account>)

  datatype ChunkStep = Stop(reaped: Reaped) | Got(piece: Piece) | Fault

  /** The executor's output as one piece: one coverage, and a language only when there are cues. */
  function OnePiece(window: Window, coverages: seq<Coverage>, cues: seq<Cue>, languages: seq<Language>,
                    hash: string): ChunkStep
  {
    if |coverages| != 1 || |languages| > 1 then Stop(Refused(InvalidOutput))
    else
      var coverage := coverages[0].(ordinal := window.ordinal);
      var language :=
        if cues != [] && languages != []
        then Some(Language(window.ordinal, coverage.interval, coverage.startUs, coverage.endUs, languages[0].code))
        else None;
      Got(Piece(coverage, cues, language, hash, []))
  }

  function AttachAccounts(step: ChunkStep, accounts: seq<Account>): ChunkStep {
    match step
    case Got(piece) => Got(piece.(observations := accounts))
    case Stop(reaped) => Stop(reaped.(observations := accounts))
    case Fault => Fault
  }

  function AbsorbChunk(window: Window, answer: Answer): ChunkStep
    requires answer.Answered?
  {
    var step :=
      match answer.result
      case RanOk(coverages, cues, languages) => OnePiece(window, coverages, cues, languages, answer.hash)
      case RanFailed(failure) => Stop(Refused(failure))
      case RanCancelled => Stop(CancelledJob());
    AttachAccounts(step, answer.accounts)
  }

  function RunChunk(task: Task, world: World, window: Window): ChunkStep {
    match task.SegmentFor(window.interval)
    case None => Stop(Refused(InputUnavailable))
    case Some(segment) =>
      if ChunkTrim(segment, window) == None then Stop(Refused(RecognizerFailed))
      else
        match world.execute(window)
        case Unsealed => Stop(Refused(RecognizerFailed))
        case Broken => Fault
        case Answered(_, _, _) => AbsorbChunk(window, world.execute(window))
  }

  /** Whether the executor was started for the window and answered. */
  predicate Ran(task: Task, world: World, window: Window) {
    var segment := task.SegmentFor(window.interval);
    segment.Some? && ChunkTrim(segment.value, window).Some? && world.execute(window).Answered?
  }

  predicate WindowAccepted(piece: Piece, window: Window) {
    var coverage := piece.coverage;
    && coverage.ordinal == window.ordinal
    && coverage.interval == window.interval
    && coverage.source == window.source
    && coverage.startUs == window.startUs
    && coverage.endUs > window.startUs
    && coverage.endUs <= window.endUs
    && (forall i :: 0 <= i < |piece.cues| ==>
          piece.cues[i].startUs >= coverage.startUs && piece.cues[i].endUs <= coverage.endUs
          && piece.cues[i].endUs > piece.cues[i].startUs)
    && (piece.language.Some? ==>
          var language := piece.language.value;
          && language.ordinal == coverage.ordinal
          && language.interval == coverage.interval
          && language.startUs == coverage.startUs
          && language.endUs == coverage.endUs
          && language.code != "")
  }

  // ---- what has been gathered ----

  /** The value of the gathered lists. */
  datatype Lists = Lists(coverages: seq<Coverage>, cues: seq<Cue>, languages: seq<Language>, hashes: seq<string>,
                         observations: seq<Account>) {

    /** The ordinals of the piece's cues still fit 32 bits. */
    predicate HasRoom(piece: Piece) {
      |cues| <= U32_MAX && (piece.cues != [] ==> |cues| + |piece.cues| - 1 <= U32_MAX)
    }

    function With(piece: Piece): Lists
      requires HasRoom(piece)
    {
      Lists(coverages + [piece.coverage],
            cues + Renumbered(piece.cues, |cues|),
            languages + (if piece.language.Some? then [piece.language.value] else []),
            hashes + [piece.hash],
            observations + piece.observations)
    }
  }

  const NOTHING: Lists := Lists([], [], [], [], [])

  function Renumbered(cues: seq<Cue>, base: nat): (r: seq<Cue>)
    requires cues != [] ==> base + |cues| - 1 <= U32_MAX
    ensures |r| == |cues|
    ensures forall i :: 0 <= i < |r| ==> r[i] == cues[i].(ordinal := base + i)
  {
    seq(|cues|, i requires 0 <= i < |cues| => cues[i].(ordinal := base + i))
  }

  class Gathered {
    var coverages: seq<Coverage>
    var cues: seq<Cue>
    var languages: seq<Language>
    var hashes: seq<string>
    var observations: seq<Account>

    constructor ()
      ensures Value() == NOTHING
    {
      coverages, cues, languages, hashes, observations := [], [], [], [], [];
    }

    function Value(): Lists
      reads this
    {
      Lists(coverages, cues, languages, hashes, observations)
    }

    /** Appends one piece, numbering its cues on; fails when a cue ordinal leaves 32 bits. */
    method Push(piece: Piece) returns (ok: bool)
      modifies this
      ensures ok == old(Value()).HasRoom(piece)
      ensures ok ==> Value() == old(Value()).With(piece)
      ensures ok ==> coverages == old(coverages) + [piece.coverage] && hashes == old(hashes) + [piece.hash]
      ensures ok ==> observations == old(observations) + piece.observations
    {
      coverages := coverages + [piece.coverage];
      var base := |cues|;
      if base > U32_MAX {
        return false;
      }
      ghost var before := cues;
      for offset := 0 to |piece.cues|
        invariant base + offset - 1 <= U32_MAX
        invariant languages == old(languages) && hashes == old(hashes) && observations == old(observations)
        invariant coverages == old(coverages) + [piece.coverage]
        invariant cues == before + Renumbered(piece.cues[..offset], base)
      {
        if base + offset > U32_MAX {
          return false;
        }
        RenumberedStep(piece.cues, offset, base);
        cues := cues + [piece.cues[offset].(ordinal := base + offset)];
      }
      assert piece.cues[..|piece.cues|] == piece.cues;
      if piece.language.Some? {
        languages := languages + [piece.language.value];
      }
      hashes := hashes + [piece.hash];
      observations := observations + piece.observations;
      return true;
    }
  }

  lemma RenumberedStep(cues: seq<Cue>, offset: nat, base: nat)
    requires offset < |cues| && base + offset <= U32_MAX
    ensures Renumbered(cues[..offset + 1], base)
         == Renumbered(cues[..offset], base) + [cues[offset].(ordinal := base + offset)]
  {
  }

  function Keep(lists: Lists, reaped: Reaped): Reaped {
    reaped.(observations := lists.observations + reaped.observations)
  }

  // ---- the walk ----

  datatype Progress = Going(lists: Lists) | Halted(reaped: Reaped) | Faulted

  /** How a walk ended, and the windows that ran, in order. */
  datatype Trace = Trace(progress: Progress, ran: seq<Window>)

  function WindowAt(segment: Segment, cursor: U64, ordinal: U32): Window
    requires cursor < segment.endUs
  {
    var heardEnd := Min(Min(cursor + CHUNK_US, U64_MAX), segment.endUs);
    Window(ordinal, segment.ordinal, cursor, heardEnd, segment.source)
  }

  /** The walk of one segment from a cursor on. */
  ghost function WalkSegment(task: Task, world: World, segment: Segment, cursor: U64, lists: Lists): Trace
    decreases segment.endUs - cursor
  {
    var count := |lists.coverages|;
    if cursor >= segment.endUs then Trace(Going(lists), [])
    else if world.cancelled(count) then Trace(Halted(Keep(lists, CancelledJob())), [])
    else if !CoveragesFitOnePage(world, count + 1) then Trace(Halted(Keep(lists, Refused(InvalidOutput))), [])
    else
      var window := WindowAt(segment, cursor, count);
      var ran := if Ran(task, world, window) then [window] else [];
      match RunChunk(task, world, window)
      case Fault => Trace(Faulted, ran)
      case Stop(reaped) => Trace(Halted(Keep(lists, reaped)), ran)
      case Got(piece) =>
        if !WindowAccepted(piece, window) then
          Trace(Halted(Keep(lists, Refused(InvalidOutput).(observations := piece.observations))), ran)
        else if !lists.HasRoom(piece) then Trace(Faulted, ran)
        else
          var rest := WalkSegment(task, world, segment, piece.coverage.endUs, lists.With(piece));
          Trace(rest.progress, ran + rest.ran)
  }

  /** The walk of the remaining segments. */
  ghost function WalkAll(task: Task, world: World, segments: seq<Segment>, lists: Lists): Trace
    decreases |segments|
  {
    if segments == [] then Trace(Going(lists), [])
    else
      var first := WalkSegment(task, world, segments[0], segments[0].startUs, lists);
      if !first.progress.Going? then first
      else
        var rest := WalkAll(task, world, segments[1..], first.progress.lists);
        Trace(rest.progress, first.ran + rest.ran)
  }

  method AdvanceSegment(task: Task, world: World, segment: Segment, gathered: Gathered)
    returns (stopped: Option<Reaped>, fault: bool, ghost ran: seq<Window>)
    modifies gathered
    ensures var progress := if fault then Faulted else if stopped.Some? then Halted(stopped.value)
                            else Going(gathered.Value());
            Trace(progress, ran) == WalkSegment(task, world, segment, segment.startUs, old(gathered.Value()))
  {
    ran := [];
    var cursor: U64 := segment.startUs;
    ghost var all := WalkSegment(task, world, segment, cursor, gathered.Value());
    while cursor < segment.endUs
      invariant var rest := WalkSegment(task, world, segment, cursor, gathered.Value());
                all == Trace(rest.progress, ran + rest.ran)
      decreases segment.endUs - cursor
    {
      ghost var rest := WalkSegment(task, world, segment, cursor, gathered.Value());
      ghost var before := ran;
      assert before + rest.ran == all.ran;
      if world.cancelled(|gathered.coverages|) {
        return Some(Keep(gathered.Value(), CancelledJob())), false, ran;
      }
      if !CoveragesFitOnePage(world, |gathered.coverages| + 1) {
        return Some(Keep(gathered.Value(), Refused(InvalidOutput))), false, ran;
      }
      var window := WindowAt(segment, cursor, |gathered.coverages|);
      if Ran(task, world, window) {
        ran := ran + [window];
      }
      var step := RunChunk(task, world, window);
      match step {
        case Fault =>
          return None, true, ran;
        case Stop(reaped) =>
          return Some(Keep(gathered.Value(), reaped)), false, ran;
        case Got(piece) =>
          if !WindowAccepted(piece, window) {
            var reaped := Refused(InvalidOutput).(observations := piece.observations);
            return Some(Keep(gathered.Value(), reaped)), false, ran;
          }
          cursor := piece.coverage.endUs;
          var ok := gathered.Push(piece);
          if !ok {
            return None, true, ran;
          }
          ghost var tail := WalkSegment(task, world, segment, cursor, gathered.Value());
          RanOn(before, if Ran(task, world, window) then [window] else [], tail.ran);
      }
    }
    return None, false, ran;
  }

  lemma RanOn(a: seq<Window>, b: seq<Window>, c: seq<Window>)
    ensures a + (b + c) == a + b + c
    ensures a + [] == a
  {
  }

  method Run(task: Task, world: World) returns (r: Option<Reaped>, ghost ran: seq<Window>)
    ensures r == Ended(task, world).0
    ensures ran == Ended(task, world).1
  {
    ran := [];
    if !task.profileMatches {
      return Some(Refused(ProfileUnavailable)), ran;
    }
    if task.planned == 0 || task.segments == [] {
      return Some(Refused(InputUnavailable)), ran;
    }
    var gathered := new Gathered();
    ghost var all := WalkAll(task, world, task.segments, NOTHING);
    assert task.segments[0..] == task.segments;
    for i := 0 to |task.segments|
      invariant var rest := WalkAll(task, world, task.segments[i..], gathered.Value());
                all == Trace(rest.progress, ran + rest.ran)
      invariant fresh(gathered)
    {
      ghost var left := task.segments[i..];
      assert left[0] == task.segments[i] && left[1..] == task.segments[i + 1..];
      ghost var before := ran;
      var stopped, fault;
      ghost var more;
      stopped, fault, more := AdvanceSegment(task, world, task.segments[i], gathered);
      ran := ran + more;
      if fault {
        return None, ran;
      }
      if stopped.Some? {
        return stopped, ran;
      }
      RanOn(before, more, WalkAll(task, world, left[1..], gathered.Value()).ran);
    }
    assert task.segments[|task.segments|..] == [];
    RanOn(ran, [], []);
    var lists := gathered.Value();
    return Some(FinishChunks(lists)), ran;
  }

  function FinishChunks(lists: Lists): Reaped {
    Reaped(Succeeded(lists.coverages, lists.cues), lists.languages, lists.observations)
  }

  /** How a job ends: its completion, or none when cleanup could not be shown, and what ran. */
  ghost function Ended(task: Task, world: World): (Option<Reaped>, seq<Window>) {
    if !task.profileMatches then (Some(Refused(ProfileUnavailable)), [])
    else if task.planned == 0 || task.segments == [] then (Some(Refused(InputUnavailable)), [])
    else
      var trace := WalkAll(task, world, task.segments, NOTHING);
      (match trace.progress
       case Faulted => None
       case Halted(reaped) => Some(reaped)
       case Going(lists) => Some(FinishChunks(lists)),
       trace.ran)
  }
}
