/**
 The live bound is exact: at every turn that leaves the counter no room for it, some list
 of waiting jobs and some requeued arrivals keep a live job waiting for ever.
 */
module FairStarvation {
  import opened Prelude
  import opened Text
  import opened Fairness
  import opened FairnessRuns
  import opened FairScheduler

  // ---- a crowd: a live job in every source, and one batch job ----

  ghost predicate SourceWaits(now: seq<Candidate>, source: string) {
    exists c :: c in now && c.kind == Live && c.source == source
  }

  /** Every source has live work, `b` is the only batch job, and all IDs differ. */
  ghost predicate Crowded(now: seq<Candidate>, names: set<string>, j: Candidate, b: Candidate) {
    && DistinctIds(now)
    && j in now && j.kind == Live && b in now && b.kind == Batch
    && (forall c :: c in now && c.kind == Batch ==> c == b)
    && LiveWithin(now, names)
    && (forall y :: y in names ==> SourceWaits(now, y))
  }

  /** What is requeued after a claim: the claimed job, unless it stood ahead of `j`. */
  function Requeued(c: Candidate, j: Candidate): seq<Candidate> {
    if InFront(c, j) then [] else [c]
  }

  /** The unreserved turns left before the counter saturates. */
  function Free(turn: U64): nat {
    3 * (U64_MAX + 1 - turn) / SHARE_PERIOD
  }

  /** The free turns run out before all jobs and sources ahead of `j` are served. */
  ghost predicate RunsOut(now: seq<Candidate>, memory: Memory, names: set<string>, j: Candidate) {
    && memory.lastLive.Some? && memory.lastLive.value in names
    && Free(memory.turn) < LiveSteps(now, memory, j, names)
  }

  lemma FreeStep(memory: Memory, pick: Pick)
    ensures memory.Reserved() ==> Free(memory.After(pick).turn) == Free(memory.turn)
    ensures !memory.Reserved() ==> Free(memory.After(pick).turn) == Free(memory.turn) - 1
  {
    var q, r := memory.turn / SHARE_PERIOD, memory.turn % SHARE_PERIOD;
    assert memory.turn == 4 * q + r;
    if memory.turn < U64_MAX {
      assert memory.After(pick).turn == 4 * q + r + 1;
    }
  }

  /** No room for the live bound means too few free turns for its steps. */
  lemma NoRoomIsTooFewFree(turn: U64, sources: nat, ahead: nat)
    requires turn + LiveBound(sources, ahead) > U64_MAX + 1
    ensures Free(turn) < sources * (ahead + 1)
  {
    var steps := sources * (ahead + 1);
    assert LiveBound(sources, ahead) == steps + (steps + 2) / 3;
  }

  // ---- the walk round the sources loses one step a claim, and no more ----

  lemma ArcAround(names: set<string>, s: string)
    requires s in names
    ensures Distance(names, Some(s), s) == |names|
  {
    LessIrreflexive(s);
    forall x | x in names && x != s ensures Sooner(s, x, s) {
      LessTotal(s, x);
    }
    assert Arc(names, s, s) == names;
  }

  /** Serving the next source `y` brings `s` one step nearer and no more. */
  lemma DistanceFallsByOne(names: set<string>, last: string, y: string, s: string)
    requires y in names && s in names && y != s
    requires forall x :: x in names && x != y ==> Sooner(last, y, x)
    ensures Distance(names, Some(last), s) <= Distance(names, Some(y), s) + 1
  {
    forall x | x in Arc(names, last, s) && x != y ensures x in Arc(names, y, s) {
      if x != s {
        StillSooner(last, y, x, s);
      }
    }
    SubsetSize(Arc(names, last, s), Arc(names, y, s) + {y});
  }

  lemma StillSooner(last: string, y: string, x: string, s: string)
    requires Sooner(last, y, x) && Sooner(last, x, s) && x != s && y != x && y != s
    ensures Sooner(y, x, s)
  {
    LessTotal(y, x);
    LessTotal(y, s);
    LessTotal(x, s);
    LessTotal(last, x);
    LessTotal(last, y);
    LessTotal(last, s);
    LessIrreflexive(y);
    LessIrreflexive(x);
    LessIrreflexive(s);
    if Less(y, x) && Less(x, s) { LessTransitive(y, x, s); }
    if Less(y, s) && Less(s, y) { LessTransitive(y, s, y); }
    if Less(x, s) && Less(s, x) { LessTransitive(x, s, x); }
    if Less(last, y) && Less(y, s) { LessTransitive(last, y, s); }
    if Less(last, y) && Less(y, x) { LessTransitive(last, y, x); }
    if Less(last, x) && Less(x, s) { LessTransitive(last, x, s); }
    if Less(x, y) && Less(y, x) { LessTransitive(x, y, x); }
    if Less(s, y) && Less(y, x) { LessTransitive(s, y, x); }
    if Less(x, s) && Less(s, y) { LessTransitive(x, s, y); }
  }

  // ---- one claim ----

  /** On a reserved turn the batch job is taken and requeued. */
  lemma ReservedRound(now: seq<Candidate>, memory: Memory, names: set<string>, j: Candidate, b: Candidate)
    requires Crowded(now, names, j, b) && memory.Reserved()
    ensures TheChoice(now, memory) == b
  {
    assert Waits(now, Batch);
  }

  /** On a free turn the next source is served, and `j` only when it is next and nothing is ahead of it. */
  lemma FreeRound(now: seq<Candidate>, memory: Memory, names: set<string>, j: Candidate, b: Candidate)
    requires Crowded(now, names, j, b) && !memory.Reserved()
    requires memory.lastLive.Some? && memory.lastLive.value in names
    requires LiveSteps(now, memory, j, names) >= 2
    ensures var c := TheChoice(now, memory);
            && c != j && c.kind == Live && c in now
            && (c.source == j.source ==> InFront(c, j) && Distance(names, memory.lastLive, j.source) == 1)
            && (c.source != j.source ==>
                  Distance(names, memory.lastLive, j.source) <= Distance(names, Some(c.source), j.source) + 1)
  {
    var c, last := TheChoice(now, memory), memory.lastLive.value;
    assert Waits(now, Live);
    assert IsRotation(now, Live, memory.lastLive, c);
    NextServed(now, names, last, c);
    if c.source == j.source {
      OnlyOneAway(names, last, j.source);
      if c == j {
        NothingAhead(now, memory, names, j);
      } else {
        MinimumInFront(now, c, j);
      }
    } else {
      DistanceFallsByOne(names, last, c.source, j.source);
    }
  }

  lemma NextServed(now: seq<Candidate>, names: set<string>, last: string, c: Candidate)
    requires IsRotation(now, Live, Some(last), c)
    requires forall y :: y in names ==> SourceWaits(now, y)
    ensures forall x :: x in names && x != c.source ==> Sooner(last, c.source, x)
  {
    forall x | x in names && x != c.source ensures Sooner(last, c.source, x) {
      assert SourceWaits(now, x);
    }
  }

  lemma OnlyOneAway(names: set<string>, last: string, s: string)
    requires s in names && forall x :: x in names && x != s ==> Sooner(last, s, x)
    ensures Distance(names, Some(last), s) == 1
  {
    forall x | x in Arc(names, last, s) ensures x == s {
      if x != s {
        LessTotal(x, s);
        if Less(x, s) && Less(s, x) {
          LessTransitive(x, s, x);
          LessIrreflexive(x);
        }
      }
    }
    assert Arc(names, last, s) == {s};
  }

  lemma NothingAhead(now: seq<Candidate>, memory: Memory, names: set<string>, j: Candidate)
    requires IsSourceMinimum(now, j) && j.kind == Live
    ensures LiveSteps(now, memory, j, names) == Distance(names, memory.lastLive, j.source)
  {
    assert Ahead(now, j) == {};
    assert |names| * |Ahead(now, j)| == 0;
  }

  lemma MinimumInFront(now: seq<Candidate>, c: Candidate, j: Candidate)
    requires DistinctIds(now) && IsSourceMinimum(now, c) && j in now && c != j
    requires c.kind == j.kind == Live && c.source == j.source
    ensures InFront(c, j)
  {
    BeforeIsStrict(Live, c, j, c);
  }

  /** The crowd stands again after a claim of another job than `j`. */
  lemma CrowdedAgain(now: seq<Candidate>, names: set<string>, j: Candidate, b: Candidate, c: Candidate)
    requires Crowded(now, names, j, b) && c in now && c != j
    ensures Crowded(Without(now, c.id) + Requeued(c, j), names, j, b)
    ensures Ahead(Without(now, c.id) + Requeued(c, j), j) == Ahead(now, j) - (if InFront(c, j) then {c} else {})
    ensures forall d :: d in Requeued(c, j) ==> d.id != j.id && !InFront(d, j) && (d.kind == Live ==> d.source in names)
  {
    var left, next := Without(now, c.id), Without(now, c.id) + Requeued(c, j);
    WithoutOne(now, c);
    SameId(now, c);
    assert forall d :: d in next <==> d in now && (InFront(c, j) ==> d != c);
    RequeuedDistinct(now, c);
    forall y | y in names ensures SourceWaits(next, y) {
      assert SourceWaits(now, y);
      var d :| d in now && d.kind == Live && d.source == y;
      assert if InFront(c, j) && d == c then j in next && j.source == y else d in next;
    }
  }

  lemma SameId(now: seq<Candidate>, c: Candidate)
    requires DistinctIds(now) && c in now
    ensures forall d :: d in now && d.id == c.id ==> d == c
  {
  }

  lemma RequeuedDistinct(now: seq<Candidate>, c: Candidate)
    requires DistinctIds(now) && c in now
    ensures DistinctIds(Without(now, c.id)) && DistinctIds(Without(now, c.id) + [c])
  {
    WithoutOne(now, c);
    var left := Without(now, c.id);
    assert forall i :: 0 <= i < |left| ==> left[i] in left;
  }

  /** One claim keeps the crowd, passes `j` over, and leaves too few free turns again. */
  lemma RoundPassesOver(now: seq<Candidate>, memory: Memory, names: set<string>, j: Candidate, b: Candidate)
    requires Crowded(now, names, j, b) && RunsOut(now, memory, names, j)
    ensures var c := TheChoice(now, memory);
            && c in now && c != j
            && RunsOut(Without(now, c.id) + Requeued(c, j), memory.After(PickFrom(c)), names, j)
  {
    var c := TheChoice(now, memory);
    var next := Without(now, c.id) + Requeued(c, j);
    FreeStep(memory, PickFrom(c));
    if memory.Reserved() {
      ReservedRound(now, memory, names, j, b);
      CrowdedAgain(now, names, j, b, c);
    } else {
      FreeRound(now, memory, names, j, b);
      CrowdedAgain(now, names, j, b, c);
      ArcAround(names, j.source);
      if InFront(c, j) {
        AheadByOne(|names|, Ahead(now, j), c);
      }
    }
  }

  lemma AheadByOne(n: nat, ahead: set<Candidate>, c: Candidate)
    requires c in ahead
    ensures n * |ahead - {c}| + n == n * |ahead|
  {
    assert |ahead - {c}| == |ahead| - 1;
    assert n * |ahead| == n * (|ahead| - 1) + n;
  }

  // ---- whole runs ----

  /** `j` is taken by none of the claims. */
  ghost predicate NeverTaken(claims: seq<Claim>, j: Candidate) {
    forall m :: 0 <= m < |claims| ==> claims[m].taken != j
  }

  ghost predicate Unique(claims: seq<Claim>) {
    forall m :: 0 <= m < |claims| ==> DistinctIds(claims[m].waiting)
  }

  ghost predicate ArriveWithin(arrivals: seq<seq<Candidate>>, names: set<string>) {
    forall i :: 0 <= i < |arrivals| ==> LiveWithin(arrivals[i], names)
  }

  /** Requeueing what was taken starves `j` through any number of claims. */
  lemma {:induction false} CrowdStarves(waiting: seq<Candidate>, due: seq<Candidate>, memory: Memory,
                                        names: set<string>, j: Candidate, b: Candidate, rounds: nat)
    returns (arrivals: seq<seq<Candidate>>)
    requires Crowded(waiting + due, names, j, b) && RunsOut(waiting + due, memory, names, j)
    requires forall d :: d in due ==> d.id != j.id && !InFront(d, j) && (d.kind == Live ==> d.source in names)
    ensures |arrivals| == rounds && Harmless(arrivals, j) && ArriveWithin(arrivals, names)
    ensures var claims := Play(waiting, memory, arrivals);
            |claims| == rounds && NeverTaken(claims, j) && Unique(claims)
    decreases rounds
  {
    if rounds == 0 {
      return [];
    }
    var now := waiting + due;
    var c := TheChoice(now, memory);
    RoundPassesOver(now, memory, names, j, b);
    CrowdedAgain(now, names, j, b, c);
    var left, next := Without(now, c.id), memory.After(PickFrom(c));
    hide *;
    var rest := CrowdStarves(left, Requeued(c, j), next, names, j, b, rounds - 1);
    arrivals := [due] + rest;
    FirstArrivals(due, rest, names, j);
    assert arrivals[0] == due && arrivals[1..] == rest;
    PlayUnfold(waiting, memory, arrivals);
    FirstClaim(Play(waiting, memory, arrivals), now, names, j, b);
  }

  lemma FirstArrivals(due: seq<Candidate>, rest: seq<seq<Candidate>>, names: set<string>, j: Candidate)
    requires forall d :: d in due ==> d.id != j.id && !InFront(d, j) && (d.kind == Live ==> d.source in names)
    requires Harmless(rest, j) && ArriveWithin(rest, names)
    ensures Harmless([due] + rest, j) && ArriveWithin([due] + rest, names)
  {
    hide InFront;
  }

  lemma FirstClaim(claims: seq<Claim>, now: seq<Candidate>, names: set<string>, j: Candidate, b: Candidate)
    requires Crowded(now, names, j, b)
    requires claims != [] && claims[0].waiting == now && claims[0].taken != j
    requires NeverTaken(claims[1..], j) && Unique(claims[1..])
    ensures NeverTaken(claims, j) && Unique(claims)
  {
    hide DistinctIds;
    assert forall m :: 1 <= m < |claims| ==> claims[m] == claims[1..][m - 1];
  }

  // ---- a crowd for every number of sources and jobs ahead ----

  /** The job at a position has an ID of its own length. */
  ghost predicate Numbered(jobs: seq<Candidate>) {
    forall i :: 0 <= i < |jobs| ==> |jobs[i].id| == i + 1
  }

  lemma NumberedIsDistinct(jobs: seq<Candidate>)
    requires Numbered(jobs)
    ensures DistinctIds(jobs)
  {
  }

  function NextJob(jobs: seq<Candidate>, source: string, deadlineMs: I64): Candidate {
    Candidate(seq(|jobs| + 1, _ => 'a'), source, Live, 0, deadlineMs)
  }

  /** Adding a live job with a new ID. */
  lemma Joined(jobs: seq<Candidate>, j: Candidate, source: string, deadlineMs: I64)
    requires Numbered(jobs)
    ensures var c := NextJob(jobs, source, deadlineMs);
            && Numbered(jobs + [c]) && c !in jobs
            && Ahead(jobs + [c], j) == Ahead(jobs, j) + (if InFront(c, j) then {c} else {})
            && |Ahead(jobs + [c], j)| == |Ahead(jobs, j)| + (if InFront(c, j) then 1 else 0)
  {
    var c := NextJob(jobs, source, deadlineMs);
    assert forall d :: d in jobs + [c] <==> d in jobs || d == c;
    assert c !in Ahead(jobs, j);
  }

  /** Some crowd has `ahead` jobs in front of a live job of source `s`. */
  lemma CrowdExists(names: set<string>, s: string, ahead: nat)
    returns (waiting: seq<Candidate>, j: Candidate, b: Candidate)
    requires s in names
    ensures Crowded(waiting, names, j, b) && |Ahead(waiting, j)| == ahead && j.source == s
  {
    j, b := Candidate("a", s, Live, 0, 1), Candidate("aa", s, Batch, 0, 0);
    waiting := [j, b];
    assert Ahead(waiting, j) == {};
    for k := 0 to ahead
      invariant Numbered(waiting) && |Ahead(waiting, j)| == k
      invariant j in waiting && b in waiting && LiveWithin(waiting, names)
      invariant forall c :: c in waiting && c.kind == Batch ==> c == b
    {
      Joined(waiting, j, s, 0);
      waiting := waiting + [NextJob(waiting, s, 0)];
    }
    var left := names - {s};
    assert SourceWaits(waiting, s);
    while left != {}
      invariant left <= names - {s}
      invariant Numbered(waiting) && |Ahead(waiting, j)| == ahead
      invariant j in waiting && b in waiting && LiveWithin(waiting, names)
      invariant forall c :: c in waiting && c.kind == Batch ==> c == b
      invariant forall y :: y in names && y !in left ==> SourceWaits(waiting, y)
      decreases |left|
    {
      var y :| y in left;
      Joined(waiting, j, y, 0);
      var c, before := NextJob(waiting, y, 0), waiting;
      waiting := waiting + [c];
      forall x | x in names && x !in left - {y} ensures SourceWaits(waiting, x) {
        assert (x == y && c in waiting) || SourceWaits(before, x);
      }
      left := left - {y};
    }
    NumberedIsDistinct(waiting);
  }

  // ---- exactly when the bound holds ----

  /** The situations the live bound speaks about. */
  ghost predicate Scene(names: set<string>, ahead: nat, turn: U64, waiting: seq<Candidate>, memory: Memory,
                        arrivals: seq<seq<Candidate>>, j: Candidate) {
    && memory.turn == turn
    && j.kind == Live && OwnsId(waiting, j) && Harmless(arrivals, j) && |Ahead(waiting, j)| == ahead
    && LiveWithin(waiting, names) && ArriveWithin(arrivals, names)
  }

  /** In all of them, given claims enough, the job is taken within the bound. */
  ghost predicate BoundHolds(names: set<string>, ahead: nat, turn: U64) {
    forall waiting, memory, arrivals, j ::
      Scene(names, ahead, turn, waiting, memory, arrivals, j) && |arrivals| >= LiveBound(|names|, ahead) ==>
        TakenWithin(Play(waiting, memory, arrivals), j, LiveBound(|names|, ahead))
  }

  /** Arrivals of this length keep the job waiting, with a claim made every time and no ID used twice at once. */
  ghost predicate Starves(names: set<string>, ahead: nat, turn: U64, waiting: seq<Candidate>, memory: Memory,
                          j: Candidate, rounds: nat) {
    exists arrivals ::
      && Scene(names, ahead, turn, waiting, memory, arrivals, j) && |arrivals| == rounds
      && |Play(waiting, memory, arrivals)| == rounds
      && NeverTaken(Play(waiting, memory, arrivals), j) && Unique(Play(waiting, memory, arrivals))
  }

  /** From one waiting list and memory, the job can be kept waiting through any number of claims. */
  ghost predicate CanStarve(names: set<string>, ahead: nat, turn: U64) {
    exists waiting, memory, j :: StarvesForEver(names, ahead, turn, waiting, memory, j)
  }

  ghost predicate StarvesForEver(names: set<string>, ahead: nat, turn: U64, waiting: seq<Candidate>,
                                 memory: Memory, j: Candidate) {
    forall rounds: nat :: Starves(names, ahead, turn, waiting, memory, j, rounds)
  }

  lemma RoomIsEnough(names: set<string>, ahead: nat, turn: U64)
    requires turn + LiveBound(|names|, ahead) <= U64_MAX + 1
    ensures BoundHolds(names, ahead, turn)
  {
    hide LiveBound, Play, TakenWithin;
    forall waiting, memory, arrivals, j |
      Scene(names, ahead, turn, waiting, memory, arrivals, j) && |arrivals| >= LiveBound(|names|, ahead)
      ensures TakenWithin(Play(waiting, memory, arrivals), j, LiveBound(|names|, ahead))
    {
      LiveBoundedWait(waiting, memory, arrivals, j, names);
    }
  }

  /** Without room, for any sources and any number of jobs ahead, a live job can starve. */
  lemma NoRoomStarves(names: set<string>, ahead: nat, turn: U64)
    requires names != {} && turn + LiveBound(|names|, ahead) > U64_MAX + 1
    ensures CanStarve(names, ahead, turn)
  {
    var s :| s in names;
    var waiting, j, b := CrowdExists(names, s, ahead);
    var memory := Memory(turn, Some(s), None);
    ArcAround(names, s);
    NoRoomIsTooFewFree(turn, |names|, ahead);
    assert |names| * (ahead + 1) == |names| * ahead + |names|;
    assert RunsOut(waiting, memory, names, j);
    forall rounds: nat ensures Starves(names, ahead, turn, waiting, memory, j, rounds) {
      assert waiting + [] == waiting;
      var arrivals := CrowdStarves(waiting, [], memory, names, j, b, rounds);
      CrowdedOwns(waiting, names, j, b);
      assert Scene(names, ahead, turn, waiting, memory, arrivals, j);
    }
    assert StarvesForEver(names, ahead, turn, waiting, memory, j);
  }

  lemma CrowdedOwns(now: seq<Candidate>, names: set<string>, j: Candidate, b: Candidate)
    requires Crowded(now, names, j, b)
    ensures OwnsId(now, j)
  {
    SameId(now, j);
  }

  lemma NotBoth(names: set<string>, ahead: nat, turn: U64)
    requires CanStarve(names, ahead, turn)
    ensures !BoundHolds(names, ahead, turn)
  {
    var waiting, memory, j :| StarvesForEver(names, ahead, turn, waiting, memory, j);
    var bound := LiveBound(|names|, ahead);
    hide LiveBound, Play, Scene;
    assert Starves(names, ahead, turn, waiting, memory, j, bound);
  }

  /**
   The live bound holds exactly at the turns that leave room for it, and at every other turn
   there is no bound at all.
   */
  lemma LiveBoundIsExact(names: set<string>, ahead: nat, turn: U64)
    requires names != {}
    ensures BoundHolds(names, ahead, turn) <==> turn + LiveBound(|names|, ahead) <= U64_MAX + 1
    ensures CanStarve(names, ahead, turn) <==> turn + LiveBound(|names|, ahead) > U64_MAX + 1
  {
    hide *;
    if turn + LiveBound(|names|, ahead) <= U64_MAX + 1 {
      RoomIsEnough(names, ahead, turn);
      if CanStarve(names, ahead, turn) {
        NotBoth(names, ahead, turn);
      }
    } else {
      NoRoomStarves(names, ahead, turn);
      NotBoth(names, ahead, turn);
    }
  }
}
