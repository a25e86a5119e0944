/**
 Runs of the claim chooser: what every run keeps, and how long a job can wait.
 A run alternates arrivals with claims; a claimed job leaves the waiting list.
 */
module FairnessRuns {
  import opened Prelude
  import opened Text
  import opened Fairness

  // ---- one claim is determined by the waiting jobs ----

  lemma ChoiceIsWaiting(waiting: seq<Candidate>, memory: Memory, c: Candidate)
    requires IsChoice(waiting, memory, c)
    ensures c in waiting
    ensures IsSourceMinimum(waiting, c)
  {
    if memory.Reserved() && Waits(waiting, Batch) {
      var i :| 0 <= i < |waiting| && IsFirstMinimum(waiting, Batch, i) && waiting[i] == c;
    }
  }

  lemma RotationUnique(waiting: seq<Candidate>, other: seq<Candidate>, kind: Class, last: Option<string>,
                       c: Candidate, d: Candidate)
    requires forall x :: x in waiting <==> x in other
    requires IsRotation(waiting, kind, last, c) && IsRotation(other, kind, last, d)
    ensures c == d
  {
    assert c in other && d in waiting;
    BeforeIsStrict(kind, c, d, c);
    if c.source != d.source {
      LessTotal(c.source, d.source);
      if Less(c.source, d.source) && Less(d.source, c.source) {
        LessTransitive(c.source, d.source, c.source);
        LessIrreflexive(c.source);
      }
    }
  }

  /** The chooser's answer is unique even when job IDs repeat. */
  lemma ChoiceUnique(waiting: seq<Candidate>, memory: Memory, c: Candidate, d: Candidate)
    requires IsChoice(waiting, memory, c) && IsChoice(waiting, memory, d)
    ensures c == d
  {
    if memory.Reserved() && Waits(waiting, Batch) {
      var i :| 0 <= i < |waiting| && IsFirstMinimum(waiting, Batch, i) && waiting[i] == c;
      var k :| 0 <= k < |waiting| && IsFirstMinimum(waiting, Batch, k) && waiting[k] == d;
      assert !Before(Batch, waiting[i], waiting[k]) && !Before(Batch, waiting[k], waiting[i]);
    } else {
      RotationUnique(waiting, waiting, if Waits(waiting, Live) then Live else Batch,
                     memory.LastSource(if Waits(waiting, Live) then Live else Batch), c, d);
    }
  }

  ghost predicate DistinctIds(waiting: seq<Candidate>) {
    forall i, k :: 0 <= i < k < |waiting| ==> waiting[i].id != waiting[k].id
  }

  /** With distinct IDs the answer depends on the set of waiting jobs, not on their order. */
  lemma ChoiceIgnoresOrder(waiting: seq<Candidate>, shuffled: seq<Candidate>, memory: Memory,
                           c: Candidate, d: Candidate)
    requires multiset(waiting) == multiset(shuffled) && DistinctIds(waiting)
    requires IsChoice(waiting, memory, c) && IsChoice(shuffled, memory, d)
    ensures c == d
  {
    forall x ensures x in waiting <==> x in shuffled {
      assert x in waiting <==> x in multiset(waiting);
      assert x in shuffled <==> x in multiset(shuffled);
    }
    assert Waits(shuffled, Batch) == Waits(waiting, Batch) && Waits(shuffled, Live) == Waits(waiting, Live);
    hide IsRotation, IsOldest, DistinctIds, Waits;
    if memory.Reserved() && Waits(waiting, Batch) {
      OldestIgnoresOrder(waiting, shuffled, c, d);
    } else {
      var kind := if Waits(waiting, Live) then Live else Batch;
      RotationUnique(waiting, shuffled, kind, memory.LastSource(kind), c, d);
    }
  }

  lemma OldestIgnoresOrder(waiting: seq<Candidate>, shuffled: seq<Candidate>, c: Candidate, d: Candidate)
    requires (forall x :: x in waiting <==> x in shuffled) && DistinctIds(waiting)
    requires IsOldest(waiting, Batch, c) && IsOldest(shuffled, Batch, d)
    ensures c == d
  {
    hide Before;
    var i :| 0 <= i < |waiting| && IsFirstMinimum(waiting, Batch, i) && waiting[i] == c;
    var k :| 0 <= k < |shuffled| && IsFirstMinimum(shuffled, Batch, k) && shuffled[k] == d;
    assert d in waiting && c in shuffled;
    var a :| 0 <= a < |waiting| && waiting[a] == d;
    var b :| 0 <= b < |shuffled| && shuffled[b] == c;
    BeforeIsStrict(Batch, c, d, c);
  }

  /** Something is chosen whenever something waits. */
  lemma ChoiceExists(waiting: seq<Candidate>, memory: Memory) returns (c: Candidate)
    requires waiting != []
    ensures IsChoice(waiting, memory, c)
  {
    assert waiting[0] in waiting && Waits(waiting, waiting[0].kind);
    var oldest := Oldest(waiting, Batch);
    if memory.Reserved() && oldest.Some? {
      c := waiting[oldest.value];
    } else {
      var kind := if Waits(waiting, Live) then Live else Batch;
      c := RotationExists(waiting, kind, memory.LastSource(kind));
    }
  }

  /** Scanning the list once, an element is replaced exactly by one the rotation prefers. */
  lemma {:induction false} RotationExists(waiting: seq<Candidate>, kind: Class, last: Option<string>)
    returns (c: Candidate)
    requires Waits(waiting, kind)
    ensures IsRotation(waiting, kind, last, c)
  {
    var n := |waiting| - 1;
    var x := waiting[n];
    assert waiting == waiting[..n] + [x];
    assert forall d :: d in waiting <==> d in waiting[..n] || d == x;
    if !Waits(waiting[..n], kind) {
      c := x;
      BeforeIsStrict(kind, x, x, x);
    } else {
      var best := RotationExists(waiting[..n], kind, last);
      c := if x.kind == kind && Preferred(kind, last, x, best) then x else best;
      forall d | d in waiting && d.kind == kind ensures !Preferred(kind, last, d, c) {
        if d in waiting[..n] {
          NoneIsPreferred(waiting[..n], kind, last, best, d);
        }
        PreferredIsOrder(kind, last, d, x, best);
        PreferredIsOrder(kind, last, x, x, best);
      }
      assert IsRotation(waiting, kind, last, c) by {
        forall d | d in waiting && d.kind == kind
          ensures d.source == c.source ==> !Before(kind, d, c)
          ensures last.Some? && d.source != c.source ==> Sooner(last.value, c.source, d.source)
          ensures last.None? ==> !Before(kind, d, c)
          ensures last.None? && SameRank(c, d) && c.source != d.source ==> Less(c.source, d.source)
        {
          LessTotal(c.source, d.source);
          BeforeIsStrict(kind, c, d, c);
        }
      }
    }
  }

  /** `x` wins against `y` in a rotation after `last`. */
  predicate Preferred(kind: Class, last: Option<string>, x: Candidate, y: Candidate) {
    match last
    case Some(source) =>
      if x.source == y.source then Before(kind, x, y) else Sooner(source, x.source, y.source)
    case None =>
      Before(kind, x, y) || (SameRank(x, y) && Less(x.source, y.source))
  }

  lemma NoneIsPreferred(waiting: seq<Candidate>, kind: Class, last: Option<string>, c: Candidate, d: Candidate)
    requires IsRotation(waiting, kind, last, c) && d in waiting && d.kind == kind
    ensures !Preferred(kind, last, d, c)
  {
    LessIrreflexive(c.source);
    LessTotal(c.source, d.source);
    if Less(c.source, d.source) && Less(d.source, c.source) {
      LessTransitive(c.source, d.source, c.source);
    }
  }

  /** `Preferred` is a strict weak order: a minimum stays one through a smaller element. */
  lemma PreferredIsOrder(kind: Class, last: Option<string>, d: Candidate, x: Candidate, best: Candidate)
    ensures !Preferred(kind, last, x, x)
    ensures Preferred(kind, last, x, best) && !Preferred(kind, last, d, best) ==> !Preferred(kind, last, d, x)
  {
    BeforeIsStrict(kind, d, x, best);
    BeforeIsStrict(kind, x, x, x);
    LessIrreflexive(x.source);
    if Less(d.source, x.source) && Less(x.source, best.source) {
      LessTransitive(d.source, x.source, best.source);
    }
    if Less(d.source, best.source) && Less(best.source, d.source) {
      LessTransitive(d.source, best.source, d.source);
      LessIrreflexive(d.source);
    }
    if Less(x.source, best.source) && Less(best.source, x.source) {
      LessTransitive(x.source, best.source, x.source);
    }
  }

  // ---- what a claim is, by the fields of the jobs ----

  /** Batch work is claimed on every fourth turn on which any waits, and on the others when nothing else does. */
  lemma ClassOfClaim(waiting: seq<Candidate>, memory: Memory, c: Candidate)
    requires IsChoice(waiting, memory, c)
    ensures c.kind == Batch <==>
              || (memory.turn % 4 == 3 && exists d :: d in waiting && d.kind == Batch)
              || forall d :: d in waiting ==> d.kind == Batch
  {
    ChoiceIsWaiting(waiting, memory, c);
    assert forall d :: d in waiting && d.kind == Batch ==> Waits(waiting, Batch);
    assert forall d :: d in waiting && d.kind == Live ==> Waits(waiting, Live);
  }

  /** Live claims go round the sources: to the least name above the last one, or the least of all when none is. */
  lemma ClaimedSourceIsNext(waiting: seq<Candidate>, memory: Memory, c: Candidate, d: Candidate)
    requires IsChoice(waiting, memory, c) && c.kind == Live && memory.lastLive.Some?
    requires d in waiting && d.kind == Live
    ensures var last := memory.lastLive.value;
            && (Less(last, c.source) ==> !Less(last, d.source) || !Less(d.source, c.source))
            && (!Less(last, c.source) ==> !Less(last, d.source) && !Less(d.source, c.source))
  {
    LessIrreflexive(c.source);
    if Less(d.source, c.source) && Less(c.source, d.source) {
      LessTransitive(d.source, c.source, d.source);
      LessIrreflexive(d.source);
    }
    if d.source != c.source {
      assert Sooner(memory.lastLive.value, c.source, d.source);
    }
  }

  /** The first live claim of all is due first in every source. */
  lemma FirstLiveClaim(waiting: seq<Candidate>, memory: Memory, c: Candidate, d: Candidate)
    requires IsChoice(waiting, memory, c) && c.kind == Live && memory.lastLive == None
    requires d in waiting && d.kind == Live
    ensures || c.deadlineMs < d.deadlineMs
            || (c.deadlineMs == d.deadlineMs && c.readyMs < d.readyMs)
            || (c.deadlineMs == d.deadlineMs && c.readyMs == d.readyMs && !Less(d.id, c.id))
  {
  }

  /** A claimed live job has the earliest deadline of its source; readiness and then the ID break ties. */
  lemma ClaimedLiveIsDueFirst(waiting: seq<Candidate>, memory: Memory, c: Candidate, d: Candidate)
    requires IsChoice(waiting, memory, c) && c.kind == Live
    requires d in waiting && d.kind == Live && d.source == c.source
    ensures || c.deadlineMs < d.deadlineMs
            || (c.deadlineMs == d.deadlineMs && c.readyMs < d.readyMs)
            || (c.deadlineMs == d.deadlineMs && c.readyMs == d.readyMs && !Less(d.id, c.id))
  {
    ChoiceIsWaiting(waiting, memory, c);
  }

  /** A batch job claimed on a reserved turn was ready first of all batch jobs; deadline and then the ID break ties. */
  lemma ReservedClaimWasReadyFirst(waiting: seq<Candidate>, memory: Memory, c: Candidate, d: Candidate)
    requires memory.turn % 4 == 3 && IsChoice(waiting, memory, c)
    requires d in waiting && d.kind == Batch
    ensures c.kind == Batch
    ensures || c.readyMs < d.readyMs
            || (c.readyMs == d.readyMs && c.deadlineMs < d.deadlineMs)
            || (c.readyMs == d.readyMs && c.deadlineMs == d.deadlineMs && !Less(d.id, c.id))
  {
    assert Waits(waiting, Batch);
  }

  /** A batch job claimed on any other turn is the first of its source in the same order, and nothing live waits. */
  lemma ClaimedBatchWasReadyFirst(waiting: seq<Candidate>, memory: Memory, c: Candidate, d: Candidate)
    requires IsChoice(waiting, memory, c) && c.kind == Batch
    requires d in waiting && d.kind == Batch && d.source == c.source
    ensures memory.turn % 4 == 3 || forall x :: x in waiting ==> x.kind == Batch
    ensures || c.readyMs < d.readyMs
            || (c.readyMs == d.readyMs && c.deadlineMs < d.deadlineMs)
            || (c.readyMs == d.readyMs && c.deadlineMs == d.deadlineMs && !Less(d.id, c.id))
  {
    ChoiceIsWaiting(waiting, memory, c);
    assert forall x :: x in waiting && x.kind == Live ==> Waits(waiting, Live);
  }

  // ---- runs ----

  /** One claim: the jobs that waited, and the one taken. */
  datatype Claim = Claim(waiting: seq<Candidate>, taken: Candidate)

  /** Every claim is the chooser's, with the memory the claims before it left. */
  ghost predicate IsRun(memory: Memory, claims: seq<Claim>)
    decreases |claims|
  {
    claims == []
    || (IsChoice(claims[0].waiting, memory, claims[0].taken)
        && IsRun(memory.After(PickFrom(claims[0].taken)), claims[1..]))
  }

  /** `c` must be served before `j`: same class, ordered earlier, and for live work the same source. */
  predicate InFront(c: Candidate, j: Candidate) {
    c.kind == j.kind && Before(j.kind, c, j) && (j.kind == Live ==> c.source == j.source)
  }

  ghost function Ahead(waiting: seq<Candidate>, j: Candidate): set<Candidate> {
    set c | c in waiting && InFront(c, j)
  }

  /** Who stands ahead of a job, by the fields. */
  lemma AheadByFields(waiting: seq<Candidate>, j: Candidate, c: Candidate)
    ensures j.kind == Live ==>
              (c in Ahead(waiting, j) <==>
                 && c in waiting && c.kind == Live && c.source == j.source
                 && (|| c.deadlineMs < j.deadlineMs
                     || (c.deadlineMs == j.deadlineMs && c.readyMs < j.readyMs)
                     || (c.deadlineMs == j.deadlineMs && c.readyMs == j.readyMs && Less(c.id, j.id))))
    ensures j.kind == Batch ==>
              (c in Ahead(waiting, j) <==>
                 && c in waiting && c.kind == Batch
                 && (|| c.readyMs < j.readyMs
                     || (c.readyMs == j.readyMs && c.deadlineMs < j.deadlineMs)
                     || (c.readyMs == j.readyMs && c.deadlineMs == j.deadlineMs && Less(c.id, j.id))))
  {
  }

  /**
   What the surroundings may do between claims while `j` waits: anything that keeps `j`
   waiting, keeps its ID its own, and puts no new job ahead of it.
   */
  ghost predicate KeepsWaiting(claims: seq<Claim>, j: Candidate) {
    claims != [] ==>
      && j in claims[0].waiting
      && (forall c :: c in claims[0].waiting && c.id == j.id ==> c == j)
      && (claims[0].taken != j && |claims| > 1 ==>
            && Ahead(claims[1].waiting, j) <= Ahead(claims[0].waiting, j) - {claims[0].taken}
            && KeepsWaiting(claims[1..], j))
  }

  ghost predicate TakenWithin(claims: seq<Claim>, j: Candidate, bound: int) {
    exists m :: 0 <= m < bound && m < |claims| && claims[m].taken == j
  }

  lemma TakenLater(claims: seq<Claim>, j: Candidate, bound: int)
    requires claims != [] && TakenWithin(claims[1..], j, bound)
    ensures TakenWithin(claims, j, bound + 1)
  {
    var m :| 0 <= m < bound && m < |claims[1..]| && claims[1..][m].taken == j;
    assert claims[m + 1].taken == j;
  }

  /** Taking another job leaves the set ahead of `j` no larger, and smaller when it was ahead. */
  lemma AheadShrinks(claims: seq<Claim>, j: Candidate)
    requires |claims| > 1 && KeepsWaiting(claims, j) && claims[0].taken != j
    ensures |Ahead(claims[1].waiting, j)| <= |Ahead(claims[0].waiting, j)|
    ensures claims[0].taken in Ahead(claims[0].waiting, j) ==>
              |Ahead(claims[1].waiting, j)| < |Ahead(claims[0].waiting, j)|
  {
    var before, after := Ahead(claims[0].waiting, j), Ahead(claims[1].waiting, j);
    SubsetSize(after, before - {claims[0].taken});
    SubsetSize(after, before);
  }

  lemma {:induction false} SubsetSize<T>(a: set<T>, b: set<T>)
    requires a <= b
    ensures |a| <= |b|
  {
    if a != {} {
      var x :| x in a;
      SubsetSize(a - {x}, b - {x});
    }
  }

  // ---- batch work: at most four claims for each older batch job ----

  /** Claims until the next reserved one. A saturated turn is reserved for ever. */
  function Delay(turn: U64): nat {
    SHARE_PERIOD - 1 - turn % SHARE_PERIOD
  }

  lemma ReservedTakesOlder(waiting: seq<Candidate>, memory: Memory, taken: Candidate, j: Candidate)
    requires memory.Reserved() && IsChoice(waiting, memory, taken)
    requires j in waiting && j.kind == Batch && taken != j
    requires forall c :: c in waiting && c.id == j.id ==> c == j
    ensures taken in Ahead(waiting, j) && |Ahead(waiting, j)| > 0
  {
    assert Waits(waiting, Batch);
    var i :| 0 <= i < |waiting| && IsFirstMinimum(waiting, Batch, i) && waiting[i] == taken;
    BeforeIsStrict(Batch, taken, j, taken);
    assert taken in Ahead(waiting, j);
  }

  /** The reserved claim is counted down to; after saturation every claim is reserved. */
  lemma DelayCounts(memory: Memory, pick: Pick)
    ensures memory.Reserved() <==> Delay(memory.turn) == 0
    ensures Delay(memory.After(pick).turn) <= 3
    ensures !memory.Reserved() ==> Delay(memory.After(pick).turn) == Delay(memory.turn) - 1
  {
    if !memory.Reserved() {
      assert memory.turn < U64_MAX;
      NextRemainder(memory.turn);
    }
  }

  lemma NextRemainder(turn: nat)
    requires turn % SHARE_PERIOD < SHARE_PERIOD - 1
    ensures (turn + 1) % SHARE_PERIOD == turn % SHARE_PERIOD + 1
  {
  }

  /** What the first claim of a run does when it takes another job than `j`. */
  lemma BatchStep(memory: Memory, claims: seq<Claim>, j: Candidate)
    requires IsRun(memory, claims) && KeepsWaiting(claims, j)
    requires j.kind == Batch && |claims| > 1 && claims[0].taken != j
    ensures IsRun(memory.After(PickFrom(claims[0].taken)), claims[1..]) && KeepsWaiting(claims[1..], j)
    ensures |Ahead(claims[1].waiting, j)| <= |Ahead(claims[0].waiting, j)|
    ensures memory.Reserved() ==> |Ahead(claims[1].waiting, j)| < |Ahead(claims[0].waiting, j)|
  {
    hide IsChoice, Ahead;
    if memory.Reserved() {
      ReservedTakesOlder(claims[0].waiting, memory, claims[0].taken, j);
    }
    AheadShrinks(claims, j);
  }

  lemma LastBatchClaim(memory: Memory, claims: seq<Claim>, j: Candidate)
    requires IsRun(memory, claims) && KeepsWaiting(claims, j)
    requires j.kind == Batch && claims != [] && claims[0].taken != j && memory.Reserved()
    ensures |Ahead(claims[0].waiting, j)| > 0
  {
    hide IsChoice, Ahead;
    ReservedTakesOlder(claims[0].waiting, memory, claims[0].taken, j);
  }

  /** However the run goes on, a batch job with k older ones waits at most 4k + 4 claims. */
  lemma {:induction false} BatchWait(memory: Memory, claims: seq<Claim>, j: Candidate)
    requires IsRun(memory, claims) && KeepsWaiting(claims, j)
    requires j.kind == Batch && claims != []
    requires |claims| >= 4 * |Ahead(claims[0].waiting, j)| + Delay(memory.turn) + 1
    ensures TakenWithin(claims, j, 4 * |Ahead(claims[0].waiting, j)| + Delay(memory.turn) + 1)
    decreases |claims|
  {
    var next := memory.After(PickFrom(claims[0].taken));
    DelayCounts(memory, PickFrom(claims[0].taken));
    if claims[0].taken == j {
      hide *;
      assert TakenWithin(claims, j, 1);
    } else {
      if memory.Reserved() {
        LastBatchClaim(memory, claims, j);
      }
      hide *;
      BatchStep(memory, claims, j);
      BatchWait(next, claims[1..], j);
      TakenLater(claims, j, 4 * |Ahead(claims[1].waiting, j)| + Delay(next.turn) + 1);
    }
  }

  // ---- live work: a walk round the source names, plus one reserved claim in four ----

  /** The names met no later than `s` when walking upwards from `last` and around. */
  ghost function Arc(names: set<string>, last: string, s: string): set<string> {
    set x | x in names && (x == s || Sooner(last, x, s))
  }

  ghost function Distance(names: set<string>, last: Option<string>, s: string): nat {
    match last
    case None => |names|
    case Some(l) => |Arc(names, l, s)|
  }

  lemma DistanceBounds(names: set<string>, last: Option<string>, s: string)
    requires s in names
    ensures 1 <= Distance(names, last, s) <= |names|
  {
    match last {
      case None => assert names != {};
      case Some(l) =>
        assert s in Arc(names, l, s);
        SubsetSize(Arc(names, l, s), names);
    }
  }

  /** Serving another source `y` on the way brings `s` strictly nearer. */
  lemma DistanceShrinks(names: set<string>, last: Option<string>, y: string, s: string)
    requires y in names && s in names && y != s
    requires last.Some? ==> Sooner(last.value, y, s)
    ensures Distance(names, Some(y), s) < Distance(names, last, s)
  {
    var whole := if last.None? then names else Arc(names, last.value, s);
    forall x | x in Arc(names, y, s) ensures x in whole - {y} {
      LessIrreflexive(y);
      LessTotal(y, s);
      if Less(y, s) && Less(s, y) {
        LessTransitive(y, s, y);
      }
      if last.Some? && x != s {
        ArcStep(last.value, x, y, s);
      }
    }
    SubsetSize(Arc(names, y, s), whole - {y});
  }

  lemma ArcStep(last: string, x: string, y: string, s: string)
    requires Sooner(last, y, s) && Sooner(y, x, s) && y != s && x != s
    ensures Sooner(last, x, s)
  {
    LessIrreflexive(y);
    LessTotal(last, y);
    LessTotal(last, x);
    LessTotal(y, x);
    LessTotal(y, s);
    if Less(last, y) && Less(y, x) { LessTransitive(last, y, x); }
    if Less(y, x) && Less(x, s) { LessTransitive(y, x, s); }
    if Less(y, s) && Less(s, y) { LessTransitive(y, s, y); }
    if Less(x, s) && Less(s, y) { LessTransitive(x, s, y); }
    if Less(last, x) && Less(x, s) { LessTransitive(last, x, s); }
    if Less(last, x) && Less(x, y) { LessTransitive(last, x, y); }
    if Less(last, y) && Less(y, s) { LessTransitive(last, y, s); }
  }

  /** Claims enough for `steps` of them to go to live work, starting at `turn`. */
  function LiveClaims(steps: nat, turn: U64): nat {
    var free := Delay(turn);
    if steps <= free then steps else steps + (steps - free + 2) / 3
  }

  /** Every live job that ever waits belongs to one of these sources. */
  ghost predicate LiveSourcesIn(claims: seq<Claim>, names: set<string>) {
    forall m, c :: 0 <= m < |claims| && c in claims[m].waiting && c.kind == Live ==> c.source in names
  }

  /** The live claims still needed before `j` can be the only one left to serve. */
  ghost function LiveSteps(waiting: seq<Candidate>, memory: Memory, j: Candidate, names: set<string>): nat {
    |names| * |Ahead(waiting, j)| + Distance(names, memory.lastLive, j.source)
  }

  lemma LiveStepsPositive(waiting: seq<Candidate>, memory: Memory, j: Candidate, names: set<string>)
    requires j.source in names
    ensures LiveSteps(waiting, memory, j, names) >= 1
  {
    DistanceBounds(names, memory.lastLive, j.source);
    FewerAheadIsFewerSteps(|names|, 0, |Ahead(waiting, j)|);
  }

  lemma FewerAheadIsFewerSteps(n: nat, fewer: nat, more: nat)
    requires fewer <= more
    ensures n * fewer <= n * more
    ensures fewer < more ==> n * fewer + n <= n * more
  {
    var gap := more - fewer;
    assert n * more == n * fewer + n * gap;
    if gap > 0 {
      assert n * gap == n + n * (gap - 1);
    }
  }

  /** One claim uses up one of `LiveClaims`, whether or not it was the reserved one. */
  lemma LiveClaimsStep(steps: nat, left: nat, turn: U64)
    requires 1 <= left <= steps && turn < U64_MAX
    requires Delay(turn) > 0 ==> left < steps
    ensures LiveClaims(left, turn + 1) + 1 <= LiveClaims(steps, turn)
  {
    var free := Delay(turn);
    assert Delay(turn + 1) == if free == 0 then SHARE_PERIOD - 1 else free - 1;
  }

  /** A claim that serves live work uses up a step while `j` goes on waiting. */
  lemma LiveStep(memory: Memory, claims: seq<Claim>, j: Candidate, names: set<string>)
    requires IsRun(memory, claims) && KeepsWaiting(claims, j) && LiveSourcesIn(claims, names)
    requires j.kind == Live && |claims| > 1 && claims[0].taken != j
    ensures var next := memory.After(PickFrom(claims[0].taken));
            && LiveSteps(claims[1].waiting, next, j, names) <= LiveSteps(claims[0].waiting, memory, j, names)
            && (!memory.Reserved() ==>
                  LiveSteps(claims[1].waiting, next, j, names) < LiveSteps(claims[0].waiting, memory, j, names))
  {
    var waiting, taken := claims[0].waiting, claims[0].taken;
    assert Waits(waiting, Live);
    ChoiceIsWaiting(waiting, memory, taken);
    AheadShrinks(claims, j);
    FewerAheadIsFewerSteps(|names|, |Ahead(claims[1].waiting, j)|, |Ahead(waiting, j)|);
    if taken.kind == Live {
      assert IsRotation(waiting, Live, memory.lastLive, taken);
      DistanceBounds(names, memory.lastLive, j.source);
      DistanceBounds(names, Some(taken.source), j.source);
      if taken.source == j.source {
        BeforeIsStrict(Live, taken, j, taken);
        assert taken in Ahead(waiting, j);
      } else {
        DistanceShrinks(names, memory.lastLive, taken.source, j.source);
      }
    }
  }

  lemma OneLiveClaim(steps: nat, turn: U64)
    requires steps >= 1 && LiveClaims(steps, turn) == 1
    ensures steps == 1 && Delay(turn) > 0
  {
  }

  lemma {:induction false} LiveWait(memory: Memory, claims: seq<Claim>, j: Candidate, names: set<string>, steps: nat)
    requires IsRun(memory, claims) && KeepsWaiting(claims, j) && LiveSourcesIn(claims, names)
    requires j.kind == Live && claims != []
    requires steps == LiveSteps(claims[0].waiting, memory, j, names)
    requires |claims| >= LiveClaims(steps, memory.turn)
    requires memory.turn + LiveClaims(steps, memory.turn) <= U64_MAX + 1
    ensures TakenWithin(claims, j, LiveClaims(steps, memory.turn))
    decreases |claims|
  {
    assert j.source in names;
    LiveStepsPositive(claims[0].waiting, memory, j, names);
    if claims[0].taken == j {
    } else if LiveClaims(steps, memory.turn) == 1 {
      OneLiveClaim(steps, memory.turn);
      LastLiveClaim(memory, claims, j, names);
    } else {
      var next := memory.After(PickFrom(claims[0].taken));
      LiveStep(memory, claims, j, names);
      var left := LiveSteps(claims[1].waiting, next, j, names);
      LiveStepsPositive(claims[1].waiting, next, j, names);
      LiveClaimsStep(steps, left, memory.turn);
      assert |claims[1..]| >= LiveClaims(left, next.turn);
      LiveWait(next, claims[1..], j, names, left);
      TakenLater(claims, j, LiveClaims(left, next.turn));
    }
  }

  /** With one step left and no reserved turn to come first, the claim is `j` itself. */
  lemma LastLiveClaim(memory: Memory, claims: seq<Claim>, j: Candidate, names: set<string>)
    requires IsRun(memory, claims) && KeepsWaiting(claims, j) && LiveSourcesIn(claims, names)
    requires j.kind == Live && claims != []
    requires LiveSteps(claims[0].waiting, memory, j, names) == 1 && !memory.Reserved()
    ensures claims[0].taken == j
  {
    var waiting, taken := claims[0].waiting, claims[0].taken;
    assert Waits(waiting, Live);
    DistanceBounds(names, memory.lastLive, j.source);
    FewerAheadIsFewerSteps(|names|, 0, |Ahead(waiting, j)|);
    assert |Ahead(waiting, j)| == 0;
    assert IsRotation(waiting, Live, memory.lastLive, taken);
    if taken.source == j.source {
      BeforeIsStrict(Live, taken, j, taken);
      assert Before(Live, taken, j) ==> taken in Ahead(waiting, j);
    } else {
      DistanceShrinks(names, memory.lastLive, taken.source, j.source);
      DistanceBounds(names, Some(taken.source), j.source);
    }
  }

  /** Fewer steps need no more claims, and the reserved claims are at most one in four. */
  lemma LiveClaimsAtMost(steps: nat, most: nat, turn: U64)
    requires steps <= most
    ensures LiveClaims(steps, turn) <= most + (most + 2) / 3
  {
  }

  /** The wait a live job can be promised, with `ahead` earlier jobs in its source. */
  function LiveBound(sources: nat, ahead: nat): nat {
    var turns := sources * (ahead + 1);
    turns + (turns + 2) / 3
  }

  lemma StepsWithinBound(waiting: seq<Candidate>, memory: Memory, j: Candidate, names: set<string>)
    requires j.source in names
    ensures LiveClaims(LiveSteps(waiting, memory, j, names), memory.turn) <= LiveBound(|names|, |Ahead(waiting, j)|)
  {
    var ahead := |Ahead(waiting, j)|;
    var steps := LiveSteps(waiting, memory, j, names);
    DistanceBounds(names, memory.lastLive, j.source);
    assert |names| * (ahead + 1) == |names| * ahead + |names|;
    LiveClaimsAtMost(steps, |names| * (ahead + 1), memory.turn);
  }

  /** From any memory, as long as the turn counter has room for the wait. */
  lemma LiveWaitBound(memory: Memory, claims: seq<Claim>, j: Candidate, names: set<string>)
    requires IsRun(memory, claims) && KeepsWaiting(claims, j) && LiveSourcesIn(claims, names)
    requires j.kind == Live && claims != []
    requires |claims| >= LiveBound(|names|, |Ahead(claims[0].waiting, j)|)
    requires memory.turn + LiveBound(|names|, |Ahead(claims[0].waiting, j)|) <= U64_MAX + 1
    ensures TakenWithin(claims, j, LiveBound(|names|, |Ahead(claims[0].waiting, j)|))
  {
    assert j.source in names;
    StepsWithinBound(claims[0].waiting, memory, j, names);
    hide IsRun, KeepsWaiting, LiveSourcesIn, LiveClaims, LiveBound, LiveSteps;
    LiveWait(memory, claims, j, names, LiveSteps(claims[0].waiting, memory, j, names));
  }

  /** The promise is no worse than `ahead + 1` full rounds of the sources, each with its reserved claims. */
  lemma LiveBoundByRounds(sources: nat, ahead: nat)
    ensures LiveBound(sources, ahead) <= (ahead + 1) * (sources + (sources + 2) / 3)
    decreases ahead
  {
    if ahead == 0 {
      assert sources * (ahead + 1) == sources;
    } else {
      LiveBoundByRounds(sources, ahead - 1);
      assert sources * (ahead + 1) == sources * ahead + sources;
      var round := sources + (sources + 2) / 3;
      assert (ahead + 1) * round == ahead * round + round;
    }
  }

  // ---- after the counter saturates ----

  /**
   `u64::MAX` is itself a reserved turn, so once the counter is there a live job is taken
   exactly when no batch job waits: the live bound is lost, the batch bound is not.
   */
  lemma {:induction false} SaturatedRun(memory: Memory, claims: seq<Claim>, m: nat)
    requires IsRun(memory, claims) && memory.turn == U64_MAX && m < |claims|
    ensures claims[m].taken.kind == Live <==> !Waits(claims[m].waiting, Batch)
    decreases m
  {
    if m == 0 {
      var waiting, taken := claims[0].waiting, claims[0].taken;
      ChoiceIsWaiting(waiting, memory, taken);
    } else {
      SaturatedRun(memory.After(PickFrom(claims[0].taken)), claims[1..], m - 1);
    }
  }
}
