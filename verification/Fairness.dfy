/**
 The claim chooser of `fairness.rs`: every fourth claim goes to the oldest batch job,
 the others rotate across the sources of live work, or of batch work when none is live.
 */
module Fairness {
  import opened Prelude
  import opened Text

  /** How many claims pass before the oldest batch job is taken again. */
  const SHARE_PERIOD: int := 4

  datatype Class = Live | Batch

  datatype Candidate = Candidate(id: string, source: string, kind: Class, readyMs: I64, deadlineMs: I64)

  datatype Pick = Pick(id: string, source: string, kind: Class)

  /** The value a cursor holds between two claims. */
  datatype Memory = Memory(turn: U64, lastLive: Option<string>, lastBatch: Option<string>) {
    function LastSource(kind: Class): Option<string> {
      match kind
      case Live => lastLive
      case Batch => lastBatch
    }

    predicate Reserved() {
      turn % SHARE_PERIOD == SHARE_PERIOD - 1
    }

    /** The memory after `pick` started; the turn saturates. */
    function After(pick: Pick): Memory {
      var next := Min(turn + 1, U64_MAX);
      match pick.kind
      case Live => Memory(next, Some(pick.source), lastBatch)
      case Batch => Memory(next, lastLive, Some(pick.source))
    }
  }

  /** Rotation memory for one job kind. */
  class FairCursor {
    var turn: U64
    var lastLive: Option<string>
    var lastBatch: Option<string>

    constructor ()
      ensures Value() == Memory(0, None, None)
    {
      turn, lastLive, lastBatch := 0, None, None;
    }

    function Value(): Memory
      reads this
    {
      Memory(turn, lastLive, lastBatch)
    }

    method Advance(pick: Pick)
      modifies this
      ensures Value() == old(Value()).After(pick)
      ensures turn == if old(turn) == 0xFFFF_FFFF_FFFF_FFFF then old(turn) else old(turn) + 1
      ensures lastLive == if pick.kind == Live then Some(pick.source) else old(lastLive)
      ensures lastBatch == if pick.kind == Batch then Some(pick.source) else old(lastBatch)
    {
      turn := if turn == U64_MAX then U64_MAX else turn + 1;
      match pick.kind {
        case Live => lastLive := Some(pick.source);
        case Batch => lastBatch := Some(pick.source);
      }
    }
  }

  function PickFrom(c: Candidate): Pick {
    Pick(c.id, c.source, c.kind)
  }

  /** Live work is ordered by deadline, batch work by readiness; the job ID breaks ties. */
  predicate Before(kind: Class, left: Candidate, right: Candidate) {
    match kind
    case Live =>
      left.deadlineMs < right.deadlineMs
      || (left.deadlineMs == right.deadlineMs && left.readyMs < right.readyMs)
      || (left.deadlineMs == right.deadlineMs && left.readyMs == right.readyMs && Less(left.id, right.id))
    case Batch =>
      left.readyMs < right.readyMs
      || (left.readyMs == right.readyMs && left.deadlineMs < right.deadlineMs)
      || (left.readyMs == right.readyMs && left.deadlineMs == right.deadlineMs && Less(left.id, right.id))
  }

  /** Neither orders before the other exactly when both times and the ID agree. */
  predicate SameRank(left: Candidate, right: Candidate) {
    left.readyMs == right.readyMs && left.deadlineMs == right.deadlineMs && left.id == right.id
  }

  lemma BeforeIsStrict(kind: Class, a: Candidate, b: Candidate, c: Candidate)
    ensures !Before(kind, a, a)
    ensures Before(kind, a, b) && Before(kind, b, c) ==> Before(kind, a, c)
    ensures SameRank(a, b) || Before(kind, a, b) || Before(kind, b, a)
    ensures !(SameRank(a, b) && Before(kind, a, b))
    ensures !(Before(kind, a, b) && Before(kind, b, a))
  {
    LessIrreflexive(a.id);
    LessTotal(a.id, b.id);
    if Less(a.id, b.id) && Less(b.id, c.id) {
      LessTransitive(a.id, b.id, c.id);
    }
    if Less(a.id, b.id) && Less(b.id, a.id) {
      LessTransitive(a.id, b.id, a.id);
    }
  }

  /** A minimum stays a minimum through a smaller element. */
  lemma NotBeforeVia(kind: Class, low: Candidate, mid: Candidate, high: Candidate)
    requires !Before(kind, mid, low) && !Before(kind, high, mid)
    ensures !Before(kind, high, low)
  {
    BeforeIsStrict(kind, low, mid, high);
    BeforeIsStrict(kind, mid, high, low);
    BeforeIsStrict(kind, high, low, mid);
  }

  // ---- what a claim must be, stated without the winners list ----

  /** `c` is a minimum of its own source among the waiting jobs of its class. */
  ghost predicate IsSourceMinimum(waiting: seq<Candidate>, c: Candidate) {
    c in waiting
    && forall d :: d in waiting && d.kind == c.kind && d.source == c.source ==> !Before(c.kind, d, c)
  }

  /** Walking the source names upwards from `last` and around, `x` is met before `y`. */
  predicate Sooner(last: string, x: string, y: string) {
    if Less(last, x) == Less(last, y) then Less(x, y) else Less(last, x)
  }

  /** The rotation's claim: the next source after `last`, or the overall minimum at the start. */
  ghost predicate IsRotation(waiting: seq<Candidate>, kind: Class, last: Option<string>, c: Candidate) {
    c.kind == kind
    && IsSourceMinimum(waiting, c)
    && match last
       case Some(source) =>
         forall d :: d in waiting && d.kind == kind && d.source != c.source ==> Sooner(source, c.source, d.source)
       case None =>
         forall d :: d in waiting && d.kind == kind ==>
           !Before(kind, d, c) && (SameRank(c, d) && c.source != d.source ==> Less(c.source, d.source))
  }

  /** The first minimum of the class in list order. */
  ghost predicate IsOldest(waiting: seq<Candidate>, kind: Class, c: Candidate) {
    exists i :: 0 <= i < |waiting| && IsFirstMinimum(waiting, kind, i) && waiting[i] == c
  }

  ghost predicate IsFirstMinimum(waiting: seq<Candidate>, kind: Class, i: nat)
    requires i < |waiting|
  {
    waiting[i].kind == kind
    && (forall k :: 0 <= k < |waiting| && waiting[k].kind == kind ==> !Before(kind, waiting[k], waiting[i]))
    && (forall k :: 0 <= k < i && waiting[k].kind == kind ==> Before(kind, waiting[i], waiting[k]))
  }

  predicate Waits(waiting: seq<Candidate>, kind: Class) {
    exists c :: c in waiting && c.kind == kind
  }

  /** The whole rule for one claim. */
  ghost predicate IsChoice(waiting: seq<Candidate>, memory: Memory, c: Candidate) {
    if memory.Reserved() && Waits(waiting, Batch) then IsOldest(waiting, Batch, c)
    else if Waits(waiting, Live) then IsRotation(waiting, Live, memory.lastLive, c)
    else IsRotation(waiting, Batch, memory.lastBatch, c)
  }

  // ---- the chooser ----

  /** The position of the first minimum of one class. */
  function Oldest(candidates: seq<Candidate>, kind: Class): (r: Option<nat>)
    ensures r.None? <==> !Waits(candidates, kind)
    ensures r.Some? ==> r.value < |candidates| && IsFirstMinimum(candidates, kind, r.value)
  {
    if candidates == [] then None
    else
      var n := |candidates| - 1;
      var best := Oldest(candidates[..n], kind);
      assert candidates == candidates[..n] + [candidates[n]];
      assert forall c :: c in candidates <==> c in candidates[..n] || c == candidates[n];
      assert forall k :: 0 <= k < n ==> candidates[..n][k] == candidates[k];
      if candidates[n].kind != kind then best
      else if best.None? then
        assert forall k :: 0 <= k < n ==> candidates[k] in candidates[..n];
        BeforeIsStrict(kind, candidates[n], candidates[n], candidates[n]);
        Some(n)
      else if Before(kind, candidates[n], candidates[best.value]) then
        LastIsFirstMinimum(candidates, kind, best.value);
        Some(n)
      else best
  }

  /** A last candidate before the minimum of the rest is the new minimum. */
  lemma LastIsFirstMinimum(candidates: seq<Candidate>, kind: Class, best: nat)
    requires best < |candidates| - 1 && IsFirstMinimum(candidates[..|candidates| - 1], kind, best)
    requires candidates[|candidates| - 1].kind == kind
    requires Before(kind, candidates[|candidates| - 1], candidates[best])
    ensures IsFirstMinimum(candidates, kind, |candidates| - 1)
  {
    var n := |candidates| - 1;
    forall k | 0 <= k < n && candidates[k].kind == kind ensures Before(kind, candidates[n], candidates[k]) {
      assert candidates[..n][k] == candidates[k];
      BeforeIsStrict(kind, candidates[n], candidates[best], candidates[k]);
      BeforeIsStrict(kind, candidates[k], candidates[best], candidates[n]);
    }
    forall k | 0 <= k <= n && candidates[k].kind == kind ensures !Before(kind, candidates[k], candidates[n]) {
      BeforeIsStrict(kind, candidates[n], candidates[k], candidates[k]);
    }
  }

  /** The slot that already holds this source. */
  function SlotOf(winners: seq<Candidate>, source: string): (r: Option<nat>)
    ensures r.None? ==> forall k :: 0 <= k < |winners| ==> winners[k].source != source
    ensures r.Some? ==> r.value < |winners| && winners[r.value].source == source
  {
    if winners == [] then None
    else if winners[0].source == source then Some(0)
    else
      match SlotOf(winners[1..], source)
      case None =>
        assert forall k :: 1 <= k < |winners| ==> winners[k] == winners[1..][k - 1];
        None
      case Some(k) => Some(k + 1)
  }

  /** The position of the first source after `last` in a sorted list, or the front. */
  function NextIndex(winners: seq<Candidate>, last: string): (r: nat)
    requires winners != []
    ensures r < |winners|
    ensures Less(last, winners[r].source) || r == 0
    ensures Less(last, winners[r].source) ==> forall k :: 0 <= k < r ==> !Less(last, winners[k].source)
    ensures !Less(last, winners[r].source) ==> forall k :: 0 <= k < |winners| ==> !Less(last, winners[k].source)
  {
    if Less(last, winners[0].source) || |winners| == 1 then 0
    else
      var r := NextIndex(winners[1..], last);
      assert forall k :: 1 <= k < |winners| ==> winners[k] == winners[1..][k - 1];
      if Less(last, winners[r + 1].source) then r + 1 else 0
  }

  /** What the winners list holds after scanning a prefix. */
  ghost predicate HoldsWinners(seen: seq<Candidate>, kind: Class, winners: seq<Candidate>) {
    && (forall k :: 0 <= k < |winners| ==> winners[k].kind == kind && IsSourceMinimum(seen, winners[k]))
    && (forall i, k :: 0 <= i < k < |winners| ==> winners[i].source != winners[k].source)
    && (forall c :: c in seen && c.kind == kind ==> HasSource(winners, c.source))
  }

  ghost predicate HasSource(winners: seq<Candidate>, source: string) {
    exists k :: 0 <= k < |winners| && winners[k].source == source
  }

  lemma SeenStep(seen: seq<Candidate>, kind: Class, winners: seq<Candidate>, c: Candidate, k: nat)
    requires HoldsWinners(seen, kind, winners) && c.kind == kind
    requires k < |winners| && winners[k].source == c.source
    ensures Before(kind, c, winners[k]) ==> HoldsWinners(seen + [c], kind, winners[k := c])
    ensures !Before(kind, c, winners[k]) ==> HoldsWinners(seen + [c], kind, winners)
  {
    hide Before;
    var grown := seen + [c];
    assert forall d :: d in grown <==> d in seen || d == c;
    var next := if Before(kind, c, winners[k]) then winners[k := c] else winners;
    forall i | 0 <= i < |next| ensures next[i].kind == kind && IsSourceMinimum(grown, next[i]) {
      forall d | d in grown && d.kind == kind && d.source == next[i].source ensures !Before(kind, d, next[i]) {
        BeforeIsStrict(kind, c, winners[k], d);
        BeforeIsStrict(kind, d, c, winners[k]);
      }
    }
    forall s | HasSource(winners, s) ensures HasSource(next, s) {
      var i :| 0 <= i < |winners| && winners[i].source == s;
      assert next[i].source == s;
    }
    assert HasSource(winners, c.source);
  }

  lemma SeenFresh(seen: seq<Candidate>, kind: Class, winners: seq<Candidate>, c: Candidate)
    requires HoldsWinners(seen, kind, winners) && c.kind == kind
    requires forall k :: 0 <= k < |winners| ==> winners[k].source != c.source
    ensures HoldsWinners(seen + [c], kind, winners + [c])
  {
    hide Before;
    var grown, next := seen + [c], winners + [c];
    assert forall d :: d in grown <==> d in seen || d == c;
    assert !HasSource(winners, c.source);
    assert forall d :: d in seen && d.kind == kind ==> d.source != c.source;
    forall i | 0 <= i < |next| ensures next[i].kind == kind && IsSourceMinimum(grown, next[i]) {
      forall d | d in grown && d.kind == kind && d.source == next[i].source ensures !Before(kind, d, next[i]) {
        BeforeIsStrict(kind, d, d, d);
      }
    }
    forall s | HasSource(winners, s) ensures HasSource(next, s) {
      var i :| 0 <= i < |winners| && winners[i].source == s;
      assert next[i].source == s;
    }
    assert next[|winners|].source == c.source;
  }

  lemma SeenOther(seen: seq<Candidate>, kind: Class, winners: seq<Candidate>, c: Candidate)
    requires HoldsWinners(seen, kind, winners) && c.kind != kind
    ensures HoldsWinners(seen + [c], kind, winners)
  {
    assert forall d :: d in seen + [c] <==> d in seen || d == c;
  }

  /** Sorting the winners by source keeps them one per source. */
  lemma SortedWinners(seen: seq<Candidate>, kind: Class, winners: seq<Candidate>, sorted: seq<Candidate>)
    requires HoldsWinners(seen, kind, winners)
    requires multiset(sorted) == multiset(winners)
    ensures HoldsWinners(seen, kind, sorted)
  {
    forall k | 0 <= k < |sorted| ensures sorted[k] in winners {
      assert sorted[k] in multiset(sorted);
    }
    forall k | 0 <= k < |winners| ensures winners[k] in sorted {
      assert winners[k] in multiset(winners);
    }
    forall i, k | 0 <= i < k < |sorted| ensures sorted[i].source != sorted[k].source {
      if sorted[i] == sorted[k] {
        CountTwice(sorted, i, k);
        CountOnce(winners, sorted[i]);
      }
    }
    forall c | c in seen && c.kind == kind ensures HasSource(sorted, c.source) {
      assert HasSource(winners, c.source);
      var a :| 0 <= a < |winners| && winners[a].source == c.source;
      var b :| 0 <= b < |sorted| && sorted[b] == winners[a];
    }
  }

  /** Every waiting job of the class is represented by the winner of its source. */
  lemma WinnerFor(waiting: seq<Candidate>, kind: Class, winners: seq<Candidate>, d: Candidate) returns (k: nat)
    requires HoldsWinners(waiting, kind, winners) && d in waiting && d.kind == kind
    ensures k < |winners| && winners[k].source == d.source && !Before(kind, d, winners[k])
  {
    assert HasSource(winners, d.source);
    k :| 0 <= k < |winners| && winners[k].source == d.source;
  }

  /** Reading the sorted winners at `NextIndex` is the next source around the circle. */
  lemma NextIsRotation(waiting: seq<Candidate>, kind: Class, winners: seq<Candidate>, last: string)
    requires HoldsWinners(waiting, kind, winners) && winners != []
    requires SortedBy((c: Candidate) => c.source, winners)
    ensures IsRotation(waiting, kind, Some(last), winners[NextIndex(winners, last)])
  {
    var r := NextIndex(winners, last);
    var key := (c: Candidate) => c.source;
    forall d | d in waiting && d.kind == kind && d.source != winners[r].source
      ensures Sooner(last, winners[r].source, d.source)
    {
      var k := WinnerFor(waiting, kind, winners, d);
      LessTotal(winners[r].source, d.source);
      if k < r {
        assert !Less(key(winners[r]), key(winners[k]));
      } else {
        assert !Less(key(winners[k]), key(winners[r]));
      }
    }
  }

  /** Reading the sorted winners at their first minimum starts the rotation. */
  lemma FirstIsRotation(waiting: seq<Candidate>, kind: Class, winners: seq<Candidate>, r: nat)
    requires HoldsWinners(waiting, kind, winners)
    requires SortedBy((c: Candidate) => c.source, winners)
    requires r < |winners| && IsFirstMinimum(winners, kind, r)
    ensures IsRotation(waiting, kind, None, winners[r])
  {
    var key := (c: Candidate) => c.source;
    forall d | d in waiting && d.kind == kind
      ensures !Before(kind, d, winners[r])
      ensures SameRank(winners[r], d) && winners[r].source != d.source ==> Less(winners[r].source, d.source)
    {
      var k := WinnerFor(waiting, kind, winners, d);
      NotBeforeVia(kind, winners[r], winners[k], d);
      if SameRank(winners[r], d) && winners[r].source != d.source {
        LessTotal(winners[r].source, d.source);
        BeforeIsStrict(kind, winners[r], winners[k], d);
        BeforeIsStrict(kind, d, winners[r], winners[k]);
        assert r <= k;
        assert !Less(key(winners[k]), key(winners[r]));
      }
    }
  }

  method Rotate(candidates: seq<Candidate>, kind: Class, last: Option<string>) returns (pick: Option<Pick>)
    ensures pick.None? <==> !Waits(candidates, kind)
    ensures pick.Some? ==> exists c :: IsRotation(candidates, kind, last, c) && pick.value == PickFrom(c)
  {
    var winners: seq<Candidate> := [];
    for i := 0 to |candidates|
      invariant HoldsWinners(candidates[..i], kind, winners)
    {
      var candidate := candidates[i];
      assert candidates[..i + 1] == candidates[..i] + [candidate];
      if candidate.kind == kind {
        var slot := SlotOf(winners, candidate.source);
        if slot.Some? {
          SeenStep(candidates[..i], kind, winners, candidate, slot.value);
          if Before(kind, candidate, winners[slot.value]) {
            winners := winners[slot.value := candidate];
          }
        } else {
          SeenFresh(candidates[..i], kind, winners, candidate);
          winners := winners + [candidate];
        }
      } else {
        SeenOther(candidates[..i], kind, winners, candidate);
      }
    }
    assert candidates[..|candidates|] == candidates;
    if winners == [] {
      return None;
    }
    assert winners[0] in candidates;
    ghost var unsorted := winners;
    winners := Sort((c: Candidate) => c.source, winners);
    SortedWinners(candidates, kind, unsorted, winners);
    assert |winners| == |multiset(winners)| == |unsorted|;
    var index: nat;
    match last {
      case None =>
        var first := Oldest(winners, kind);
        assert winners[0] in winners;
        index := first.value;
        FirstIsRotation(candidates, kind, winners, index);
      case Some(source) =>
        index := NextIndex(winners, source);
        NextIsRotation(candidates, kind, winners, source);
    }
    pick := Some(PickFrom(winners[index]));
  }

  /** Choose the next claim. `None` means nothing is waiting. */
  method Choose(candidates: seq<Candidate>, cursor: FairCursor) returns (pick: Option<Pick>)
    ensures pick.None? <==> candidates == []
    ensures pick.Some? ==> exists c :: IsChoice(candidates, cursor.Value(), c) && pick.value == PickFrom(c)
  {
    if candidates == [] {
      return None;
    }
    var memory := cursor.Value();
    assert candidates[0] in candidates;
    assert Waits(candidates, candidates[0].kind);
    if memory.Reserved() {
      var oldest := Oldest(candidates, Batch);
      if oldest.Some? {
        assert IsChoice(candidates, memory, candidates[oldest.value]);
        return Some(PickFrom(candidates[oldest.value]));
      }
    }
    var kind := if exists c :: c in candidates && c.kind == Live then Live else Batch;
    pick := Rotate(candidates, kind, memory.LastSource(kind));
    ghost var c :| IsRotation(candidates, kind, memory.LastSource(kind), c) && pick.value == PickFrom(c);
    assert IsChoice(candidates, memory, c);
  }
}
