/**
 The chooser in use: jobs arrive in any pattern, each claim takes the chooser's job out
 of the waiting list, and the wait of every job is bounded.
 */
module FairScheduler {
  import opened Prelude
  import opened Text
  import opened Fairness
  import opened FairnessRuns

  /** The waiting list without the claimed job. */
  function Without(waiting: seq<Candidate>, id: string): (r: seq<Candidate>)
    ensures forall c :: c in r <==> c in waiting && c.id != id
  {
    if waiting == [] then []
    else if waiting[0].id == id then Without(waiting[1..], id)
    else [waiting[0]] + Without(waiting[1..], id)
  }

  lemma ChoiceDefined(waiting: seq<Candidate>, memory: Memory)
    requires waiting != []
    ensures exists c :: IsChoice(waiting, memory, c)
  {
    var c := ChoiceExists(waiting, memory);
  }

  ghost function TheChoice(waiting: seq<Candidate>, memory: Memory): (c: Candidate)
    requires waiting != []
    ensures IsChoice(waiting, memory, c)
  {
    ChoiceDefined(waiting, memory);
    var c :| IsChoice(waiting, memory, c);
    c
  }

  /** The claims made when `arrivals[i]` joins just before claim attempt `i`. */
  ghost function Play(waiting: seq<Candidate>, memory: Memory, arrivals: seq<seq<Candidate>>): (claims: seq<Claim>)
    decreases |arrivals|
  {
    if arrivals == [] then []
    else
      var now := waiting + arrivals[0];
      if now == [] then Play([], memory, arrivals[1..])
      else
        var c := TheChoice(now, memory);
        [Claim(now, c)] + Play(Without(now, c.id), memory.After(PickFrom(c)), arrivals[1..])
  }

  lemma {:induction false} PlayIsRun(waiting: seq<Candidate>, memory: Memory, arrivals: seq<seq<Candidate>>)
    ensures IsRun(memory, Play(waiting, memory, arrivals))
    ensures |Play(waiting, memory, arrivals)| <= |arrivals|
    decreases |arrivals|
  {
    if arrivals != [] {
      var now := waiting + arrivals[0];
      if now == [] {
        PlayIsRun([], memory, arrivals[1..]);
      } else {
        var c := TheChoice(now, memory);
        PlayUnfold(waiting, memory, arrivals);
        PlayIsRun(Without(now, c.id), memory.After(PickFrom(c)), arrivals[1..]);
      }
    }
  }

  lemma PlayUnfold(waiting: seq<Candidate>, memory: Memory, arrivals: seq<seq<Candidate>>)
    requires arrivals != [] && waiting + arrivals[0] != []
    ensures var now := waiting + arrivals[0];
            var c := TheChoice(now, memory);
            var claims := Play(waiting, memory, arrivals);
            && claims != []
            && claims[0] == Claim(now, c)
            && claims[1..] == Play(Without(now, c.id), memory.After(PickFrom(c)), arrivals[1..])
            && claims == [Claim(now, c)] + claims[1..]
  {
  }

  /** The service side: the waiting jobs and the rotation memory. */
  class Scheduler {
    var waiting: seq<Candidate>
    const cursor: FairCursor

    constructor ()
      ensures waiting == [] && cursor.Value() == Memory(0, None, None)
      ensures fresh(cursor)
    {
      waiting := [];
      cursor := new FairCursor();
    }

    method Arrive(jobs: seq<Candidate>)
      modifies this`waiting
      ensures waiting == old(waiting) + jobs
    {
      waiting := waiting + jobs;
    }

    /** Claim one job: choose, remember the claim, drop the job from the list. */
    method Take() returns (pick: Option<Pick>)
      modifies this`waiting, cursor
      ensures old(waiting) == [] ==> pick == None && waiting == [] && cursor.Value() == old(cursor.Value())
      ensures old(waiting) != [] ==>
                var c := TheChoice(old(waiting), old(cursor.Value()));
                && pick == Some(PickFrom(c))
                && waiting == Without(old(waiting), c.id)
                && cursor.Value() == old(cursor.Value()).After(PickFrom(c))
    {
      pick := Choose(waiting, cursor);
      if pick.Some? {
        ghost var c :| IsChoice(waiting, cursor.Value(), c) && pick.value == PickFrom(c);
        ChoiceUnique(waiting, cursor.Value(), c, TheChoice(waiting, cursor.Value()));
        cursor.Advance(pick.value);
        waiting := Without(waiting, pick.value.id);
      }
    }

    /** Repeated claims make exactly the claims of `Play`. */
    method Serve(arrivals: seq<seq<Candidate>>) returns (picks: seq<Pick>)
      modifies this`waiting, cursor
      ensures picks == Picks(Play(old(waiting), old(cursor.Value()), arrivals))
    {
      picks := [];
      ghost var done: seq<Claim> := [];
      ghost var all := Play(waiting, cursor.Value(), arrivals);
      for i := 0 to |arrivals|
        invariant all == done + Play(waiting, cursor.Value(), arrivals[i..])
        invariant picks == Picks(done)
      {
        ghost var later := arrivals[i..];
        assert later[0] == arrivals[i] && later[1..] == arrivals[i + 1..];
        ghost var now := waiting + later[0];
        if now != [] {
          PlayUnfold(waiting, cursor.Value(), later);
        }
        ghost var claims := Play(waiting, cursor.Value(), later);
        Arrive(arrivals[i]);
        var pick := Take();
        if pick.Some? {
          picks := picks + [pick.value];
          PicksAppend(done, claims[0]);
          MoveAcross(done, claims);
          done := done + [claims[0]];
        }
      }
      assert arrivals[|arrivals|..] == [];
    }
  }

  ghost function Picks(claims: seq<Claim>): (r: seq<Pick>)
    ensures |r| == |claims|
    ensures forall i :: 0 <= i < |r| ==> r[i] == PickFrom(claims[i].taken)
  {
    seq(|claims|, i requires 0 <= i < |claims| => PickFrom(claims[i].taken))
  }

  lemma MoveAcross(done: seq<Claim>, claims: seq<Claim>)
    requires claims != []
    ensures done + claims == done + [claims[0]] + claims[1..]
  {
  }

  lemma PicksAppend(claims: seq<Claim>, claim: Claim)
    ensures Picks(claims + [claim]) == Picks(claims) + [PickFrom(claim.taken)]
  {
  }

  // ---- waits under arrivals ----

  /** Arrivals that reuse no ID of `j` and put nothing ahead of it. */
  ghost predicate Harmless(arrivals: seq<seq<Candidate>>, j: Candidate) {
    forall i, c :: 0 <= i < |arrivals| && c in arrivals[i] ==> c.id != j.id && !InFront(c, j)
  }

  ghost predicate OwnsId(waiting: seq<Candidate>, j: Candidate) {
    j in waiting && forall c :: c in waiting && c.id == j.id ==> c == j
  }

  /** Arrivals such as these leave `j` waiting until it is taken. */
  lemma {:induction false} PlayKeepsWaiting(waiting: seq<Candidate>, memory: Memory,
                                            arrivals: seq<seq<Candidate>>, j: Candidate)
    requires OwnsId(waiting, j) && Harmless(arrivals, j)
    ensures KeepsWaiting(Play(waiting, memory, arrivals), j)
    ensures arrivals != [] ==> Play(waiting, memory, arrivals) != []
    ensures arrivals != [] ==> Ahead(Play(waiting, memory, arrivals)[0].waiting, j) == Ahead(waiting, j)
    decreases |arrivals|
  {
    if arrivals != [] {
      var now := waiting + arrivals[0];
      var c := TheChoice(now, memory);
      PlayUnfold(waiting, memory, arrivals);
      ArrivalsKeep(waiting, arrivals, j);
      if c != j {
        ChoiceIsWaiting(now, memory, c);
        AheadWithout(now, c, j);
        PlayKeepsWaiting(Without(now, c.id), memory.After(PickFrom(c)), arrivals[1..], j);
        KeepsWaitingStep(Play(waiting, memory, arrivals), j);
      }
    }
  }

  /** No claim attempt finds the list empty before `j` is taken. */
  lemma {:induction false} PlayTakesOrGoesOn(waiting: seq<Candidate>, memory: Memory,
                                             arrivals: seq<seq<Candidate>>, j: Candidate)
    requires OwnsId(waiting, j) && Harmless(arrivals, j)
    ensures var claims := Play(waiting, memory, arrivals);
            |claims| == |arrivals| || TakenWithin(claims, j, |claims|)
    decreases |arrivals|
  {
    if arrivals != [] {
      var now := waiting + arrivals[0];
      var c := TheChoice(now, memory);
      var claims := Play(waiting, memory, arrivals);
      PlayUnfold(waiting, memory, arrivals);
      ArrivalsKeep(waiting, arrivals, j);
      if c == j {
        assert claims[0].taken == j;
      } else {
        ChoiceIsWaiting(now, memory, c);
        AheadWithout(now, c, j);
        PlayTakesOrGoesOn(Without(now, c.id), memory.After(PickFrom(c)), arrivals[1..], j);
        if |claims[1..]| != |arrivals[1..]| {
          TakenLater(claims, j, |claims| - 1);
        }
      }
    }
  }

  lemma KeepsWaitingStep(claims: seq<Claim>, j: Candidate)
    requires claims != [] && OwnsId(claims[0].waiting, j) && KeepsWaiting(claims[1..], j)
    requires |claims| > 1 ==>
               Ahead(claims[1..][0].waiting, j) <= Ahead(claims[0].waiting, j) - {claims[0].taken}
    ensures KeepsWaiting(claims, j)
  {
    if |claims| > 1 {
      assert claims[1] == claims[1..][0];
    }
  }

  /** Dropping another job's ID keeps `j` and takes that job out of those ahead. */
  lemma AheadWithout(now: seq<Candidate>, c: Candidate, j: Candidate)
    requires OwnsId(now, j) && c in now && c != j
    ensures OwnsId(Without(now, c.id), j)
    ensures Ahead(Without(now, c.id), j) <= Ahead(now, j) - {c}
  {
    var left := Without(now, c.id);
    forall d | d in Ahead(left, j) ensures d in Ahead(now, j) && d != c {
      assert d in left;
    }
  }

  lemma ArrivalsKeep(waiting: seq<Candidate>, arrivals: seq<seq<Candidate>>, j: Candidate)
    requires OwnsId(waiting, j) && Harmless(arrivals, j) && arrivals != []
    ensures OwnsId(waiting + arrivals[0], j)
    ensures Ahead(waiting + arrivals[0], j) == Ahead(waiting, j)
    ensures Harmless(arrivals[1..], j)
  {
    assert forall c :: c in waiting + arrivals[0] <==> c in waiting || c in arrivals[0];
  }

  /**
   Batch bound: whatever arrives, live or batch, a batch job with k older batch jobs is taken
   within 4(k + 1) claims, from every memory including a saturated one.
   */
  lemma BatchBoundedWait(waiting: seq<Candidate>, memory: Memory, arrivals: seq<seq<Candidate>>, j: Candidate)
    requires j.kind == Batch && OwnsId(waiting, j) && Harmless(arrivals, j)
    requires |arrivals| >= 4 * (|Ahead(waiting, j)| + 1)
    ensures TakenWithin(Play(waiting, memory, arrivals), j, 4 * (|Ahead(waiting, j)| + 1))
  {
    var claims := Play(waiting, memory, arrivals);
    PlayKeepsWaiting(waiting, memory, arrivals, j);
    PlayTakesOrGoesOn(waiting, memory, arrivals, j);
    PlayIsRun(waiting, memory, arrivals);
    if |claims| >= 4 * (|Ahead(waiting, j)| + 1) {
      BatchWait(memory, claims, j);
    }
  }

  ghost predicate LiveWithin(jobs: seq<Candidate>, names: set<string>) {
    forall c :: c in jobs && c.kind == Live ==> c.source in names
  }

  /**
   Live bound: among at most n live sources, a live job with d earlier ones in its source is
   taken within n(d+1) + ceil(n(d+1)/3) claims, while the turn counter has room for them.
   */
  lemma LiveBoundedWait(waiting: seq<Candidate>, memory: Memory, arrivals: seq<seq<Candidate>>, j: Candidate,
                        names: set<string>)
    requires j.kind == Live && OwnsId(waiting, j) && Harmless(arrivals, j)
    requires LiveWithin(waiting, names) && forall i :: 0 <= i < |arrivals| ==> LiveWithin(arrivals[i], names)
    requires |arrivals| >= LiveBound(|names|, |Ahead(waiting, j)|)
    requires memory.turn + LiveBound(|names|, |Ahead(waiting, j)|) <= U64_MAX + 1
    ensures TakenWithin(Play(waiting, memory, arrivals), j, LiveBound(|names|, |Ahead(waiting, j)|))
  {
    var claims := Play(waiting, memory, arrivals);
    PlayKeepsWaiting(waiting, memory, arrivals, j);
    PlayTakesOrGoesOn(waiting, memory, arrivals, j);
    PlayIsRun(waiting, memory, arrivals);
    PlayLiveSources(waiting, memory, arrivals, names);
    if |claims| >= LiveBound(|names|, |Ahead(waiting, j)|) && claims != [] {
      LiveWaitBound(memory, claims, j, names);
    } else if claims == [] {
      LiveBoundPositive(names, |Ahead(waiting, j)|, j.source);
    }
  }

  lemma LiveBoundPositive(names: set<string>, ahead: nat, source: string)
    requires source in names
    ensures LiveBound(|names|, ahead) >= 1
  {
    assert |names| * (ahead + 1) == |names| * ahead + |names|;
  }

  lemma {:induction false} PlayLiveSources(waiting: seq<Candidate>, memory: Memory,
                                           arrivals: seq<seq<Candidate>>, names: set<string>)
    requires LiveWithin(waiting, names) && forall i :: 0 <= i < |arrivals| ==> LiveWithin(arrivals[i], names)
    ensures LiveSourcesIn(Play(waiting, memory, arrivals), names)
    decreases |arrivals|
  {
    if arrivals != [] {
      var now := waiting + arrivals[0];
      if now == [] {
        PlayLiveSources([], memory, arrivals[1..], names);
      } else {
        var c := TheChoice(now, memory);
        var rest := Play(Without(now, c.id), memory.After(PickFrom(c)), arrivals[1..]);
        PlayLiveSources(Without(now, c.id), memory.After(PickFrom(c)), arrivals[1..], names);
        PlayUnfold(waiting, memory, arrivals);
        var claims := Play(waiting, memory, arrivals);
        forall m, d | 0 <= m < |claims| && d in claims[m].waiting && d.kind == Live ensures d.source in names {
          if m > 0 {
            assert claims[m] == rest[m - 1];
          }
        }
      }
    }
  }

  /**
   Without room in the counter the live bound is lost altogether: at the saturated turn one
   batch job a round keeps a live job waiting through any number of claims.
   */
  lemma {:induction false} SaturatedStarvation(memory: Memory, j: Candidate, b: Candidate,
                                               arrivals: seq<seq<Candidate>>)
    requires memory.turn == U64_MAX && j.kind == Live && b.kind == Batch && j.id != b.id
    requires forall i :: 0 <= i < |arrivals| ==> arrivals[i] == [b]
    ensures var claims := Play([j], memory, arrivals);
            |claims| == |arrivals| && forall m :: 0 <= m < |claims| ==> claims[m].taken == b
    decreases |arrivals|
  {
    if arrivals != [] {
      var now := [j] + arrivals[0];
      PlayUnfold([j], memory, arrivals);
      var c := TheChoice(now, memory);
      assert b in now && Waits(now, Batch);
      ChoiceIsWaiting(now, memory, c);
      assert c == b;
      assert now == [j, b];
      OnlyOtherLeft(j, b);
      SaturatedStarvation(memory.After(PickFrom(b)), j, b, arrivals[1..]);
      var claims := Play([j], memory, arrivals);
      assert forall m :: 1 <= m < |claims| ==> claims[m] == claims[1..][m - 1];
    }
  }

  lemma OnlyOtherLeft(j: Candidate, b: Candidate)
    requires j.id != b.id
    ensures Without([j, b], b.id) == [j]
  {
    assert [j, b][1..] == [b] && [b][1..] == [];
    assert Without([b], b.id) == [];
  }

  // ---- draining ----

  ghost predicate Silent(arrivals: seq<seq<Candidate>>) {
    forall i :: 0 <= i < |arrivals| ==> arrivals[i] == []
  }

  lemma SilentUnfold(waiting: seq<Candidate>, memory: Memory, arrivals: seq<seq<Candidate>>)
    requires Silent(arrivals) && arrivals != []
    ensures Silent(arrivals[1..])
    ensures waiting == [] ==> Play(waiting, memory, arrivals) == Play([], memory, arrivals[1..])
    ensures waiting != [] ==>
              var c := TheChoice(waiting, memory);
              var claims := Play(waiting, memory, arrivals);
              && claims != []
              && claims[0] == Claim(waiting, c)
              && claims[1..] == Play(Without(waiting, c.id), memory.After(PickFrom(c)), arrivals[1..])
  {
    assert waiting + arrivals[0] == waiting;
  }

  ghost function Taken(claims: seq<Claim>): multiset<Candidate> {
    if claims == [] then multiset{} else multiset{claims[0].taken} + Taken(claims[1..])
  }

  /** Removing the claimed job removes that one job. */
  lemma WithoutOne(waiting: seq<Candidate>, c: Candidate)
    requires DistinctIds(waiting) && c in waiting
    ensures multiset(Without(waiting, c.id)) == multiset(waiting) - multiset{c}
    ensures |Without(waiting, c.id)| == |waiting| - 1
    ensures DistinctIds(Without(waiting, c.id))
  {
    var i :| 0 <= i < |waiting| && waiting[i] == c;
    WithoutAt(waiting, i);
    CutOut(waiting, i);
  }

  lemma CutOut(waiting: seq<Candidate>, i: nat)
    requires i < |waiting|
    ensures multiset(waiting[..i] + waiting[i + 1..]) == multiset(waiting) - multiset{waiting[i]}
  {
    assert waiting == waiting[..i] + [waiting[i]] + waiting[i + 1..];
  }

  lemma {:induction false} WithoutAt(waiting: seq<Candidate>, i: nat)
    requires i < |waiting| && forall k :: 0 <= k < |waiting| && k != i ==> waiting[k].id != waiting[i].id
    ensures Without(waiting, waiting[i].id) == waiting[..i] + waiting[i + 1..]
  {
    var rest := waiting[1..];
    if i == 0 {
      WithoutNone(rest, waiting[0].id);
      assert waiting[..0] + rest == rest;
    } else {
      assert rest[i - 1] == waiting[i];
      WithoutAt(rest, i - 1);
      CutTail(waiting, i);
    }
  }

  lemma CutTail(waiting: seq<Candidate>, i: nat)
    requires 0 < i < |waiting|
    ensures waiting[..i] + waiting[i + 1..] == [waiting[0]] + (waiting[1..][..i - 1] + waiting[1..][i..])
  {
  }

  lemma {:induction false} WithoutNone(waiting: seq<Candidate>, id: string)
    requires forall i :: 0 <= i < |waiting| ==> waiting[i].id != id
    ensures Without(waiting, id) == waiting
  {
    if waiting != [] {
      assert waiting == [waiting[0]] + waiting[1..];
      WithoutNone(waiting[1..], id);
    }
  }

  /** Draining takes every waiting job once. */
  lemma {:induction false} DrainTakesEachOnce(waiting: seq<Candidate>, memory: Memory, arrivals: seq<seq<Candidate>>)
    requires DistinctIds(waiting) && Silent(arrivals) && |arrivals| >= |waiting|
    ensures Taken(Play(waiting, memory, arrivals)) == multiset(waiting)
    decreases |arrivals|
  {
    if arrivals != [] {
      SilentUnfold(waiting, memory, arrivals);
      if waiting == [] {
        DrainTakesEachOnce([], memory, arrivals[1..]);
      } else {
        var c := TheChoice(waiting, memory);
        ChoiceIsWaiting(waiting, memory, c);
        WithoutOne(waiting, c);
        DrainTakesEachOnce(Without(waiting, c.id), memory.After(PickFrom(c)), arrivals[1..]);
        assert c in multiset(waiting);
      }
    }
  }

  lemma {:induction false} DrainOnlyTakesWaiting(waiting: seq<Candidate>, memory: Memory,
                                                 arrivals: seq<seq<Candidate>>, claim: Claim)
    requires Silent(arrivals) && claim in Play(waiting, memory, arrivals)
    ensures claim.taken in waiting
    decreases |arrivals|
  {
    SilentUnfold(waiting, memory, arrivals);
    hide Play, IsChoice;
    if waiting == [] {
      DrainOnlyTakesWaiting([], memory, arrivals[1..], claim);
    } else {
      var c := TheChoice(waiting, memory);
      ChoiceIsWaiting(waiting, memory, c);
      var claims := Play(waiting, memory, arrivals);
      assert claims == [claims[0]] + claims[1..];
      if claim != claims[0] {
        DrainOnlyTakesWaiting(Without(waiting, c.id), memory.After(PickFrom(c)), arrivals[1..], claim);
      }
    }
  }

  ghost predicate InGroupOrder(first: Candidate, second: Candidate) {
    first.kind == second.kind && first.source == second.source ==> Before(first.kind, first, second)
  }

  /** The claimed job stands in front of all that stay in its class and source. */
  lemma ChoiceInGroupOrder(waiting: seq<Candidate>, memory: Memory, d: Candidate)
    requires DistinctIds(waiting) && waiting != []
    requires d in Without(waiting, TheChoice(waiting, memory).id)
    ensures InGroupOrder(TheChoice(waiting, memory), d)
  {
    hide IsChoice, Before;
    var c := TheChoice(waiting, memory);
    ChoiceIsWaiting(waiting, memory, c);
    BeforeIsStrict(c.kind, c, d, c);
  }

  lemma DistinctWithout(waiting: seq<Candidate>, memory: Memory)
    requires DistinctIds(waiting) && waiting != []
    ensures DistinctIds(Without(waiting, TheChoice(waiting, memory).id))
  {
    hide IsChoice;
    ChoiceIsWaiting(waiting, memory, TheChoice(waiting, memory));
    WithoutOne(waiting, TheChoice(waiting, memory));
  }

  /** Jobs of one class and source come in that class's order. */
  ghost predicate InOrder(claims: seq<Claim>) {
    forall i, k :: 0 <= i < k < |claims| ==> InGroupOrder(claims[i].taken, claims[k].taken)
  }

  lemma InOrderStep(claims: seq<Claim>)
    requires claims != [] && InOrder(claims[1..])
    requires forall claim :: claim in claims[1..] ==> InGroupOrder(claims[0].taken, claim.taken)
    ensures InOrder(claims)
  {
    hide InGroupOrder;
    var later := claims[1..];
    forall i, k | 0 <= i < k < |claims| ensures InGroupOrder(claims[i].taken, claims[k].taken) {
      assert claims[k] == later[k - 1] && later[k - 1] in later;
      if i > 0 {
        assert claims[i] == later[i - 1];
      }
    }
  }

  /**
   Draining emits the jobs of each class and source in that class's order, for every
   waiting list and starting memory.
   */
  lemma {:induction false} DrainIsOrdered(waiting: seq<Candidate>, memory: Memory, arrivals: seq<seq<Candidate>>)
    requires DistinctIds(waiting) && Silent(arrivals)
    ensures InOrder(Play(waiting, memory, arrivals))
    decreases |arrivals|
  {
    if arrivals != [] {
      SilentUnfold(waiting, memory, arrivals);
      hide *;
      if waiting == [] {
        DrainIsOrdered([], memory, arrivals[1..]);
      } else {
        var c := TheChoice(waiting, memory);
        var left, next := Without(waiting, c.id), memory.After(PickFrom(c));
        var claims := Play(waiting, memory, arrivals);
        DistinctWithout(waiting, memory);
        DrainIsOrdered(left, next, arrivals[1..]);
        forall claim | claim in claims[1..] ensures InGroupOrder(claims[0].taken, claim.taken) {
          DrainOnlyTakesWaiting(left, next, arrivals[1..], claim);
          ChoiceInGroupOrder(waiting, memory, claim.taken);
        }
        InOrderStep(claims);
      }
    }
  }

  /** The order of a drained class and source, by the fields: live work by deadline, batch work by readiness. */
  lemma DrainedByFields(waiting: seq<Candidate>, memory: Memory, arrivals: seq<seq<Candidate>>, i: nat, k: nat)
    requires DistinctIds(waiting) && Silent(arrivals)
    requires i < k < |Play(waiting, memory, arrivals)|
    ensures var c, d := Play(waiting, memory, arrivals)[i].taken, Play(waiting, memory, arrivals)[k].taken;
            && (c.kind == d.kind == Live && c.source == d.source ==>
                  || c.deadlineMs < d.deadlineMs
                  || (c.deadlineMs == d.deadlineMs && c.readyMs < d.readyMs)
                  || (c.deadlineMs == d.deadlineMs && c.readyMs == d.readyMs && Less(c.id, d.id)))
            && (c.kind == d.kind == Batch && c.source == d.source ==>
                  || c.readyMs < d.readyMs
                  || (c.readyMs == d.readyMs && c.deadlineMs < d.deadlineMs)
                  || (c.readyMs == d.readyMs && c.deadlineMs == d.deadlineMs && Less(c.id, d.id)))
  {
    hide Play;
    DrainIsOrdered(waiting, memory, arrivals);
    assert InGroupOrder(Play(waiting, memory, arrivals)[i].taken, Play(waiting, memory, arrivals)[k].taken);
  }
}
