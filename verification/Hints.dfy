/** Typo hints for command names, from `hints.rs`. */
module Hints {
  import opened Prelude
  import opened EditDistance

  /** The distance table by position: entry (i, k) compares the first i and the first k characters. */
  ghost function Table(left: string, right: string, i: nat, k: nat): nat
    requires i <= |left| && k <= |right|
    decreases i + k
  {
    if i == 0 then k
    else if k == 0 then i
    else Min(Min(Table(left, right, i, k - 1) + 1, Table(left, right, i - 1, k) + 1),
             Table(left, right, i - 1, k - 1) + (if left[i - 1] != right[k - 1] then 1 else 0))
  }

  lemma {:induction false} TableIsDistance(left: string, right: string, i: nat, k: nat)
    requires i <= |left| && k <= |right|
    ensures Table(left, right, i, k) == Distance(left[..i], right[..k])
    decreases i + k
  {
    hide Distance, Table;
    if i == 0 || k == 0 {
      TableEdge(left, right, i, k);
    } else {
      TableIsDistance(left, right, i, k - 1);
      TableIsDistance(left, right, i - 1, k);
      TableIsDistance(left, right, i - 1, k - 1);
      DistanceOfPrefixes(left, right, i, k);
      TableStep(left, right, i, k);
    }
  }

  lemma TableEdge(left: string, right: string, i: nat, k: nat)
    requires i <= |left| && k <= |right| && (i == 0 || k == 0)
    ensures Table(left, right, i, k) == Distance(left[..i], right[..k])
  {
    hide Distance;
    DistanceToEmpty(left[..i]);
    DistanceToEmpty(right[..k]);
    assert left[..0] == [] && right[..0] == [];
  }

  lemma TableStep(left: string, right: string, i: nat, k: nat)
    requires 0 < i <= |left| && 0 < k <= |right|
    ensures Table(left, right, i, k)
         == Min(Min(Table(left, right, i, k - 1) + 1, Table(left, right, i - 1, k) + 1),
                Table(left, right, i - 1, k - 1) + (if left[i - 1] != right[k - 1] then 1 else 0))
  {
  }

  lemma DistanceOfPrefixes(left: string, right: string, i: nat, k: nat)
    requires 0 < i <= |left| && 0 < k <= |right|
    ensures Distance(left[..i], right[..k])
         == Min(Min(Distance(left[..i], right[..k - 1]) + 1, Distance(left[..i - 1], right[..k]) + 1),
                Distance(left[..i - 1], right[..k - 1]) + (if left[i - 1] != right[k - 1] then 1 else 0))
  {
    assert left[..i][..i - 1] == left[..i - 1] && right[..k][..k - 1] == right[..k - 1];
  }

  /** The entries up to `upTo` of row `i` are in place. */
  ghost predicate IsRow(row: array<nat>, left: string, right: string, i: nat, upTo: nat)
    requires i <= |left| && upTo <= |right| && row.Length == |right| + 1
    reads row
  {
    forall k :: 0 <= k <= upTo ==> row[k] == Table(left, right, i, k)
  }

  lemma TableEdges(left: string, right: string)
    ensures forall k :: 0 <= k <= |right| ==> Table(left, right, 0, k) == k
    ensures forall i :: 0 <= i <= |left| ==> Table(left, right, i, 0) == i
  {
  }

  /** The two-row dynamic program; the rows change places after each character. */
  method EditCount(left: string, right: string) returns (d: nat)
    ensures d == Distance(left, right)
  {
    if left == [] {
      return |right|;
    }
    TableEdges(left, right);
    hide Table, Distance;
    var previous := new nat[|right| + 1](k => k);
    var current := new nat[|right| + 1](_ => 0);
    for row := 0 to |left|
      invariant previous != current && previous.Length == current.Length == |right| + 1
      invariant fresh(previous) && fresh(current)
      invariant IsRow(previous, left, right, row, |right|)
    {
      FillRow(previous, current, left, right, row);
      previous, current := current, previous;
    }
    TableIsDistance(left, right, |left|, |right|);
    assert left[..|left|] == left && right[..|right|] == right;
    d := previous[|right|];
  }

  /** The inner loop: one row from the row before it. */
  method FillRow(previous: array<nat>, current: array<nat>, left: string, right: string, row: nat)
    requires previous != current && previous.Length == current.Length == |right| + 1
    requires row < |left| && IsRow(previous, left, right, row, |right|)
    modifies current
    ensures IsRow(current, left, right, row + 1, |right|)
  {
    TableEdges(left, right);
    hide Table;
    current[0] := row + 1;
    for column := 0 to |right|
      invariant IsRow(previous, left, right, row, |right|)
      invariant IsRow(current, left, right, row + 1, column)
    {
      var cost := if left[row] != right[column] then 1 else 0;
      var insert := current[column] + 1;
      var delete := previous[column + 1] + 1;
      var replace := previous[column] + cost;
      TableStep(left, right, row + 1, column + 1);
      current[column + 1] := Min(Min(insert, delete), replace);
    }
  }

  /** A name one or two edits away from the word. */
  ghost predicate Close(word: string, name: string) {
    1 <= Distance(word, name) <= 2
  }

  /** The entry is close and no close entry of the list is closer. */
  ghost predicate Closest(word: string, names: seq<string>, i: nat)
    requires i < |names|
  {
    Close(word, names[i])
    && forall k :: 0 <= k < |names| && Close(word, names[k]) ==> Distance(word, names[i]) <= Distance(word, names[k])
  }

  /** Exactly one entry is closest. */
  ghost predicate OnlyClosest(word: string, names: seq<string>, i: nat)
    requires i < |names|
  {
    Closest(word, names, i) && forall k :: 0 <= k < |names| && Closest(word, names, k) ==> k == i
  }

  /** What the search knows after the names of `seen`: `at` is where `best` stands. */
  ghost predicate Scanned(word: string, seen: seq<string>, best: Option<(nat, string)>, tied: bool, at: nat) {
    match best
    case None => !tied && forall k :: 0 <= k < |seen| ==> !Close(word, seen[k])
    case Some(b) =>
      && at < |seen| && Closest(word, seen, at)
      && b == (Distance(word, seen[at]), seen[at])
      && (tied <==> exists k :: 0 <= k < |seen| && k != at && Closest(word, seen, k))
  }

  lemma ScanPast(word: string, seen: seq<string>, best: Option<(nat, string)>, tied: bool, at: nat, name: string)
    requires Scanned(word, seen, best, tied, at)
    requires !Close(word, name) || (best.Some? && Distance(word, name) > best.value.0)
    ensures Scanned(word, seen + [name], best, tied, at)
  {
    var now := seen + [name];
    if best.Some? {
      assert now[|seen|] == name && now[at] == seen[at];
      forall k | 0 <= k < |seen| ensures Closest(word, now, k) <==> Closest(word, seen, k) {
        assert now[k] == seen[k];
        assert Closest(word, seen, k) ==> Distance(word, seen[k]) <= Distance(word, seen[at]);
        assert forall i :: 0 <= i < |seen| ==> now[i] == seen[i];
      }
    }
  }

  lemma ScanTie(word: string, seen: seq<string>, best: Option<(nat, string)>, tied: bool, at: nat, name: string)
    requires Scanned(word, seen, best, tied, at) && best.Some?
    requires Close(word, name) && Distance(word, name) == best.value.0
    ensures Scanned(word, seen + [name], best, true, at)
  {
    assert Closest(word, seen + [name], |seen|);
  }

  lemma ScanCloser(word: string, seen: seq<string>, best: Option<(nat, string)>, tied: bool, at: nat, name: string)
    requires Scanned(word, seen, best, tied, at)
    requires Close(word, name) && (best.Some? ==> Distance(word, name) < best.value.0)
    ensures Scanned(word, seen + [name], Some((Distance(word, name), name)), false, |seen|)
  {
    var now := seen + [name];
    forall k | 0 <= k < |seen| ensures !Closest(word, now, k) {
      if Close(word, seen[k]) {
        assert Distance(word, seen[k]) > Distance(word, name);
        assert now[|seen|] == name;
      }
    }
  }

  lemma NoneScanned(word: string)
    ensures Scanned(word, [], None, false, 0)
  {
  }

  /** At the end of the list `best` without a tie is the only closest entry, and otherwise there is none. */
  lemma ScanDecides(word: string, names: seq<string>, best: Option<(nat, string)>, tied: bool, at: nat)
    requires Scanned(word, names, best, tied, at)
    ensures best.Some? && !tied ==> at < |names| && OnlyClosest(word, names, at) && names[at] == best.value.1
    ensures best.None? || tied ==> forall i :: 0 <= i < |names| ==> !OnlyClosest(word, names, i)
  {
  }

  /** The only closest entry is one or two edits away, and every other entry is the word itself or further away. */
  lemma OnlyClosestByDistance(word: string, names: seq<string>, i: nat)
    requires i < |names|
    ensures OnlyClosest(word, names, i) <==>
              && 1 <= Distance(word, names[i]) <= 2
              && forall k :: 0 <= k < |names| && k != i ==>
                   names[k] == word || Distance(word, names[k]) > Distance(word, names[i])
  {
    forall k | 0 <= k < |names| ensures Distance(word, names[k]) == 0 <==> names[k] == word {
      DistanceZero(word, names[k]);
    }
    hide Distance;
    if OnlyClosest(word, names, i) {
      forall k | 0 <= k < |names| && k != i && names[k] != word
        ensures Distance(word, names[k]) > Distance(word, names[i])
      {
        assert !Closest(word, names, k);
      }
    }
  }

  /** A hint is given exactly when the word is not listed and one entry alone is closest. */
  method UniqueClose(word: string, names: seq<string>) returns (hint: Option<string>)
    ensures hint.Some? <==> word !in names && exists i :: 0 <= i < |names| && OnlyClosest(word, names, i)
    ensures hint.Some? ==> exists i :: 0 <= i < |names| && OnlyClosest(word, names, i) && names[i] == hint.value
  {
    if word in names {
      return None;
    }
    NoneScanned(word);
    var best: Option<(nat, string)> := None;
    var tied := false;
    ghost var at: nat := 0;
    hide Scanned, OnlyClosest, Closest, Distance;
    for n := 0 to |names|
      invariant Scanned(word, names[..n], best, tied, at)
    {
      var name := names[n];
      var score := EditCount(word, name);
      assert names[..n + 1] == names[..n] + [name];
      if score == 0 || score > 2 {
        ScanPast(word, names[..n], best, tied, at, name);
      } else if best.Some? && score > best.value.0 {
        ScanPast(word, names[..n], best, tied, at, name);
      } else if best.Some? && score == best.value.0 {
        ScanTie(word, names[..n], best, tied, at, name);
        tied := true;
      } else {
        ScanCloser(word, names[..n], best, tied, at, name);
        tied := false;
        best := Some((score, name));
        at := n;
      }
    }
    assert names[..|names|] == names;
    ScanDecides(word, names, best, tied, at);
    if tied {
      return None;
    }
    match best {
      case Some(b) =>
        return Some(b.1);
      case None =>
        return None;
    }
  }
}
