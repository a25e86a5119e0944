/**
 Edit distance, defined as the length of a shortest sequence of single-character edits
 applied anywhere in the string, and the recurrence that computes it.
 */
module EditDistance {
  import opened Prelude

  /** One edit at a position of the current string. */
  datatype Edit = Insert(at: nat, c: char) | Delete(at: nat) | Replace(at: nat, c: char)

  predicate Applies(s: string, e: Edit) {
    match e
    case Insert(at, _) => at <= |s|
    case Delete(at) => at < |s|
    case Replace(at, _) => at < |s|
  }

  function Apply(s: string, e: Edit): string
    requires Applies(s, e)
  {
    match e
    case Insert(at, c) => s[..at] + [c] + s[at..]
    case Delete(at) => s[..at] + s[at + 1..]
    case Replace(at, c) => s[..at] + [c] + s[at + 1..]
  }

  /** The script turns `a` into `b`. */
  predicate Turns(a: string, script: seq<Edit>, b: string)
    decreases |script|
  {
    if script == [] then a == b
    else Applies(a, script[0]) && Turns(Apply(a, script[0]), script[1..], b)
  }

  /** The recurrence over the last characters. */
  function Distance(a: string, b: string): nat
    decreases |a| + |b|
  {
    if a == [] then |b|
    else if b == [] then |a|
    else
      var a', b' := a[..|a| - 1], b[..|b| - 1];
      Min(Min(Distance(a, b') + 1, Distance(a', b) + 1),
          Distance(a', b') + (if a[|a| - 1] == b[|b| - 1] then 0 else 1))
  }

  // ---- the recurrence is a metric ----

  lemma {:induction false} DistanceToEmpty(a: string)
    ensures Distance(a, []) == |a| && Distance([], a) == |a|
  {
  }

  /** One character at the end changes the distance by at most one. */
  lemma DistanceGrows(a: string, b: string)
    ensures a != [] ==> Distance(a, b) <= Distance(a[..|a| - 1], b) + 1
    ensures b != [] ==> Distance(a, b) <= Distance(a, b[..|b| - 1]) + 1
    ensures a != [] && b != [] ==>
              Distance(a, b) <= Distance(a[..|a| - 1], b[..|b| - 1])
                                + (if a[|a| - 1] == b[|b| - 1] then 0 else 1)
  {
  }

  lemma {:induction false} DistanceZero(a: string, b: string)
    ensures Distance(a, b) == 0 <==> a == b
    decreases |a| + |b|
  {
    if a != [] && b != [] {
      var a', b' := a[..|a| - 1], b[..|b| - 1];
      assert a == a' + [a[|a| - 1]] && b == b' + [b[|b| - 1]];
      DistanceZero(a', b');
    }
  }

  lemma {:induction false} DistanceSymmetric(a: string, b: string)
    ensures Distance(a, b) == Distance(b, a)
    decreases |a| + |b|
  {
    if a != [] && b != [] {
      DistanceSymmetric(a, b[..|b| - 1]);
      DistanceSymmetric(a[..|a| - 1], b);
      DistanceSymmetric(a[..|a| - 1], b[..|b| - 1]);
    }
  }

  lemma {:induction false} DistanceTriangle(a: string, b: string, c: string)
    ensures Distance(a, c) <= Distance(a, b) + Distance(b, c)
    decreases |a| + |b| + |c|
  {
    if a == [] {
      DistanceLength(b, c);
    } else if c == [] {
      DistanceLength(a, b);
    } else if b != [] {
      DistanceGrows(a, c);
      DistanceTriangle(a[..|a| - 1], b, c);
      DistanceTriangle(a, b, c[..|c| - 1]);
      DistanceTriangle(a, b[..|b| - 1], c);
      DistanceTriangle(a[..|a| - 1], b[..|b| - 1], c);
      DistanceTriangle(a, b[..|b| - 1], c[..|c| - 1]);
      DistanceTriangle(a[..|a| - 1], b[..|b| - 1], c[..|c| - 1]);
    } else {
      DistanceAtMost(a, c);
    }
  }

  /** The distance is at least the difference in length. */
  lemma {:induction false} DistanceLength(a: string, b: string)
    ensures |a| <= |b| + Distance(a, b) && |b| <= |a| + Distance(a, b)
    decreases |a| + |b|
  {
    if a != [] && b != [] {
      DistanceLength(a, b[..|b| - 1]);
      DistanceLength(a[..|a| - 1], b);
      DistanceLength(a[..|a| - 1], b[..|b| - 1]);
    }
  }

  lemma {:induction false} DistanceAtMost(a: string, b: string)
    ensures Distance(a, b) <= |a| + |b|
    decreases |a| + |b|
  {
    if a != [] && b != [] {
      DistanceAtMost(a, b[..|b| - 1]);
    }
  }

  // ---- no script is shorter than the distance ----

  /** A common suffix does not add to the distance. */
  lemma {:induction false} SuffixAddsNothing(a: string, b: string, suffix: string)
    ensures Distance(a + suffix, b + suffix) <= Distance(a, b)
    decreases |suffix|
  {
    hide Distance;
    if suffix == [] {
      assert a + suffix == a && b + suffix == b;
    } else {
      var rest, x := suffix[..|suffix| - 1], suffix[|suffix| - 1];
      SuffixAddsNothing(a, b, rest);
      SameLast(a + rest, b + rest, x);
      assert a + rest + [x] == a + suffix && b + rest + [x] == b + suffix;
    }
  }

  lemma SameLast(a: string, b: string, x: char)
    ensures Distance(a + [x], b + [x]) <= Distance(a, b)
  {
    assert (a + [x])[..|a|] == a && (b + [x])[..|b|] == b;
  }

  lemma EditCostsOne(s: string, e: Edit)
    requires Applies(s, e)
    ensures Distance(s, Apply(s, e)) <= 1
  {
    hide Distance;
    var head := s[..e.at];
    DistanceZero(head, head);
    match e {
      case Insert(at, c) =>
        assert s == head + s[at..];
        assert (head + [c])[..|head|] == head;
        DistanceGrows(head, head + [c]);
        SuffixAddsNothing(head, head + [c], s[at..]);
      case Delete(at) =>
        var longer := head + [s[at]];
        assert s == longer + s[at + 1..];
        assert longer[..|head|] == head;
        DistanceGrows(longer, head);
        SuffixAddsNothing(longer, head, s[at + 1..]);
      case Replace(at, c) =>
        var before, after := head + [s[at]], head + [c];
        assert s == before + s[at + 1..];
        assert before[..|head|] == head && after[..|head|] == head;
        DistanceGrows(before, after);
        SuffixAddsNothing(before, after, s[at + 1..]);
    }
  }

  lemma {:induction false} ScriptIsLongEnough(a: string, script: seq<Edit>, b: string)
    requires Turns(a, script, b)
    ensures Distance(a, b) <= |script|
    decreases |script|
  {
    if script == [] {
      DistanceZero(a, b);
    } else {
      var next := Apply(a, script[0]);
      ScriptIsLongEnough(next, script[1..], b);
      EditCostsOne(a, script[0]);
      DistanceTriangle(a, next, b);
    }
  }

  // ---- and one script is exactly that long ----

  lemma {:induction false} TurnsThen(a: string, first: seq<Edit>, b: string, second: seq<Edit>, c: string)
    requires Turns(a, first, b) && Turns(b, second, c)
    ensures Turns(a, first + second, c)
    decreases |first|
  {
    hide Apply, Applies;
    if first == [] {
      assert first + second == second;
    } else {
      TurnsThen(Apply(a, first[0]), first[1..], b, second, c);
      assert (first + second)[0] == first[0] && (first + second)[1..] == first[1..] + second;
    }
  }

  /** A script for a prefix works unchanged in the longer string. */
  lemma {:induction false} TurnsUnderSuffix(a: string, script: seq<Edit>, b: string, x: char)
    requires Turns(a, script, b)
    ensures Turns(a + [x], script, b + [x])
    decreases |script|
  {
    if script != [] {
      ApplyUnderSuffix(a, script[0], x);
      TurnsUnderSuffix(Apply(a, script[0]), script[1..], b, x);
    }
  }

  lemma ApplyUnderSuffix(a: string, e: Edit, x: char)
    requires Applies(a, e)
    ensures Applies(a + [x], e) && Apply(a + [x], e) == Apply(a, e) + [x]
  {
    match e
    case Insert(at, c) =>
    case Delete(at) =>
    case Replace(at, c) =>
  }

  lemma TurnsThenEdit(a: string, first: seq<Edit>, b: string, e: Edit, c: string)
    requires Turns(a, first, b) && Applies(b, e) && Apply(b, e) == c
    ensures Turns(a, first + [e], c)
  {
    assert Turns(b, [e], c) by {
      assert Turns(c, [e][1..], c);
    }
    TurnsThen(a, first, b, [e], c);
  }

  lemma InsertAtEnd(a: string, script: seq<Edit>, b: string, y: char)
    requires Turns(a, script, b)
    ensures Turns(a, script + [Insert(|b|, y)], b + [y])
  {
    TurnsThenEdit(a, script, b, Insert(|b|, y), b + [y]);
  }

  lemma DeleteAtEnd(a: string, x: char, script: seq<Edit>, b: string)
    requires Turns(a, script, b)
    ensures Turns(a + [x], [Delete(|a|)] + script, b)
  {
    assert Apply(a + [x], Delete(|a|)) == a;
    assert ([Delete(|a|)] + script)[1..] == script;
  }

  lemma ReplaceAtEnd(a: string, x: char, script: seq<Edit>, b: string, y: char)
    requires Turns(a, script, b)
    ensures Turns(a + [x], script, b + [x])
    ensures Turns(a + [x], script + [Replace(|b|, y)], b + [y])
  {
    TurnsUnderSuffix(a, script, b, x);
    assert Apply(b + [x], Replace(|b|, y)) == b + [y];
    TurnsThenEdit(a + [x], script, b + [x], Replace(|b|, y), b + [y]);
  }

  /** The distance is one of its candidates. */
  lemma DistanceChoice(a: string, b: string)
    requires a != [] || b != []
    ensures (b != [] && Distance(a, b) == Distance(a, b[..|b| - 1]) + 1)
            || (a != [] && Distance(a, b) == Distance(a[..|a| - 1], b) + 1)
            || (a != [] && b != []
                && Distance(a, b) == Distance(a[..|a| - 1], b[..|b| - 1]) + (if a[|a| - 1] == b[|b| - 1] then 0 else 1))
  {
  }

  lemma SnocLast(s: string)
    requires s != []
    ensures s == s[..|s| - 1] + [s[|s| - 1]]
  {
  }

  lemma {:induction false} ShortestScript(a: string, b: string) returns (script: seq<Edit>)
    ensures Turns(a, script, b) && |script| == Distance(a, b)
    decreases |a| + |b|
  {
    hide Apply, Applies;
    if a == [] && b == [] {
      script := [];
    } else {
      DistanceChoice(a, b);
      if b != [] && Distance(a, b) == Distance(a, b[..|b| - 1]) + 1 {
        script := ShortestScript(a, b[..|b| - 1]);
        SnocLast(b);
        InsertAtEnd(a, script, b[..|b| - 1], b[|b| - 1]);
        script := script + [Insert(|b| - 1, b[|b| - 1])];
      } else if a != [] && Distance(a, b) == Distance(a[..|a| - 1], b) + 1 {
        script := ShortestScript(a[..|a| - 1], b);
        SnocLast(a);
        DeleteAtEnd(a[..|a| - 1], a[|a| - 1], script, b);
        script := [Delete(|a| - 1)] + script;
      } else {
        script := ShortestScript(a[..|a| - 1], b[..|b| - 1]);
        SnocLast(a);
        SnocLast(b);
        ReplaceAtEnd(a[..|a| - 1], a[|a| - 1], script, b[..|b| - 1], b[|b| - 1]);
        if a[|a| - 1] != b[|b| - 1] {
          script := script + [Replace(|b| - 1, b[|b| - 1])];
        }
      }
    }
  }

  /** The recurrence is the length of a shortest script, for all strings. */
  lemma DistanceIsShortestScript(a: string, b: string)
    ensures exists script :: Turns(a, script, b) && |script| == Distance(a, b)
    ensures forall script :: Turns(a, script, b) ==> |script| >= Distance(a, b)
  {
    var best := ShortestScript(a, b);
    forall script | Turns(a, script, b) ensures |script| >= Distance(a, b) {
      ScriptIsLongEnough(a, script, b);
    }
  }
}
