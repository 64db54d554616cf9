/** Small definitions that several components share. */
module Wrappers {

  datatype Option<T> = None | Some(value: T)

  ghost predicate StrictlyIncreasing(xs: seq<nat>) {
    forall i, j | 0 <= i < j < |xs| :: xs[i] < xs[j]
  }

  /** `part` holds, in order, exactly the elements of `whole` that have the property: those at the positions `at`. */
  ghost predicate PicksAt<T(!new)>(part: seq<T>, whole: seq<T>, at: seq<nat>, has: T -> bool) {
    && |at| == |part| && StrictlyIncreasing(at)
    && (forall k | 0 <= k < |at| :: at[k] < |whole| && part[k] == whole[at[k]] && has(part[k]))
    && (forall i | 0 <= i < |whole| && has(whole[i]) :: i in at)
  }

  ghost predicate Picks<T(!new)>(part: seq<T>, whole: seq<T>, has: T -> bool) {
    exists at :: PicksAt(part, whole, at, has)
  }

  lemma {:induction false} PicksNothing<T(!new)>(has: T -> bool)
    ensures Picks([], [], has)
  {
    assert PicksAt([], [], [], has);
  }

  lemma {:induction false} IncreasingAppend(xs: seq<nat>, x: nat)
    requires StrictlyIncreasing(xs) && forall y | y in xs :: y < x
    ensures StrictlyIncreasing(xs + [x])
  {
    forall i, j | 0 <= i < j < |xs + [x]| ensures (xs + [x])[i] < (xs + [x])[j] {
      assert xs[i] in xs;
    }
  }

  lemma {:induction false} TakesLast<T(!new)>(part: seq<T>, whole: seq<T>, at: seq<nat>, has: T -> bool, x: T)
    requires PicksAt(part, whole, at, has) && has(x)
    ensures PicksAt(part + [x], whole + [x], at + [|whole|], has)
  {
    var ps, ws, ks := part + [x], whole + [x], at + [|whole|];
    forall y | y in at ensures y < |whole| {
      var k :| 0 <= k < |at| && at[k] == y;
    }
    IncreasingAppend(at, |whole|);
    forall i | 0 <= i < |ws| && has(ws[i]) ensures i in ks {
      assert i < |whole| ==> i in at;
    }
  }

  lemma {:induction false} SkipsLast<T(!new)>(part: seq<T>, whole: seq<T>, at: seq<nat>, has: T -> bool, x: T)
    requires PicksAt(part, whole, at, has) && !has(x)
    ensures PicksAt(part, whole + [x], at, has)
  {
    var ws := whole + [x];
    forall i | 0 <= i < |ws| && has(ws[i]) ensures i in at {
      assert ws[i] == whole[i];
    }
  }

  lemma {:induction false} PicksAppend<T(!new)>(part: seq<T>, whole: seq<T>, has: T -> bool, x: T)
    requires Picks(part, whole, has)
    ensures Picks(part + if has(x) then [x] else [], whole + [x], has)
  {
    var at :| PicksAt(part, whole, at, has);
    if has(x) {
      TakesLast(part, whole, at, has, x);
    } else {
      SkipsLast(part, whole, at, has, x);
      assert part + [] == part;
    }
  }
}
