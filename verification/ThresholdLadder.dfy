/**
 The numeric sensor threshold ladder of platform-mc/event_manager.cpp, for a ladder with `height` levels on
 each side of normal (the code has three). A state is addressed by its signed distance from normal: the sign is
 the Direction handed to the sensor and the magnitude its Level, so +1 is upper warning and -3 lower fatal.
 */
module ThresholdLadder {

  const SUCCESS: int := 0
  const ERROR: int := 1

  /** One invocation of the sensor's handler. The code always passes the same value for newAlarm and assert. */
  datatype Call = Call(level: int, newAlarm: bool, assertion: bool)

  function On(level: int): Call { Call(level, true, true) }
  function Off(level: int): Call { Call(level, false, false) }

  // ----- what the calls mean for a sensor

  /** The asserted alarms after the sensor has processed the calls in order. */
  function Alarms(before: set<int>, calls: seq<Call>): (after: set<int>)
    decreases |calls|
  {
    if calls == [] then before
    else
      var c := calls[0];
      Alarms(if c.newAlarm then before + {c.level} else before - {c.level}, calls[1..])
  }

  /** The levels between normal and `state`: what should be asserted when the sensor is in `state`. */
  function Asserted(state: int): set<int> {
    if state >= 0 then set l: int | 0 <= l <= state && IsLevel(l) else set l: int | state <= l <= 0 && IsLevel(l)
  }

  /** Every position of the ladder but normal is a level that can be asserted. */
  predicate IsLevel(l: int) { l != 0 }

  predicate Crossing(prev: int, next: int) {
    (prev < 0 < next) || (next < 0 < prev)
  }

  function Abs(x: int): nat { if x < 0 then -x else x }

  /** The levels that a report from `prev` to `next` asserts, whatever was asserted before. */
  function Raised(prev: int, next: int): set<int> {
    if prev == next then {}
    else if Crossing(prev, next) then Asserted(next)
    else set l | l in Asserted(next) && (Abs(prev) <= Abs(l) || l == next)
  }

  /** The levels that such a report leaves deasserted. */
  function Cleared(prev: int, next: int): set<int> {
    Asserted(prev) - Asserted(next)
  }

  // ----- the calls made by one report

  predicate Improving(prev: int, next: int) {
    (prev < next && prev < 0) || (prev > next && prev > 0)
  }

  /** The calls of one loop iteration, at level `cur`. */
  function CallsAt(prev: int, cur: int, improving: bool): seq<Call> {
    if cur == 0 then []
    else if improving then (if cur != prev then [On(cur)] else []) + [Off(cur)]
    else [On(cur)]
  }

  function Toward(cur: int, next: int): int {
    if cur < next then cur + 1 else cur - 1
  }

  /** The calls from level `cur` on, on the way from `prev` to `next`. */
  function Walk(prev: int, cur: int, next: int): seq<Call>
    decreases Abs(next - cur)
  {
    if cur == next then (if next != 0 then [On(next)] else [])
    else CallsAt(prev, cur, Improving(prev, next)) + Walk(prev, Toward(cur, next), next)
  }

  function Report(prev: int, next: int): seq<Call> {
    if prev == next then []
    else if Crossing(prev, next) then Walk(prev, prev, 0) + Walk(0, 0, next)
    else Walk(prev, prev, next)
  }

  // ----- lemmas

  lemma {:induction false} AlarmsAppend(before: set<int>, a: seq<Call>, b: seq<Call>)
    ensures Alarms(before, a + b) == Alarms(Alarms(before, a), b)
    decreases |a|
  {
    if a == [] {
      assert a + b == b;
    } else {
      var c := a[0];
      assert (a + b)[1..] == a[1..] + b;
      AlarmsAppend(if c.newAlarm then before + {c.level} else before - {c.level}, a[1..], b);
    }
  }

  predicate Within(prev: int, cur: int, next: int) {
    prev <= cur <= next || next <= cur <= prev
  }

  /** The nonzero levels from `cur` up to but not including `next`. */
  function Passed(cur: int, next: int): set<int> {
    if cur <= next then set l: int | cur <= l < next && IsLevel(l) else set l: int | next < l <= cur && IsLevel(l)
  }

  lemma {:induction false} AlarmsOfOne(before: set<int>, prev: int, cur: int, improving: bool)
    ensures Alarms(before, CallsAt(prev, cur, improving)) ==
            if cur == 0 then before else if improving then before - {cur} else before + {cur}
  {
    if cur != 0 && improving && cur != prev {
      assert CallsAt(prev, cur, improving) == [On(cur), Off(cur)];
      assert [On(cur), Off(cur)][1..] == [Off(cur)];
      assert Alarms(before, [On(cur), Off(cur)]) == Alarms(before + {cur}, [Off(cur)]);
      assert Alarms(before + {cur}, [Off(cur)]) == Alarms(before + {cur} - {cur}, []);
      assert before + {cur} - {cur} == before - {cur};
    }
  }

  /** Walking to `next` deasserts the levels passed when things improve and asserts them otherwise. */
  lemma {:induction false} WalkEffect(before: set<int>, prev: int, cur: int, next: int)
    requires !Crossing(prev, next) && Within(prev, cur, next)
    ensures Alarms(before, Walk(prev, cur, next)) ==
            (if Improving(prev, next) then before - Passed(cur, next) else before + Passed(cur, next))
            + (if next == 0 then {} else {next})
    decreases Abs(next - cur)
  {
    var improving := Improving(prev, next);
    if cur == next {
      assert Passed(cur, next) == {};
    } else {
      var at := CallsAt(prev, cur, improving);
      var mid := Alarms(before, at);
      AlarmsOfOne(before, prev, cur, improving);
      AlarmsAppend(before, at, Walk(prev, Toward(cur, next), next));
      WalkEffect(mid, prev, Toward(cur, next), next);
      assert Passed(cur, next) == (if cur == 0 then {} else {cur}) + Passed(Toward(cur, next), next);
    }
  }

  /** What one report does to any set of alarms, including jumps across normal. */
  lemma {:induction false} ReportEffect(before: set<int>, prev: int, next: int)
    ensures Alarms(before, Report(prev, next)) == before - Cleared(prev, next) + Raised(prev, next)
  {
    if prev == next {
      assert Cleared(prev, next) == {};
    } else if Crossing(prev, next) {
      var mid := Alarms(before, Walk(prev, prev, 0));
      AlarmsAppend(before, Walk(prev, prev, 0), Walk(0, 0, next));
      WalkEffect(before, prev, prev, 0);
      WalkEffect(mid, 0, 0, next);
      assert Passed(prev, 0) == Asserted(prev) == Cleared(prev, next);
      assert Passed(0, next) + {next} == Asserted(next);
    } else {
      WalkEffect(before, prev, prev, next);
      if Improving(prev, next) {
        assert Passed(prev, next) == Cleared(prev, next);
        assert Raised(prev, next) == if next == 0 then {} else {next};
      } else {
        assert Cleared(prev, next) == {};
        assert Passed(prev, next) + {next} == Raised(prev, next);
      }
    }
  }

  /** If the alarms mirror the reported previous state, they mirror the new state afterwards. */
  lemma {:induction false} ReportTracks(before: set<int>, prev: int, next: int)
    requires before == Asserted(prev)
    ensures Alarms(before, Report(prev, next)) == Asserted(next)
  {
    ReportEffect(before, prev, next);
  }

  /**
   When the reported previous state is not the one the alarms mirror, the call repairs them exactly when they
   are right on every level that the report neither raises nor clears.
   */
  lemma {:induction false} ReportTracksIff(before: set<int>, prev: int, next: int)
    ensures Alarms(before, Report(prev, next)) == Asserted(next)
       <==> (forall l | l !in Cleared(prev, next) + Raised(prev, next) :: l in before <==> l in Asserted(next))
  {
    ReportEffect(before, prev, next);
    var after := before - Cleared(prev, next) + Raised(prev, next);
    assert Raised(prev, next) <= Asserted(next) && Cleared(prev, next) !! Asserted(next);
    if forall l | l !in Cleared(prev, next) + Raised(prev, next) :: l in before <==> l in Asserted(next) {
      forall l ensures l in after <==> l in Asserted(next) {
      }
    }
    if after == Asserted(next) {
      forall l | l !in Cleared(prev, next) + Raised(prev, next)
        ensures l in before <==> l in Asserted(next)
      {
        assert l in after <==> l in before;
      }
    }
  }

  /** The calls of a chain of reports, each starting from the state the one before it ended in. */
  function Chain(states: seq<int>): seq<Call> {
    if |states| <= 1 then [] else Report(states[0], states[1]) + Chain(states[1..])
  }

  /** Every chained run that starts in step with the alarms ends in step with them. */
  lemma {:induction false} ChainTracks(states: seq<int>)
    requires |states| > 0
    ensures Alarms(Asserted(states[0]), Chain(states)) == Asserted(states[|states| - 1])
  {
    if |states| > 1 {
      ReportTracks(Asserted(states[0]), states[0], states[1]);
      AlarmsAppend(Asserted(states[0]), Report(states[0], states[1]), Chain(states[1..]));
      ChainTracks(states[1..]);
    }
  }

  /** Every deassert but that of the previous level directly follows an assert of the same level. */
  ghost predicate OffFollowsOn(prev: int, calls: seq<Call>) {
    forall i | 0 <= i < |calls| && !calls[i].newAlarm && calls[i].level != prev ::
      i > 0 && calls[i - 1] == On(calls[i].level)
  }

  lemma {:induction false} WalkOffFollowsOn(prev: int, cur: int, next: int)
    requires Within(prev, cur, next)
    ensures OffFollowsOn(prev, Walk(prev, cur, next))
    decreases Abs(next - cur)
  {
    if cur != next {
      var head := CallsAt(prev, cur, Improving(prev, next));
      var rest := Walk(prev, Toward(cur, next), next);
      WalkOffFollowsOn(prev, Toward(cur, next), next);
      var calls := head + rest;
      forall i | 0 <= i < |calls| && !calls[i].newAlarm && calls[i].level != prev
        ensures i > 0 && calls[i - 1] == On(calls[i].level)
      {
        if i >= |head| {
          assert calls[i] == rest[i - |head|];
          assert calls[i - 1] == rest[i - |head| - 1];
        }
      }
    }
  }

  lemma {:induction false} WorseningWalkNeverDeasserts(prev: int, cur: int, next: int)
    requires !Improving(prev, next)
    ensures forall i | 0 <= i < |Walk(prev, cur, next)| :: Walk(prev, cur, next)[i].newAlarm
    decreases Abs(next - cur)
  {
    if cur != next {
      WorseningWalkNeverDeasserts(prev, Toward(cur, next), next);
    }
  }

  lemma {:induction false} ReportOffFollowsOn(prev: int, next: int)
    ensures OffFollowsOn(prev, Report(prev, next))
  {
    if prev != next {
      if Crossing(prev, next) {
        WalkOffFollowsOn(prev, prev, 0);
        WorseningWalkNeverDeasserts(0, 0, next);
        var a, b := Walk(prev, prev, 0), Walk(0, 0, next);
        var calls: seq<Call> := a + b;
        forall i | 0 <= i < |calls| && !calls[i].newAlarm && calls[i].level != prev
          ensures i > 0 && calls[i - 1] == On(calls[i].level)
        {
          assert i < |a|;
        }
      } else {
        WalkOffFollowsOn(prev, prev, next);
      }
    }
  }

  // ----- the calls one by one

  /** +1 upwards, -1 downwards. */
  function Direction(prev: int, next: int): int {
    if prev < next then 1 else -1
  }

  /** Getting worse from level `cur` on: each level is asserted once, in order, ending with the new state. */
  ghost predicate AssertsEach(calls: seq<Call>, cur: int, next: int) {
    && |calls| == Abs(next - cur) + 1
    && forall k | 0 <= k < |calls| :: calls[k] == Call(cur + k * Direction(cur, next), true, true)
  }

  lemma {:induction false} WorseningWalk(prev: int, cur: int, next: int)
    requires !Improving(prev, next) && prev != next && cur != 0 && next != 0
    requires (0 < cur <= next) || (next <= cur < 0)
    ensures AssertsEach(Walk(prev, cur, next), cur, next)
    decreases Abs(next - cur)
  {
    if cur != next {
      var after := Toward(cur, next);
      WorseningWalk(prev, after, next);
      var calls, rest := Walk(prev, cur, next), Walk(prev, after, next);
      assert calls == [On(cur)] + rest;
      forall k | 0 <= k < |calls| ensures calls[k] == Call(cur + k * Direction(cur, next), true, true) {
        if k > 0 {
          assert rest[k - 1] == calls[k];
        }
      }
    }
  }

  /**
   Getting better from level `cur` on, a level that is not the previous one: each level on the way is asserted and
   deasserted, and the new state asserted unless it is normal.
   */
  ghost predicate ClearsEach(calls: seq<Call>, cur: int, next: int) {
    var n, d := Abs(next - cur), Direction(cur, next);
    && |calls| == 2 * n + (if next == 0 then 0 else 1)
    && (forall k | 0 <= k < n ::
          && calls[2 * k] == Call(cur + k * d, true, true)
          && calls[2 * k + 1] == Call(cur + k * d, false, false))
    && (next != 0 ==> calls[2 * n] == Call(next, true, true))
  }

  lemma {:induction false} ImprovingWalk(prev: int, cur: int, next: int)
    requires Improving(prev, next) && cur != prev
    requires (0 <= next <= cur < prev) || (prev < cur <= next <= 0)
    ensures ClearsEach(Walk(prev, cur, next), cur, next)
    decreases Abs(next - cur)
  {
    if cur != next {
      var after, d := Toward(cur, next), Direction(cur, next);
      ImprovingWalk(prev, after, next);
      var calls, rest := Walk(prev, cur, next), Walk(prev, after, next);
      assert calls == [On(cur), Off(cur)] + rest;
      forall k | 0 <= k < Abs(next - cur)
        ensures calls[2 * k] == Call(cur + k * d, true, true) && calls[2 * k + 1] == Call(cur + k * d, false, false)
      {
        if k > 0 {
          assert calls[2 * k] == rest[2 * (k - 1)] && calls[2 * k + 1] == rest[2 * (k - 1) + 1];
        }
      }
    }
  }

  /** A report that gets worse asserts each level from the previous one, or the first from normal, to the new one. */
  lemma {:induction false} WorseCallByCall(prev: int, next: int)
    requires !Crossing(prev, next) && prev != next && !Improving(prev, next)
    ensures AssertsEach(Report(prev, next), if prev == 0 then Direction(prev, next) else prev, next)
  {
    if prev == 0 {
      var first := Direction(prev, next);
      WorseningWalk(prev, first, next);
      assert CallsAt(prev, 0, false) == [] && Toward(0, next) == first;
      assert Walk(prev, 0, next) == Walk(prev, first, next);
    } else {
      WorseningWalk(prev, prev, next);
    }
  }

  /**
   One that gets better deasserts the previous level, then asserts and deasserts each level on the way, and asserts
   the new one unless it is normal.
   */
  lemma {:induction false} BetterCallByCall(prev: int, next: int)
    requires !Crossing(prev, next) && Improving(prev, next)
    ensures var calls := Report(prev, next);
            && calls != [] && calls[0] == Call(prev, false, false)
            && ClearsEach(calls[1..], prev + Direction(prev, next), next)
  {
    var after := prev + Direction(prev, next);
    ImprovingWalk(prev, after, next);
    assert Toward(prev, next) == after && CallsAt(prev, prev, true) == [Off(prev)];
    assert Walk(prev, prev, next)[1..] == Walk(prev, after, next);
  }

  // ----- the function itself

  /** The position of a state in the order, or the end of the order when it is not a threshold state. */
  function Position(order: seq<nat>, state: nat, from: nat): (i: nat)
    requires from <= |order|
    ensures from <= i <= |order| && (i < |order| ==> order[i] == state)
    ensures forall j | from <= j < i :: order[j] != state
    decreases |order| - from
  {
    if from == |order| || order[from] == state then from else Position(order, state, from + 1)
  }

  /** std::find over the state order. */
  method Find(order: seq<nat>, state: nat) returns (i: nat)
    ensures i == Position(order, state, 0)
  {
    i := 0;
    while i < |order| && order[i] != state
      invariant i <= |order|
      invariant Position(order, state, 0) == Position(order, state, i)
    {
      i := i + 1;
    }
  }

  /** The completion code of a report: that of the last handler call when it ends away from normal. */
  function ReportRc(prev: int, next: int, handler: Call -> int): int {
    if prev == next || next == 0 then SUCCESS else handler(On(next))
  }

  lemma {:induction false} WalkEndsOn(prev: int, cur: int, next: int)
    requires next != 0
    ensures var calls := Walk(prev, cur, next); calls != [] && calls[|calls| - 1] == On(next)
    decreases Abs(next - cur)
  {
    if cur != next {
      WalkEndsOn(prev, Toward(cur, next), next);
    }
  }

  /**
   The completion code is that of the last call, which asserts the new state; without a report to make, and for one
   that ends at normal, it is success.
   */
  lemma {:induction false} ReportRcIsLastCall(prev: int, next: int, handler: Call -> int)
    ensures var calls := Report(prev, next);
            if prev == next || next == 0 then ReportRc(prev, next, handler) == 0
            else && calls != [] && calls[|calls| - 1] == Call(next, true, true)
                 && ReportRc(prev, next, handler) == handler(calls[|calls| - 1])
  {
    if prev != next && next != 0 {
      WalkEndsOn(0, 0, next);
      WalkEndsOn(prev, prev, next);
    }
  }

  /** The body of the loop: the calls made at one position. */
  method CallHandler(prev: int, curr: int, gettingBetter: bool) returns (calls: seq<Call>)
    ensures calls == CallsAt(prev, curr, gettingBetter)
  {
    calls := [];
    if curr == 0 {
      return;
    }
    if gettingBetter {
      if curr != prev {
        calls := calls + [On(curr)];
      }
      calls := calls + [Off(curr)];
    } else {
      calls := calls + [On(curr)];
    }
  }

  lemma {:induction false} WalkStep(calls: seq<Call>, prev: int, cur: int, next: int)
    requires cur != next
    ensures calls + Walk(prev, cur, next)
         == calls + CallsAt(prev, cur, Improving(prev, next)) + Walk(prev, Toward(cur, next), next)
  {
  }

  /** The loop of the function, for two positions that are not on opposite sides of normal. */
  method WalkLevels(prev: int, next: int, handler: Call -> int) returns (rc: int, calls: seq<Call>)
    requires prev != next && !Crossing(prev, next)
    ensures calls == Report(prev, next)
    ensures rc == ReportRc(prev, next, handler)
  {
    calls := [];
    var goingUp := prev < next;
    var gettingBetter := (prev < next && prev < 0) || (prev > next && prev > 0);
    var curr := prev;
    while curr != next
      invariant Within(prev, curr, next)
      invariant calls + Walk(prev, curr, next) == Report(prev, next)
      decreases Abs(next - curr)
    {
      var made := CallHandler(prev, curr, gettingBetter);
      WalkStep(calls, prev, curr, next);
      calls := calls + made;
      curr := if goingUp then curr + 1 else curr - 1;
    }
    if next != 0 {
      calls := calls + [On(next)];
      return handler(On(next)), calls;
    }
    assert Walk(prev, curr, next) == [];
    rc := SUCCESS;
  }

  /** A jump across normal is two reports, and the first of them always succeeds. */
  lemma {:induction false} CrossingSplits(prev: int, next: int, handler: Call -> int)
    requires Crossing(prev, next)
    ensures Report(prev, next) == Report(prev, 0) + Report(0, next)
    ensures ReportRc(prev, 0, handler) == SUCCESS && ReportRc(prev, next, handler) == ReportRc(0, next, handler)
  {
  }

  /** The function once both states have been found; a jump across normal recurses on its two halves. */
  method TriggerBetween(prev: int, next: int, handler: Call -> int) returns (rc: int, calls: seq<Call>)
    ensures rc == ReportRc(prev, next, handler) && calls == Report(prev, next)
    decreases if prev == 0 || next == 0 then 0 else 1
  {
    if prev == next {
      return SUCCESS, [];
    }
    if (prev < 0 && next > 0) || (prev > 0 && next < 0) {
      var first, second;
      CrossingSplits(prev, next, handler);
      rc, first := TriggerBetween(prev, 0, handler);
      if rc != SUCCESS {
        assert false;  // a report that ends at normal always succeeds
      }
      rc, second := TriggerBetween(0, next, handler);
      return rc, first + second;
    }
    rc, calls := WalkLevels(prev, next, handler);
  }

  /**
   triggerNumericSensorThresholdEvent. The handler's effect is the list of calls made; `handler` gives the code
   each call returns. An undefined state is refused without a call.
   */
  method TriggerNumericSensorThresholdEvent(order: seq<nat>, height: nat, previousEventState: nat,
                                            nextEventState: nat, handler: Call -> int)
    returns (rc: int, calls: seq<Call>)
    requires |order| == 2 * height + 1
    ensures previousEventState !in order || nextEventState !in order ==> rc == ERROR && calls == []
    ensures previousEventState in order && nextEventState in order ==>
              var p, q := Position(order, previousEventState, 0) - height, Position(order, nextEventState, 0) - height;
              rc == ReportRc(p, q, handler) && calls == Report(p, q)
  {
    var prevIt := Find(order, previousEventState);
    if prevIt == |order| {
      return ERROR, [];
    }
    var nextIt := Find(order, nextEventState);
    if nextIt == |order| {
      return ERROR, [];
    }
    var prev: int, next: int := prevIt - height, nextIt - height;
    rc, calls := TriggerBetween(prev, next, handler);
  }
}
