/**
 EventManager::pollForPlatformEventTask of platform-mc/event_manager.cpp: the agent's side of
 PollForPlatformEventMessage (section 16.7 of DSP0248), which fetches queued events part by part, acknowledges
 each and hands it to the registered handlers.
 */
module EventPolling {
  import opened Bytes

  // TransferOperationFlag
  const GET_NEXTPART: nat := 0
  const GET_FIRSTPART: nat := 1
  const ACKNOWLEDGEMENT_ONLY: nat := 2

  // TransferFlag
  const TRANSFER_START: nat := 0
  const TRANSFER_MIDDLE: nat := 1
  const TRANSFER_END: nat := 4
  const TRANSFER_START_AND_END: nat := 5

  // event identifiers with a meaning of their own
  const EVENT_ID_NONE: nat := 0
  const EVENT_ID_NULL: nat := 0
  const EVENT_ID_ACK: nat := 0xFFFF
  const EVENT_ID_FRAGMENT: nat := 0xFFFF

  const SUCCESS: nat := 0
  const ERROR_INVALID_DATA: nat := 2

  /** What the poll task depends on: the number of handlers registered per event class, and pldm_edac_crc32. */
  datatype Env = Env(handlers: map<nat, nat>, crc: seq<Byte> -> nat)

  datatype Request = Request(op: nat, handle: nat, ackId: nat)

  /**
   The outcome of one round: the terminus became unavailable before the request was sent, the exchange failed
   with code rc (0 when only the completion code was bad), or a decoded response.
   */
  datatype Reply =
    | Unavailable
    | Failed(rc: nat)
    | Reply(tid: nat, eventId: nat, nextHandle: nat, flag: nat, cls: nat, data: seq<Byte>, checksum: nat)

  /** What the poll task does to the outside: sending a request, and invoking handler number `index` of a class. */
  datatype Act =
    | Sent(request: Request)
    | Handled(index: nat, tid: nat, id: nat, cls: nat, data: seq<Byte>)

  datatype Outcome = Running | Stopped | Returned(rc: nat)

  /** The local variables of the poll task, and what it has done so far. */
  datatype Agent = Agent(
    op: nat, handle: nat, ackId: nat,
    polledTid: nat, polledId: nat, polledClass: nat,
    message: seq<Byte>, trace: seq<Act>, outcome: Outcome)

  function Init(pollHandle: nat): Agent {
    Agent(GET_FIRSTPART, pollHandle, EVENT_ID_NULL, 0, EVENT_ID_NONE, 0, [], [], Running)
  }

  function RequestOf(a: Agent): Request {
    Request(a.op, a.handle, a.ackId)
  }

  // ----- one round

  predicate Final(flag: nat) {
    flag == TRANSFER_START_AND_END || flag == TRANSFER_END
  }

  /** How many handlers are registered for a class. */
  function HandlersOf(env: Env, cls: nat): nat {
    if cls in env.handlers then env.handlers[cls] else 0
  }

  /** The handler invocations for one event: each handler of its class once, in registration order. */
  function Calls(env: Env, tid: nat, id: nat, cls: nat, data: seq<Byte>): seq<Act> {
    if cls in env.handlers then seq(env.handlers[cls], (i: nat) => Handled(i, tid, id, cls, data)) else []
  }

  function Close(a: Agent, eventId: nat): Agent {
    if eventId == EVENT_ID_NONE then a.(outcome := Returned(SUCCESS)) else a
  }

  /** The response to an acknowledgement: deliver the event, then go for the next one if there may be more. */
  function OnAcknowledged(env: Env, a: Agent, r: Reply): Agent
    requires r.Reply?
  {
    var message := a.message + r.data;
    var done := a.(message := [],
                   trace := a.trace + Calls(env, a.polledTid, a.polledId, a.polledClass, message));
    Close(if r.eventId == EVENT_ID_ACK
          then done.(op := GET_FIRSTPART, handle := 0, ackId := EVENT_ID_NULL) else done, r.eventId)
  }

  /** The response to a request for a part: ask for the next part, or check and acknowledge the whole event. */
  function OnPart(env: Env, a: Agent, r: Reply): Agent
    requires r.Reply?
  {
    var b := a.(message := a.message + r.data);
    if !Final(r.flag) then
      Close(b.(op := GET_NEXTPART, handle := r.nextHandle, ackId := EVENT_ID_FRAGMENT), r.eventId)
    else if r.flag == TRANSFER_END && r.checksum != env.crc(b.message) then
      b.(outcome := Returned(ERROR_INVALID_DATA))
    else
      Close(b.(op := ACKNOWLEDGEMENT_ONLY, handle := 0, ackId := r.eventId,
               polledTid := r.tid, polledId := r.eventId, polledClass := r.cls), r.eventId)
  }

  function Step(env: Env, a: Agent, r: Reply): Agent {
    match r
    case Unavailable => a.(outcome := Stopped)
    case Failed(rc) => a.(trace := a.trace + [Sent(RequestOf(a))], outcome := Returned(rc))
    case Reply(_, _, _, _, _, _, _) =>
      var b := a.(trace := a.trace + [Sent(RequestOf(a))]);
      if a.op == ACKNOWLEDGEMENT_ONLY then OnAcknowledged(env, b, r) else OnPart(env, b, r)
  }

  /** The agent after the given replies, or after fewer if the poll task ends first. */
  function Run(env: Env, a: Agent, replies: seq<Reply>): Agent
    decreases |replies|
  {
    if !a.outcome.Running? || replies == [] then a
    else Run(env, Step(env, a, replies[0]), replies[1..])
  }

  // ----- the poll task

  method GetNextPartParameters(env: Env, eventId: nat, eventMessage: seq<Byte>, transferFlag: nat, checksum: nat,
                               nextDataTransferHandle: nat, op: nat, handle: nat, ackId: nat)
    returns (rc: nat, op': nat, handle': nat, ackId': nat)
    ensures rc == SUCCESS <==> !(transferFlag == TRANSFER_END && checksum != env.crc(eventMessage))
    ensures rc != SUCCESS ==> rc == ERROR_INVALID_DATA && (op', handle', ackId') == (op, handle, ackId)
    ensures rc == SUCCESS ==>
      (op', handle', ackId') == if Final(transferFlag) then (ACKNOWLEDGEMENT_ONLY, 0, eventId)
                                else (GET_NEXTPART, nextDataTransferHandle, EVENT_ID_FRAGMENT)
  {
    op', handle', ackId' := op, handle, ackId;
    if transferFlag != TRANSFER_START_AND_END && transferFlag != TRANSFER_END {
      return SUCCESS, GET_NEXTPART, nextDataTransferHandle, EVENT_ID_FRAGMENT;
    }
    if transferFlag == TRANSFER_END {
      if checksum != env.crc(eventMessage) {
        rc := ERROR_INVALID_DATA;
        return;
      }
    }
    return SUCCESS, ACKNOWLEDGEMENT_ONLY, 0, eventId;
  }

  method CallPolledEventHandlers(env: Env, tid: nat, cls: nat, id: nat, message: seq<Byte>)
    returns (acts: seq<Act>)
    ensures acts == Calls(env, tid, id, cls, message)
    ensures |acts| == HandlersOf(env, cls)
    ensures forall i | 0 <= i < |acts| :: acts[i] == Handled(i, tid, id, cls, message)
  {
    acts := [];
    if cls !in env.handlers {
      return;  // std::out_of_range, which is logged
    }
    for i := 0 to env.handlers[cls]
      invariant acts == seq(i, (k: nat) => Handled(k, tid, id, cls, message))
    {
      acts := acts + [Handled(i, tid, id, cls, message)];
    }
  }

  /** pollForPlatformEventTask against any peer: `replies` is what the rounds of one run bring, in order. */
  method PollForPlatformEventTask(env: Env, pollDataTransferHandle: nat, replies: seq<Reply>)
    returns (outcome: Outcome, trace: seq<Act>)
    ensures var a := Run(env, Init(pollDataTransferHandle), replies);
            outcome == a.outcome && trace == a.trace
  {
    var op, handle, ackId := GET_FIRSTPART, pollDataTransferHandle, EVENT_ID_NULL;
    var eventId := EVENT_ID_ACK;
    var polledId, polledTid, polledClass := EVENT_ID_NONE, 0, 0;
    var message: seq<Byte> := [];
    trace := [];
    var round := 0;
    ghost var a := Init(pollDataTransferHandle);
    while eventId != EVENT_ID_NONE
      invariant round <= |replies|
      invariant Run(env, Init(pollDataTransferHandle), replies) == Run(env, a, replies[round..])
      invariant a == Agent(op, handle, ackId, polledTid, polledId, polledClass, message, trace,
                           if eventId == EVENT_ID_NONE then Returned(SUCCESS) else Running)
      decreases |replies| - round
    {
      if round == |replies| {
        return Running, trace;  // still waiting for the terminus
      }
      var r := replies[round];
      round := round + 1;
      a := Step(env, a, r);
      if r.Unavailable? {
        return Stopped, trace;
      }
      trace := trace + [Sent(Request(op, handle, ackId))];
      if r.Failed? {
        return Returned(r.rc), trace;
      }
      eventId := r.eventId;
      message := message + r.data;
      if op == ACKNOWLEDGEMENT_ONLY {
        if polledClass in env.handlers {
          var acts := CallPolledEventHandlers(env, polledTid, polledClass, polledId, message);
          trace := trace + acts;
        }
        message := [];
        if eventId == EVENT_ID_ACK {
          op, handle, ackId := GET_FIRSTPART, 0, EVENT_ID_NULL;
        }
      } else {
        var ret;
        ret, op, handle, ackId := GetNextPartParameters(env, eventId, message, r.flag, r.checksum, r.nextHandle,
                                                        op, handle, ackId);
        if ret != SUCCESS {
          return Returned(ERROR_INVALID_DATA), trace;
        }
        if r.flag == TRANSFER_START_AND_END || r.flag == TRANSFER_END {
          polledTid, polledId, polledClass := r.tid, eventId, r.cls;
        }
      }
    }
    outcome := Returned(SUCCESS);
  }

  // ----- safety against any terminus

  predicate IsAck(act: Act) {
    act.Sent? && act.request.op == ACKNOWLEDGEMENT_ONLY
  }

  /** Whenever a handler ran, the last thing sent before it was the acknowledgement of that very event. */
  ghost predicate HandledAfterAck(trace: seq<Act>) {
    forall i | 0 <= i < |trace| && trace[i].Handled? ::
      exists j :: 0 <= j < i && IsAck(trace[j]) && trace[j].request.ackId == trace[i].id
                  && forall k | j < k < i :: trace[k].Handled?
  }

  ghost predicate AgentInv(a: Agent) {
    (a.op == ACKNOWLEDGEMENT_ONLY ==> a.ackId == a.polledId) && HandledAfterAck(a.trace)
  }

  lemma {:induction false} StepKeepsInv(env: Env, a: Agent, r: Reply)
    requires AgentInv(a)
    ensures AgentInv(Step(env, a, r))
  {
    var b := Step(env, a, r);
    forall i | 0 <= i < |b.trace| && b.trace[i].Handled?
      ensures exists j :: 0 <= j < i && IsAck(b.trace[j]) && b.trace[j].request.ackId == b.trace[i].id
                          && forall k | j < k < i :: b.trace[k].Handled?
    {
      if i < |a.trace| {
        assert a.trace[i].Handled?;
        var j :| 0 <= j < i && IsAck(a.trace[j]) && a.trace[j].request.ackId == a.trace[i].id
                 && forall k | j < k < i :: a.trace[k].Handled?;
        assert forall k | 0 <= k <= i :: b.trace[k] == a.trace[k];
        assert IsAck(b.trace[j]);
      } else {
        assert b.trace[|a.trace|] == Sent(RequestOf(a));
        assert IsAck(b.trace[|a.trace|]);
      }
    }
  }

  lemma {:induction false} RunKeepsInv(env: Env, a: Agent, replies: seq<Reply>)
    requires AgentInv(a)
    ensures AgentInv(Run(env, a, replies))
    decreases |replies|
  {
    if a.outcome.Running? && replies != [] {
      StepKeepsInv(env, a, replies[0]);
      RunKeepsInv(env, Step(env, a, replies[0]), replies[1..]);
    }
  }

  /** On every run, whatever the terminus answers, an event reaches its handlers only right after its own ACK. */
  lemma {:induction false} DeliveredOnlyAfterAck(env: Env, pollHandle: nat, replies: seq<Reply>)
    ensures HandledAfterAck(Run(env, Init(pollHandle), replies).trace)
  {
    RunKeepsInv(env, Init(pollHandle), replies);
  }

  // ----- a terminus that follows the protocol

  /** One part of an event; `next` is the handle under which the following part can be fetched. */
  datatype Part = Part(data: seq<Byte>, next: nat)

  /** `more` says whether the terminus answers the acknowledgement with ACK (poll again) or with NONE. */
  datatype Event = Event(tid: nat, id: nat, cls: nat, parts: seq<Part>, checksum: nat, more: bool)

  /** The events queued at the terminus, and how many parts of the first one it has handed out. */
  datatype Terminus = Terminus(queue: seq<Event>, served: nat)

  predicate WellFormed(e: Event) {
    |e.parts| > 0 && e.id != EVENT_ID_NONE
  }

  function Join(parts: seq<Part>): seq<Byte> {
    if parts == [] then [] else Join(parts[..|parts| - 1]) + parts[|parts| - 1].data
  }

  /** A multi-part event carries a checksum over all of its data; one that fits into one part is not checked. */
  predicate Intact(env: Env, e: Event) {
    |e.parts| == 1 || env.crc(Join(e.parts)) == e.checksum
  }

  function FlagOf(e: Event, i: nat): nat {
    if |e.parts| == 1 then TRANSFER_START_AND_END
    else if i == 0 then TRANSFER_START
    else if i == |e.parts| - 1 then TRANSFER_END
    else TRANSFER_MIDDLE
  }

  function PartReply(e: Event, i: nat): Reply
    requires i < |e.parts|
  {
    Reply(e.tid, e.id, e.parts[i].next, FlagOf(e, i), e.cls, e.parts[i].data, e.checksum)
  }

  /** A response without event data: every other field keeps the zero the poll task initialised it with. */
  function Bare(eventId: nat): Reply {
    Reply(0, eventId, 0, 0, 0, [], 0)
  }

  /** The terminus serves the parts in order, each under its handle, and drops an event once it is acknowledged. */
  function Respond(t: Terminus, q: Request): (Terminus, Reply) {
    if q.op == GET_FIRSTPART then
      if t.queue == [] then (t, Bare(EVENT_ID_NONE))
      else if |t.queue[0].parts| == 0 then (t, Failed(1))
      else (t.(served := 1), PartReply(t.queue[0], 0))
    else if q.op == GET_NEXTPART then
      if t.queue != [] && 0 < t.served < |t.queue[0].parts| && q.ackId == EVENT_ID_FRAGMENT
         && q.handle == t.queue[0].parts[t.served - 1].next
      then (t.(served := t.served + 1), PartReply(t.queue[0], t.served))
      else (t, Failed(1))
    else
      if t.queue != [] && t.served == |t.queue[0].parts| && q.ackId == t.queue[0].id
      then (Terminus(t.queue[1..], 0), Bare(if t.queue[0].more then EVENT_ID_ACK else EVENT_ID_NONE))
      else (t, Failed(1))
  }

  /** The agent and the terminus agree on where they are. */
  ghost predicate InStep(env: Env, t: Terminus, a: Agent) {
    && a.outcome.Running?
    && (forall e | e in t.queue :: WellFormed(e))
    && if a.op == GET_FIRSTPART then t.served == 0 && a.message == [] && a.ackId == EVENT_ID_NULL
       else
         && t.queue != []
         && var e := t.queue[0];
            if a.op == GET_NEXTPART then
              && 0 < t.served < |e.parts| && a.ackId == EVENT_ID_FRAGMENT
              && a.handle == e.parts[t.served - 1].next && a.message == Join(e.parts[..t.served])
            else
              && a.op == ACKNOWLEDGEMENT_ONLY && t.served == |e.parts| && Intact(env, e)
              && a.handle == 0 && a.ackId == a.polledId == e.id && a.polledTid == e.tid && a.polledClass == e.cls
              && a.message == Join(e.parts)
  }

  function Work(queue: seq<Event>): nat {
    if queue == [] then 0 else |queue[0].parts| + 1 + Work(queue[1..])
  }

  function Rank(t: Terminus): int {
    Work(t.queue) - t.served
  }

  lemma {:induction false} JoinNext(parts: seq<Part>, i: nat)
    requires i < |parts|
    ensures Join(parts[..i + 1]) == Join(parts[..i]) + parts[i].data
  {
    assert parts[..i + 1][..i] == parts[..i];
  }

  /** A round that either ends the poll task or keeps the two sides in step, with less left to do. */
  ghost predicate GoodRound(env: Env, t: Terminus, a: Agent) {
    var (t', r) := Respond(t, RequestOf(a));
    var b := Step(env, a, r);
    r.Reply? && (b.outcome.Running? ==> InStep(env, t', b) && 0 <= Rank(t') < Rank(t))
  }

  lemma {:induction false} FirstPartKeepsInStep(env: Env, t: Terminus, a: Agent)
    requires InStep(env, t, a) && a.op == GET_FIRSTPART
    ensures GoodRound(env, t, a)
  {
    if t.queue != [] {
      var e := t.queue[0];
      assert WellFormed(e);
      var r, t' := PartReply(e, 0), t.(served := 1);
      var b := Step(env, a, r);
      assert b.message == e.parts[0].data == Join(e.parts[..1]) by {
        JoinNext(e.parts, 0);
        assert e.parts[..0] == [];
      }
      if |e.parts| == 1 {
        assert e.parts[..1] == e.parts;
        assert InStep(env, t', b);
      } else {
        assert InStep(env, t', b);
      }
      assert Rank(t) == Rank(t') + 1;
    } else {
      assert !Step(env, a, Bare(EVENT_ID_NONE)).outcome.Running?;
    }
  }

  lemma {:induction false} NextPartKeepsInStep(env: Env, t: Terminus, a: Agent)
    requires InStep(env, t, a) && a.op == GET_NEXTPART
    ensures GoodRound(env, t, a)
  {
    var e := t.queue[0];
    assert WellFormed(e);
    JoinNext(e.parts, t.served);
    assert e.parts[..|e.parts|] == e.parts;
  }

  lemma {:induction false} RoundKeepsInStep(env: Env, t: Terminus, a: Agent)
    requires InStep(env, t, a)
    ensures GoodRound(env, t, a)
  {
    if a.op == GET_FIRSTPART {
      FirstPartKeepsInStep(env, t, a);
    } else if a.op == GET_NEXTPART {
      NextPartKeepsInStep(env, t, a);
    }
  }

  /** The replies of the whole conversation, and the queue it leaves behind. It is finite: the rank decreases. */
  ghost function Conversation(env: Env, t: Terminus, a: Agent): (seq<Reply>, seq<Event>)
    requires InStep(env, t, a)
    decreases Rank(t)
  {
    RoundKeepsInStep(env, t, a);
    var (t', r) := Respond(t, RequestOf(a));
    var b := Step(env, a, r);
    if b.outcome.Running? then
      var (rest, left) := Conversation(env, t', b);
      ([r] + rest, left)
    else ([r], t'.queue)
  }

  // ----- what a conversation looks like

  datatype Summary = Summary(acts: seq<Act>, rc: nat, left: seq<Event>)

  function After(acts: seq<Act>, s: Summary): Summary {
    s.(acts := acts + s.acts)
  }

  /** The requests for parts i and later of an event. */
  function Fetches(e: Event, i: nat): seq<Act>
    requires 0 < i <= |e.parts|
    decreases |e.parts| - i
  {
    if i == |e.parts| then []
    else [Sent(Request(GET_NEXTPART, e.parts[i - 1].next, EVENT_ID_FRAGMENT))] + Fetches(e, i + 1)
  }

  function EventCalls(env: Env, e: Event): seq<Act> {
    Calls(env, e.tid, e.id, e.cls, Join(e.parts))
  }

  /** Polling a queue from its first part on. */
  function Drained(env: Env, queue: seq<Event>, handle: nat): Summary
    decreases |queue|, 1
  {
    var first := [Sent(Request(GET_FIRSTPART, handle, EVENT_ID_NULL))];
    if queue == [] then Summary(first, SUCCESS, [])
    else if |queue[0].parts| == 0 then Summary(first, 1, queue)
    else After(first + Fetches(queue[0], 1), Settled(env, queue))
  }

  /** What follows once all parts of the first event are there. */
  function Settled(env: Env, queue: seq<Event>): Summary
    requires queue != []
    decreases |queue|, 0
  {
    var e := queue[0];
    if !Intact(env, e) then Summary([], ERROR_INVALID_DATA, queue)
    else After([Sent(Request(ACKNOWLEDGEMENT_ONLY, 0, e.id))] + EventCalls(env, e),
               if e.more then Drained(env, queue[1..], 0) else Summary([], SUCCESS, queue[1..]))
  }

  ghost function Predicted(env: Env, t: Terminus, a: Agent): Summary
    requires InStep(env, t, a)
  {
    if a.op == GET_FIRSTPART then Drained(env, t.queue, a.handle)
    else if a.op == GET_NEXTPART then After(Fetches(t.queue[0], t.served), Settled(env, t.queue))
    else Settled(env, t.queue)
  }

  /** What one round has to do with the prediction before and after it. */
  ghost predicate AsPredicted(env: Env, t: Terminus, a: Agent)
    requires InStep(env, t, a)
  {
    var (t', r) := Respond(t, RequestOf(a));
    var b := Step(env, a, r);
    var p := Predicted(env, t, a);
    if b.outcome.Running? then
      InStep(env, t', b) &&
      var p' := Predicted(env, t', b);
      a.trace + p.acts == b.trace + p'.acts && p.rc == p'.rc && p.left == p'.left
    else b.trace == a.trace + p.acts && b.outcome == Returned(p.rc) && p.left == t'.queue
  }

  lemma {:induction false} PartAsPredicted(env: Env, t: Terminus, a: Agent)
    requires InStep(env, t, a) && a.op != ACKNOWLEDGEMENT_ONLY && t.queue != []
    ensures AsPredicted(env, t, a)
  {
    RoundKeepsInStep(env, t, a);
    var e := t.queue[0];
    assert WellFormed(e);
    var (t', r) := Respond(t, RequestOf(a));
    var b := Step(env, a, r);
    var sent := [Sent(RequestOf(a))];
    JoinNext(e.parts, t.served);
    assert e.parts[..0] == [] && e.parts[..|e.parts|] == e.parts;
    var settled := Settled(env, t.queue);
    var after := Fetches(e, t.served + 1) + settled.acts;
    assert Predicted(env, t, a).acts == sent + after;
    assert a.trace + (sent + after) == (a.trace + sent) + after;
    if t.served + 1 == |e.parts| {
      assert after == settled.acts;
    } else {
      assert b.op == GET_NEXTPART && Predicted(env, t', b).acts == after;
    }
  }

  lemma {:induction false} AckStep(env: Env, a: Agent, r: Reply)
    requires a.op == ACKNOWLEDGEMENT_ONLY && r.Reply? && r.data == []
    ensures Step(env, a, r).trace ==
            (a.trace + [Sent(RequestOf(a))]) + Calls(env, a.polledTid, a.polledId, a.polledClass, a.message)
  {
    assert a.message + r.data == a.message;
  }

  function Onward(env: Env, queue: seq<Event>): Summary
    requires queue != []
  {
    if queue[0].more then Drained(env, queue[1..], 0) else Summary([], SUCCESS, queue[1..])
  }

  lemma {:induction false} AckTrace(env: Env, t: Terminus, a: Agent)
    requires InStep(env, t, a) && a.op == ACKNOWLEDGEMENT_ONLY
    ensures var b := Step(env, a, Respond(t, RequestOf(a)).1);
            var p, rest := Predicted(env, t, a), Onward(env, t.queue);
            a.trace + p.acts == b.trace + rest.acts && p.rc == rest.rc && p.left == rest.left
  {
    var e := t.queue[0];
    var r := Respond(t, RequestOf(a)).1;
    AckStep(env, a, r);
    var sent, calls, rest := [Sent(RequestOf(a))], EventCalls(env, e), Onward(env, t.queue).acts;
    assert a.trace + ((sent + calls) + rest) == ((a.trace + sent) + calls) + rest;
  }

  lemma {:induction false} AckAsPredicted(env: Env, t: Terminus, a: Agent)
    requires InStep(env, t, a) && a.op == ACKNOWLEDGEMENT_ONLY
    ensures AsPredicted(env, t, a)
  {
    RoundKeepsInStep(env, t, a);
    AckTrace(env, t, a);
    var b := Step(env, a, Respond(t, RequestOf(a)).1);
    if !t.queue[0].more {
      assert b.trace + [] == b.trace;
    }
  }

  /** One round does the first thing predicted. */
  lemma {:induction false} RoundAsPredicted(env: Env, t: Terminus, a: Agent)
    requires InStep(env, t, a)
    ensures AsPredicted(env, t, a)
  {
    if a.op == ACKNOWLEDGEMENT_ONLY {
      AckAsPredicted(env, t, a);
    } else if t.queue != [] {
      PartAsPredicted(env, t, a);
    }
  }

  /** The run of the poll task against the terminus is the predicted one. */
  lemma {:induction false} RunAsPredicted(env: Env, t: Terminus, a: Agent)
    requires InStep(env, t, a)
    ensures var (replies, left) := Conversation(env, t, a);
            var end := Run(env, a, replies);
            var p := Predicted(env, t, a);
            end.trace == a.trace + p.acts && end.outcome == Returned(p.rc) && left == p.left
    decreases Rank(t)
  {
    RoundKeepsInStep(env, t, a);
    RoundAsPredicted(env, t, a);
    var (t', r) := Respond(t, RequestOf(a));
    var b := Step(env, a, r);
    if b.outcome.Running? {
      RunAsPredicted(env, t', b);
      var (rest, left) := Conversation(env, t', b);
      assert ([r] + rest)[1..] == rest;
    } else {
      assert [r][1..] == [];
    }
  }

  // ----- deliveries and acknowledgements of a whole run

  function Deliveries(trace: seq<Act>): seq<Act> {
    if trace == [] then []
    else (if trace[0].Handled? then [trace[0]] else []) + Deliveries(trace[1..])
  }

  function AckedIds(trace: seq<Act>): seq<nat> {
    if trace == [] then []
    else (if IsAck(trace[0]) then [trace[0].request.ackId] else []) + AckedIds(trace[1..])
  }

  lemma {:induction false} DeliveriesAppend(a: seq<Act>, b: seq<Act>)
    ensures Deliveries(a + b) == Deliveries(a) + Deliveries(b)
  {
    if a == [] {
      assert a + b == b;
    } else {
      assert (a + b)[0] == a[0] && (a + b)[1..] == a[1..] + b;
      DeliveriesAppend(a[1..], b);
      var head := if a[0].Handled? then [a[0]] else [];
      assert head + (Deliveries(a[1..]) + Deliveries(b)) == (head + Deliveries(a[1..])) + Deliveries(b);
    }
  }

  lemma {:induction false} AckedAppend(a: seq<Act>, b: seq<Act>)
    ensures AckedIds(a + b) == AckedIds(a) + AckedIds(b)
  {
    if a == [] {
      assert a + b == b;
    } else {
      assert (a + b)[0] == a[0] && (a + b)[1..] == a[1..] + b;
      AckedAppend(a[1..], b);
      var head := if IsAck(a[0]) then [a[0].request.ackId] else [];
      assert head + (AckedIds(a[1..]) + AckedIds(b)) == (head + AckedIds(a[1..])) + AckedIds(b);
    }
  }

  lemma {:induction false} TraceAppend(a: seq<Act>, b: seq<Act>)
    ensures Deliveries(a + b) == Deliveries(a) + Deliveries(b)
    ensures AckedIds(a + b) == AckedIds(a) + AckedIds(b)
  {
    DeliveriesAppend(a, b);
    AckedAppend(a, b);
  }

  lemma {:induction false} HandledOnly(acts: seq<Act>)
    requires forall i | 0 <= i < |acts| :: acts[i].Handled?
    ensures Deliveries(acts) == acts && AckedIds(acts) == []
  {
    if acts != [] {
      HandledOnly(acts[1..]);
    }
  }

  lemma {:induction false} FetchesDeliverNothing(e: Event, i: nat)
    requires 0 < i <= |e.parts|
    ensures Deliveries(Fetches(e, i)) == [] && AckedIds(Fetches(e, i)) == []
    decreases |e.parts| - i
  {
    if i < |e.parts| {
      FetchesDeliverNothing(e, i + 1);
    }
  }

  function AllCalls(env: Env, queue: seq<Event>): seq<Act> {
    if queue == [] then [] else EventCalls(env, queue[0]) + AllCalls(env, queue[1..])
  }

  function Ids(queue: seq<Event>): seq<nat> {
    seq(|queue|, i requires 0 <= i < |queue| => queue[i].id)
  }

  /** How many events of the queue one run gets to: up to the first NONE answer or the first damaged event. */
  function Reach(env: Env, queue: seq<Event>): (k: nat)
    ensures k <= |queue|
    ensures forall i | 0 <= i < k :: Intact(env, queue[i])
    ensures forall i | 0 <= i < k - 1 :: queue[i].more
    ensures k < |queue| ==> !Intact(env, queue[k]) || (k > 0 && !queue[k - 1].more)
  {
    if queue == [] || !Intact(env, queue[0]) then 0
    else if !queue[0].more then 1
    else 1 + Reach(env, queue[1..])
  }

  /** The run stopped at a damaged event rather than because the terminus said it had no more. */
  predicate StoppedAtDamage(env: Env, queue: seq<Event>) {
    var k := Reach(env, queue);
    k < |queue| && (k == 0 || queue[k - 1].more)
  }

  /** A queue whose first event is fetched: only the settling of that event acknowledges or delivers. */
  lemma {:induction false} FetchedFirst(env: Env, queue: seq<Event>, handle: nat)
    requires queue != [] && WellFormed(queue[0])
    ensures var p, q := Drained(env, queue, handle), Settled(env, queue);
            Deliveries(p.acts) == Deliveries(q.acts) && AckedIds(p.acts) == AckedIds(q.acts)
            && p.left == q.left && p.rc == q.rc
  {
    var e := queue[0];
    var first := [Sent(Request(GET_FIRSTPART, handle, EVENT_ID_NULL))];
    TraceAppend(first, Fetches(e, 1));
    FetchesDeliverNothing(e, 1);
    TraceAppend(first + Fetches(e, 1), Settled(env, queue).acts);
  }

  lemma {:induction false} SettledFirst(env: Env, queue: seq<Event>)
    requires queue != [] && Intact(env, queue[0])
    ensures var e := queue[0];
            var rest := Onward(env, queue);
            var q := Settled(env, queue);
            && Deliveries(q.acts) == EventCalls(env, e) + Deliveries(rest.acts)
            && AckedIds(q.acts) == [e.id] + AckedIds(rest.acts)
            && q.left == rest.left && q.rc == rest.rc
  {
    var e := queue[0];
    var ack := [Sent(Request(ACKNOWLEDGEMENT_ONLY, 0, e.id))];
    var rest := Onward(env, queue);
    TraceAppend(ack, EventCalls(env, e));
    HandledOnly(EventCalls(env, e));
    TraceAppend(ack + EventCalls(env, e), rest.acts);
    assert Deliveries(ack) == [] && AckedIds(ack) == [e.id];
  }

  /** How the events a run gets to are related to those it gets to after the first one. */
  lemma {:induction false} ReachSlices(env: Env, queue: seq<Event>)
    requires queue != [] && Intact(env, queue[0]) && queue[0].more
    ensures var k, rest := Reach(env, queue), queue[1..];
            && k == 1 + Reach(env, rest)
            && AllCalls(env, queue[..k]) == EventCalls(env, queue[0]) + AllCalls(env, rest[..k - 1])
            && Ids(queue[..k]) == [queue[0].id] + Ids(rest[..k - 1])
            && queue[k..] == rest[k - 1..]
            && StoppedAtDamage(env, queue) == StoppedAtDamage(env, rest)
  {
    var k, rest := Reach(env, queue), queue[1..];
    assert queue[..k][0] == queue[0] && queue[..k][1..] == rest[..k - 1];
  }

  /** What a run from the first part on amounts to. */
  ghost predicate Summarises(env: Env, queue: seq<Event>, p: Summary) {
    var k := Reach(env, queue);
    && Deliveries(p.acts) == AllCalls(env, queue[..k])
    && AckedIds(p.acts) == Ids(queue[..k])
    && p.left == queue[k..]
    && p.rc == if StoppedAtDamage(env, queue) then ERROR_INVALID_DATA else SUCCESS
  }

  lemma {:induction false} LastEventSummary(env: Env, queue: seq<Event>, handle: nat)
    requires queue != [] && WellFormed(queue[0]) && (!Intact(env, queue[0]) || !queue[0].more)
    ensures Summarises(env, queue, Drained(env, queue, handle))
  {
    FetchedFirst(env, queue, handle);
    if Intact(env, queue[0]) {
      SettledFirst(env, queue);
      assert queue[..1] == [queue[0]];
      assert AllCalls(env, [queue[0]]) == EventCalls(env, queue[0]);
      assert Ids([queue[0]]) == [queue[0].id];
    }
  }

  lemma {:induction false} DrainedSummary(env: Env, queue: seq<Event>, handle: nat)
    requires forall e | e in queue :: WellFormed(e)
    ensures Summarises(env, queue, Drained(env, queue, handle))
    decreases |queue|
  {
    if queue != [] {
      assert WellFormed(queue[0]);
      if Intact(env, queue[0]) && queue[0].more {
        FetchedFirst(env, queue, handle);
        SettledFirst(env, queue);
        DrainedSummary(env, queue[1..], 0);
        ReachSlices(env, queue);
      } else {
        LastEventSummary(env, queue, handle);
      }
    }
  }

  /**
   The poll task against a terminus with any finite queue. It terminates, having delivered exactly the events
   Reach says, each once per registered handler, in queue order and with the concatenation of its own parts;
   exactly those were acknowledged and dropped from the queue. A damaged multi-part event ends the run with
   ERROR_INVALID_DATA, neither acknowledged nor delivered and still queued.
   */
  lemma {:induction false} PollDeliversQueue(env: Env, queue: seq<Event>, pollHandle: nat)
    requires forall e | e in queue :: WellFormed(e)
    ensures var t, a := Terminus(queue, 0), Init(pollHandle);
            && InStep(env, t, a)
            && var (replies, left) := Conversation(env, t, a);
               var end := Run(env, a, replies);
               var k := Reach(env, queue);
               && end.outcome == Returned(if StoppedAtDamage(env, queue) then ERROR_INVALID_DATA else SUCCESS)
               && Deliveries(end.trace) == AllCalls(env, queue[..k])
               && AckedIds(end.trace) == Ids(queue[..k])
               && left == queue[k..]
  {
    var t, a := Terminus(queue, 0), Init(pollHandle);
    RunAsPredicted(env, t, a);
    DrainedSummary(env, queue, pollHandle);
    assert a.trace + Predicted(env, t, a).acts == Predicted(env, t, a).acts;
  }

  /** When nothing is damaged and the terminus says NONE only at the end, the whole queue is delivered. */
  lemma {:induction false} PollDeliversAll(env: Env, queue: seq<Event>, pollHandle: nat)
    requires forall e | e in queue :: WellFormed(e) && Intact(env, e)
    requires forall i | 0 <= i < |queue| - 1 :: queue[i].more
    ensures var a := Init(pollHandle);
            InStep(env, Terminus(queue, 0), a) &&
            var (replies, left) := Conversation(env, Terminus(queue, 0), a);
            var end := Run(env, a, replies);
            && end.outcome == Returned(SUCCESS) && left == []
            && Deliveries(end.trace) == AllCalls(env, queue) && AckedIds(end.trace) == Ids(queue)
  {
    PollDeliversQueue(env, queue, pollHandle);
    assert Reach(env, queue) == |queue|;
    assert queue[..|queue|] == queue;
  }

  // ----- which handlers were called

  /**
   The acts are the invocations for the events, one group after the other: from starts[j] on, event j is handled once
   by each handler registered for its class, in registration order, with the concatenation of its own parts.
   */
  ghost predicate HandlesEach(env: Env, acts: seq<Act>, events: seq<Event>, starts: seq<nat>) {
    && |starts| == |events| + 1 && starts[0] == 0 && starts[|events|] == |acts|
    && (forall j | 0 <= j < |events| :: starts[j + 1] == starts[j] + HandlersOf(env, events[j].cls) <= |acts|)
    && (forall j | 0 <= j < |events| :: HandledFrom(env, acts, starts[j], events[j]))
  }

  ghost predicate HandledFrom(env: Env, acts: seq<Act>, start: nat, e: Event) {
    forall i | 0 <= i < HandlersOf(env, e.cls) :: IsHandling(acts, start, i, e)
  }

  predicate IsHandling(acts: seq<Act>, start: nat, index: nat, e: Event) {
    start + index < |acts| && acts[start + index] == Handled(index, e.tid, e.id, e.cls, Join(e.parts))
  }

  lemma {:induction false} AllCallsAppend(env: Env, queue: seq<Event>, e: Event)
    ensures AllCalls(env, queue + [e]) == AllCalls(env, queue) + EventCalls(env, e)
    decreases |queue|
  {
    if queue == [] {
      assert [e][1..] == [];
    } else {
      assert (queue + [e])[1..] == queue[1..] + [e];
      AllCallsAppend(env, queue[1..], e);
    }
  }

  lemma {:induction false} StillHandled(env: Env, acts: seq<Act>, start: nat, e: Event, more: seq<Act>)
    requires HandledFrom(env, acts, start, e)
    ensures HandledFrom(env, acts + more, start, e)
  {
    forall i | 0 <= i < HandlersOf(env, e.cls) ensures IsHandling(acts + more, start, i, e) {
      assert IsHandling(acts, start, i, e);
    }
  }

  lemma {:induction false} OneMoreHandled(
    env: Env, acts: seq<Act>, events: seq<Event>, starts: seq<nat>, e: Event, more: seq<Act>)
    requires HandlesEach(env, acts, events, starts) && |more| == HandlersOf(env, e.cls)
    requires forall i | 0 <= i < |more| :: more[i] == Handled(i, e.tid, e.id, e.cls, Join(e.parts))
    ensures HandlesEach(env, acts + more, events + [e], starts + [|acts + more|])
  {
    var all, es, ss := acts + more, events + [e], starts + [|acts + more|];
    forall j | 0 <= j < |es| ensures ss[j + 1] == ss[j] + HandlersOf(env, es[j].cls) <= |all| {
      assert j < |events| ==> starts[j + 1] == starts[j] + HandlersOf(env, events[j].cls);
    }
    forall j | 0 <= j < |es| ensures HandledFrom(env, all, ss[j], es[j]) {
      if j < |events| {
        StillHandled(env, acts, starts[j], events[j], more);
      } else {
        forall i | 0 <= i < HandlersOf(env, e.cls) ensures IsHandling(all, ss[j], i, e) {
          assert all[|acts| + i] == more[i];
        }
      }
    }
  }

  lemma {:induction false} AllCallsHandleEach(env: Env, queue: seq<Event>) returns (starts: seq<nat>)
    ensures HandlesEach(env, AllCalls(env, queue), queue, starts)
    decreases |queue|
  {
    if queue == [] {
      starts := [0];
    } else {
      var last := |queue| - 1;
      var before, e := queue[..last], queue[last];
      starts := AllCallsHandleEach(env, before);
      assert queue == before + [e];
      AllCallsAppend(env, before, e);
      OneMoreHandled(env, AllCalls(env, before), before, starts, e, EventCalls(env, e));
      starts := starts + [|AllCalls(env, queue)|];
    }
  }

  /** Each event that a run gets to is handled once by every handler registered for its class, and no other ever is. */
  lemma {:induction false} PollHandlesEach(env: Env, queue: seq<Event>, pollHandle: nat)
    requires forall e | e in queue :: WellFormed(e)
    ensures var t, a := Terminus(queue, 0), Init(pollHandle);
            && InStep(env, t, a)
            && var (replies, left) := Conversation(env, t, a);
               left == queue[Reach(env, queue)..]
               && exists starts ::
                    HandlesEach(env, Deliveries(Run(env, a, replies).trace), queue[..Reach(env, queue)], starts)
  {
    PollDeliversQueue(env, queue, pollHandle);
    var starts := AllCallsHandleEach(env, queue[..Reach(env, queue)]);
  }
}
