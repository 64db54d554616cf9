/**
 How often the poll task of platform-mc/event_manager.cpp delivers an event, against a terminus that may answer
 anything: an acknowledgement that is not confirmed is sent again, and the handlers run again.
 */
module EventAcknowledgement {
  import opened Bytes
  import opened EventPolling

  /** The answer to an acknowledgement. */
  datatype Answer = Answer(eventId: nat, data: seq<Byte>)

  /** ACK and NONE confirm it. */
  predicate Confirms(x: Answer) {
    x.eventId == EVENT_ID_ACK || x.eventId == EVENT_ID_NONE
  }

  /** An event that was fetched whole and intact, and the answers to the acknowledgements sent for it. */
  datatype Entry = Entry(tid: nat, id: nat, cls: nat, message: seq<Byte>, answers: seq<Answer>)

  predicate Closed(e: Entry) {
    e.answers != [] && Confirms(e.answers[|e.answers| - 1])
  }

  /** The events of a run, with what one more reply adds to them. */
  function Note(env: Env, a: Agent, book: seq<Entry>, r: Reply): seq<Entry> {
    if !r.Reply? then book
    else if a.op == ACKNOWLEDGEMENT_ONLY then
      if book == [] then book
      else
        var last := book[|book| - 1];
        book[..|book| - 1] + [last.(answers := last.answers + [Answer(r.eventId, r.data)])]
    else
      var b := Step(env, a, r);
      if b.outcome.Running? && b.op == ACKNOWLEDGEMENT_ONLY
      then book + [Entry(r.tid, r.eventId, r.cls, a.message + r.data, [])] else book
  }

  function Book(env: Env, a: Agent, book: seq<Entry>, replies: seq<Reply>): seq<Entry>
    decreases |replies|
  {
    if !a.outcome.Running? || replies == [] then book
    else Book(env, Step(env, a, replies[0]), Note(env, a, book, replies[0]), replies[1..])
  }

  /** The events of the run from the start. */
  function BookOf(env: Env, pollHandle: nat, replies: seq<Reply>): seq<Entry> {
    Book(env, Init(pollHandle), [], replies)
  }

  // ----- what the entries say was delivered and acknowledged

  /** The data of delivery k: the event's own only the first time, as the buffer is then cleared. */
  function Delivered(e: Entry, k: nat): seq<Byte>
    requires k < |e.answers|
  {
    (if k == 0 then e.message else []) + e.answers[k].data
  }

  function EntryCalls(env: Env, e: Entry, n: nat): seq<Act>
    requires n <= |e.answers|
  {
    if n == 0 then [] else EntryCalls(env, e, n - 1) + Calls(env, e.tid, e.id, e.cls, Delivered(e, n - 1))
  }

  /** One delivery for each answer of each entry. */
  function BookCalls(env: Env, book: seq<Entry>): seq<Act> {
    if book == [] then []
    else
      var last := book[|book| - 1];
      BookCalls(env, book[..|book| - 1]) + EntryCalls(env, last, |last.answers|)
  }

  function Repeat(id: nat, n: nat): seq<nat> { seq(n, _ => id) }

  /** One acknowledgement for each answer of each entry. */
  function BookAcks(book: seq<Entry>): seq<nat> {
    if book == [] then []
    else
      var last := book[|book| - 1];
      BookAcks(book[..|book| - 1]) + Repeat(last.id, |last.answers|)
  }

  // ----- the invariant

  ghost predicate OnlyLastConfirms(e: Entry) {
    forall k | 0 <= k < |e.answers| - 1 :: !Confirms(e.answers[k])
  }

  ghost predicate Shape(book: seq<Entry>) {
    && (forall i | 0 <= i < |book| :: OnlyLastConfirms(book[i]))
    && (forall i | 0 <= i < |book| - 1 :: Closed(book[i]))
  }

  ghost predicate AllClosed(book: seq<Entry>) {
    forall i | 0 <= i < |book| :: Closed(book[i])
  }

  /** The last entry is the event that is being acknowledged, its message still in the buffer until delivered. */
  ghost predicate Pending(a: Agent, e: Entry) {
    && !Closed(e)
    && e.tid == a.polledTid && e.id == a.polledId && e.cls == a.polledClass && a.ackId == e.id
    && a.message == if e.answers == [] then e.message else []
  }

  ghost predicate Tracks(a: Agent, book: seq<Entry>) {
    a.outcome.Running? ==>
      if a.op == ACKNOWLEDGEMENT_ONLY then book != [] && Pending(a, book[|book| - 1]) else AllClosed(book)
  }

  ghost predicate Kept(env: Env, a: Agent, book: seq<Entry>) {
    Shape(book) && Tracks(a, book) && Deliveries(a.trace) == BookCalls(env, book)
  }

  lemma {:induction false} EntryCallsKept(env: Env, e: Entry, x: Answer, n: nat)
    requires n <= |e.answers|
    ensures EntryCalls(env, e.(answers := e.answers + [x]), n) == EntryCalls(env, e, n)
  {
    if n > 0 {
      EntryCallsKept(env, e, x, n - 1);
    }
  }

  /** One more answer is one more delivery. */
  lemma {:induction false} BookCallsAnswer(env: Env, book: seq<Entry>, x: Answer)
    requires book != []
    ensures var last := book[|book| - 1];
            var e := last.(answers := last.answers + [x]);
            BookCalls(env, book[..|book| - 1] + [e])
            == BookCalls(env, book) + Calls(env, e.tid, e.id, e.cls, Delivered(e, |last.answers|))
  {
    var front, last := book[..|book| - 1], book[|book| - 1];
    var e := last.(answers := last.answers + [x]);
    assert (front + [e])[..|front|] == front;
    EntryCallsKept(env, last, x, |last.answers|);
  }

  lemma {:induction false} BookCallsFresh(env: Env, book: seq<Entry>, e: Entry)
    requires e.answers == []
    ensures BookCalls(env, book + [e]) == BookCalls(env, book) && BookAcks(book + [e]) == BookAcks(book)
  {
    assert (book + [e])[..|book|] == book;
    assert Repeat(e.id, 0) == [];
  }

  lemma {:induction false} BookAcksAnswer(book: seq<Entry>, x: Answer)
    requires book != []
    ensures var last := book[|book| - 1];
            BookAcks(book[..|book| - 1] + [last.(answers := last.answers + [x])]) == BookAcks(book) + [last.id]
  {
    var front, last := book[..|book| - 1], book[|book| - 1];
    var e := last.(answers := last.answers + [x]);
    assert (front + [e])[..|front|] == front;
    assert Repeat(e.id, |e.answers|) == Repeat(last.id, |last.answers|) + [last.id];
  }

  lemma {:induction false} SentDeliversNothing(trace: seq<Act>, request: Request)
    ensures Deliveries(trace + [Sent(request)]) == Deliveries(trace)
    ensures AckedIds(trace + [Sent(request)])
         == AckedIds(trace) + if request.op == ACKNOWLEDGEMENT_ONLY then [request.ackId] else []
  {
    TraceAppend(trace, [Sent(request)]);
    assert [Sent(request)][1..] == [];
  }

  lemma {:induction false} CallsDeliver(trace: seq<Act>, env: Env, tid: nat, id: nat, cls: nat, data: seq<Byte>)
    ensures var calls := Calls(env, tid, id, cls, data);
            Deliveries(trace + calls) == Deliveries(trace) + calls && AckedIds(trace + calls) == AckedIds(trace)
  {
    TraceAppend(trace, Calls(env, tid, id, cls, data));
    HandledOnly(Calls(env, tid, id, cls, data));
  }

  /** What the answer to an acknowledgement does to the trace. */
  lemma {:induction false} AnswerTrace(env: Env, a: Agent, r: Reply)
    requires a.op == ACKNOWLEDGEMENT_ONLY && r.Reply?
    ensures var b := Step(env, a, r);
            && Deliveries(b.trace)
               == Deliveries(a.trace) + Calls(env, a.polledTid, a.polledId, a.polledClass, a.message + r.data)
            && AckedIds(b.trace) == AckedIds(a.trace) + [a.ackId]
  {
    SentDeliversNothing(a.trace, RequestOf(a));
    CallsDeliver(a.trace + [Sent(RequestOf(a))], env, a.polledTid, a.polledId, a.polledClass, a.message + r.data);
  }

  lemma {:induction false} AnswerKeepsShape(book: seq<Entry>, x: Answer)
    requires Shape(book) && book != [] && !Closed(book[|book| - 1])
    ensures var last := book[|book| - 1];
            var e := last.(answers := last.answers + [x]);
            Shape(book[..|book| - 1] + [e]) && (Closed(e) <==> Confirms(x))
  {
    var front, last := book[..|book| - 1], book[|book| - 1];
    var e := last.(answers := last.answers + [x]);
    var next := front + [e];
    assert OnlyLastConfirms(e) by {
      assert OnlyLastConfirms(last);
    }
    forall i | 0 <= i < |next| ensures OnlyLastConfirms(next[i]) {
      assert i < |front| ==> next[i] == book[i];
    }
    forall i | 0 <= i < |next| - 1 ensures Closed(next[i]) {
      assert next[i] == book[i];
    }
  }

  lemma {:induction false} AnswerKeeps(env: Env, a: Agent, book: seq<Entry>, r: Reply)
    requires Kept(env, a, book) && a.outcome.Running? && a.op == ACKNOWLEDGEMENT_ONLY && r.Reply?
    ensures Kept(env, Step(env, a, r), Note(env, a, book, r))
    ensures Step(env, a, r).outcome.Running? || AllClosed(Note(env, a, book, r))
  {
    var x, last := Answer(r.eventId, r.data), book[|book| - 1];
    var e := last.(answers := last.answers + [x]);
    AnswerKeepsShape(book, x);
    AnswerTrace(env, a, r);
    BookCallsAnswer(env, book, x);
    assert Delivered(e, |last.answers|) == a.message + r.data;
    var next := Note(env, a, book, r);
    assert next[|next| - 1] == e;
  }

  lemma {:induction false} FreshKeepsShape(book: seq<Entry>, e: Entry)
    requires Shape(book) && AllClosed(book) && e.answers == []
    ensures Shape(book + [e])
  {
    var next := book + [e];
    forall i | 0 <= i < |next| ensures OnlyLastConfirms(next[i]) {
      assert i < |book| ==> next[i] == book[i];
    }
  }

  lemma {:induction false} PartTrace(env: Env, a: Agent, r: Reply)
    requires a.op != ACKNOWLEDGEMENT_ONLY && r.Reply?
    ensures Deliveries(Step(env, a, r).trace) == Deliveries(a.trace)
    ensures AckedIds(Step(env, a, r).trace) == AckedIds(a.trace)
  {
    SentDeliversNothing(a.trace, RequestOf(a));
  }

  /** An event was fetched whole: it is the next to be acknowledged. */
  lemma {:induction false} AcceptedKept(env: Env, b: Agent, book: seq<Entry>, e: Entry)
    requires Shape(book) && AllClosed(book) && e.answers == [] && Deliveries(b.trace) == BookCalls(env, book)
    requires b.op == ACKNOWLEDGEMENT_ONLY && b.ackId == e.id && b.message == e.message
    requires b.polledTid == e.tid && b.polledId == e.id && b.polledClass == e.cls
    ensures Kept(env, b, book + [e])
  {
    BookCallsFresh(env, book, e);
    FreshKeepsShape(book, e);
    assert (book + [e])[|book + [e]| - 1] == e;
  }

  lemma {:induction false} PartKeeps(env: Env, a: Agent, book: seq<Entry>, r: Reply)
    requires Kept(env, a, book) && a.outcome.Running? && a.op != ACKNOWLEDGEMENT_ONLY && r.Reply?
    ensures Kept(env, Step(env, a, r), Note(env, a, book, r))
    ensures Step(env, a, r).outcome.Running? || AllClosed(Note(env, a, book, r))
  {
    PartTrace(env, a, r);
    var b := Step(env, a, r);
    assert AllClosed(book);
    if b.outcome.Running? && b.op == ACKNOWLEDGEMENT_ONLY {
      AcceptedKept(env, b, book, Entry(r.tid, r.eventId, r.cls, a.message + r.data, []));
    } else {
      assert Note(env, a, book, r) == book;
    }
  }

  lemma {:induction false} StepKeeps(env: Env, a: Agent, book: seq<Entry>, r: Reply)
    requires Kept(env, a, book) && a.outcome.Running?
    ensures Kept(env, Step(env, a, r), Note(env, a, book, r))
    ensures r.Reply? ==> Step(env, a, r).outcome.Running? || AllClosed(Note(env, a, book, r))
  {
    if r.Failed? {
      SentDeliversNothing(a.trace, RequestOf(a));
    } else if r.Reply? {
      if a.op == ACKNOWLEDGEMENT_ONLY {
        AnswerKeeps(env, a, book, r);
      } else {
        PartKeeps(env, a, book, r);
      }
    }
  }

  lemma {:induction false} RunKeeps(env: Env, a: Agent, book: seq<Entry>, replies: seq<Reply>)
    requires Kept(env, a, book)
    ensures Kept(env, Run(env, a, replies), Book(env, a, book, replies))
    decreases |replies|
  {
    if a.outcome.Running? && replies != [] {
      StepKeeps(env, a, book, replies[0]);
      RunKeeps(env, Step(env, a, replies[0]), Note(env, a, book, replies[0]), replies[1..]);
    }
  }

  // ----- what was sent

  lemma {:induction false} StepKeepsAcks(env: Env, a: Agent, book: seq<Entry>, r: Reply)
    requires Kept(env, a, book) && a.outcome.Running? && r.Reply? && AckedIds(a.trace) == BookAcks(book)
    ensures AckedIds(Step(env, a, r).trace) == BookAcks(Note(env, a, book, r))
  {
    if a.op == ACKNOWLEDGEMENT_ONLY {
      AnswerTrace(env, a, r);
      BookAcksAnswer(book, Answer(r.eventId, r.data));
    } else {
      PartTrace(env, a, r);
      BookCallsFresh(env, book, Entry(r.tid, r.eventId, r.cls, a.message + r.data, []));
    }
  }

  /** In a run in which every request is answered, each acknowledgement belongs to an answer of its event. */
  lemma {:induction false} RunKeepsAcks(env: Env, a: Agent, book: seq<Entry>, replies: seq<Reply>)
    requires Kept(env, a, book) && AckedIds(a.trace) == BookAcks(book)
    requires forall i | 0 <= i < |replies| :: replies[i].Reply?
    requires a.outcome.Running? || AllClosed(book)
    ensures var b, book' := Run(env, a, replies), Book(env, a, book, replies);
            AckedIds(b.trace) == BookAcks(book') && (b.outcome.Running? || AllClosed(book'))
    decreases |replies|
  {
    if a.outcome.Running? && replies != [] {
      StepKeeps(env, a, book, replies[0]);
      StepKeepsAcks(env, a, book, replies[0]);
      RunKeepsAcks(env, Step(env, a, replies[0]), Note(env, a, book, replies[0]), replies[1..]);
    }
  }

  // ----- once or more than once

  lemma {:induction false} OnceIff(e: Entry)
    requires OnlyLastConfirms(e)
    ensures Closed(e) ==> (|e.answers| == 1 <==> forall x | x in e.answers :: Confirms(x))
    ensures !Closed(e) ==> forall x | x in e.answers :: !Confirms(x)
    ensures |e.answers| == 1 && Closed(e) <==> e.answers != [] && forall x | x in e.answers :: Confirms(x)
  {
    if Closed(e) && |e.answers| > 1 {
      assert !Confirms(e.answers[0]) && e.answers[0] in e.answers;
    }
  }

  /**
   On every run, whatever the terminus answers, what is delivered is, event by event, one delivery for each answer to
   its acknowledgements: the first with the event's own data, any later one with none of it. An event whose last
   answer confirms is delivered exactly once if and only if all its answers confirm. All events but the one being
   acknowledged at the end are such, and if that one is not, none of its answers confirms.
   */
  lemma {:induction false} DeliveredOnceIff(env: Env, pollHandle: nat, replies: seq<Reply>)
    ensures var book := BookOf(env, pollHandle, replies);
            && Deliveries(Run(env, Init(pollHandle), replies).trace) == BookCalls(env, book)
            && (forall i | 0 <= i < |book| - 1 :: Closed(book[i]))
            && (forall i | 0 <= i < |book| && Closed(book[i]) ::
                  |book[i].answers| == 1 <==> forall x | x in book[i].answers :: Confirms(x))
            && (forall i | 0 <= i < |book| && !Closed(book[i]) :: forall x | x in book[i].answers :: !Confirms(x))
  {
    RunKeeps(env, Init(pollHandle), [], replies);
    var book := BookOf(env, pollHandle, replies);
    forall i | 0 <= i < |book|
      ensures Closed(book[i]) ==> (|book[i].answers| == 1 <==> forall x | x in book[i].answers :: Confirms(x))
      ensures !Closed(book[i]) ==> forall x | x in book[i].answers :: !Confirms(x)
    {
      OnceIff(book[i]);
    }
  }

  /**
   A run in which every request is answered and that the poll task ends by itself: every acknowledged event is
   acknowledged and delivered exactly once if and only if every answer to an acknowledgement is ACK or NONE.
   */
  lemma {:induction false} AcknowledgedOnceIff(env: Env, pollHandle: nat, replies: seq<Reply>)
    requires forall i | 0 <= i < |replies| :: replies[i].Reply?
    requires !Run(env, Init(pollHandle), replies).outcome.Running?
    ensures var book := BookOf(env, pollHandle, replies);
            && AckedIds(Run(env, Init(pollHandle), replies).trace) == BookAcks(book)
            && ((forall i | 0 <= i < |book| :: |book[i].answers| == 1)
                <==> forall i, x | 0 <= i < |book| && x in book[i].answers :: Confirms(x))
  {
    RunKeepsAcks(env, Init(pollHandle), [], replies);
    DeliveredOnceIff(env, pollHandle, replies);
  }

  /** An event acknowledged by any other identifier first reaches its handler twice, the second time without data. */
  lemma {:induction false} DeliveredTwice(crc: seq<Byte> -> nat, id: nat, other: nat, data: seq<Byte>)
    requires id != EVENT_ID_NONE && other !in {EVENT_ID_ACK, EVENT_ID_NONE}
    ensures var env := Env(map[9 := 1], crc);
            var part := Reply(3, id, 0, TRANSFER_START_AND_END, 9, data, 0);
            var replies := [part, Reply(0, other, 0, 0, 0, [], 0), Reply(0, EVENT_ID_NONE, 0, 0, 0, [], 0)];
            var end := Run(env, Init(0), replies);
            && end.outcome == Returned(SUCCESS)
            && Deliveries(end.trace) == [Handled(0, 3, id, 9, data), Handled(0, 3, id, 9, [])]
            && AckedIds(end.trace) == [id, id]
  {
    var env := Env(map[9 := 1], crc);
    var r0 := Reply(3, id, 0, TRANSFER_START_AND_END, 9, data, 0);
    var r1, r2 := Reply(0, other, 0, 0, 0, [], 0), Reply(0, EVENT_ID_NONE, 0, 0, 0, [], 0);
    var replies := [r0, r1, r2];
    var a0 := Init(0);
    var a1 := Step(env, a0, r0);
    var a2 := Step(env, a1, r1);
    var a3 := Step(env, a2, r2);
    assert replies[1..] == [r1, r2] && [r1, r2][1..] == [r2] && [r2][1..] == [];
    assert Run(env, a0, replies) == Run(env, a1, [r1, r2]) == Run(env, a2, [r2]) == Run(env, a3, []);
    SentDeliversNothing(a0.trace, RequestOf(a0));
    AnswerTrace(env, a1, r1);
    AnswerTrace(env, a2, r2);
    assert a1.message + r1.data == data && a2.message + r2.data == [];
  }
}
