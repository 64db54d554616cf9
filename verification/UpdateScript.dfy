/**
 The order of DSP0267 as the update agent of fw-update/device_updater.cpp keeps it with a protocol-following FD: which
 commands it sends on every run, and what has become of each component.
 */
module UpdateScript {
  import opened Wrappers
  import opened Bytes
  import opened UpdateProgress
  import opened DeviceUpdater
  import UpdateManager

  // ----- the script

  /** How far an update has come: table entries sent, components asked for, or the activation requested. */
  datatype Stage = NotStarted | Table(entries: nat) | Component(asked: nat) | Activated

  function Tables(n: nat): seq<Command> {
    seq(n, i requires 0 <= i < n => PassComponentTable(i))
  }

  /** Each component is asked for once, in order, and cancelled if it fails. */
  function Components(k: nat, failed: set<nat>): seq<Command> {
    if k == 0 then []
    else
      Components(k - 1, failed) + [UpdateComponent(k - 1)]
      + if k - 1 in failed then [CancelUpdateComponent] else []
  }

  function Script(count: nat, failed: set<nat>, stage: Stage): seq<Command> {
    match stage
    case NotStarted => []
    case Table(n) => [RequestUpdate] + Tables(n)
    case Component(k) => [RequestUpdate] + Tables(count) + Components(k, failed)
    case Activated => [RequestUpdate] + Tables(count) + Components(count, failed) + [ActivateFirmware]
  }

  /** The components that the FD refused to update, along a run. */
  function Refused(s: System, e: Event): set<nat> {
    if e == UpdateComponentResponse(CannotBeUpdated) then {s.current} else {}
  }

  function RefusedIn(s: System, events: seq<Event>): set<nat>
    decreases |events|
  {
    if events == [] then {} else Refused(s, events[0]) + RefusedIn(Next(s, events[0]), events[1..])
  }

  // ----- where a run is

  function StageOf(s: System): Stage {
    match s.u.pldmRequest
    case Deferred(PassComponentTable(k)) => Table(k)
    case Deferred(UpdateComponent(k)) => Component(k)
    case Deferred(_) => Component(s.u.count)
    case NoRequest =>
      match s.fd
      case Unstarted => NotStarted
      case Awaiting(RequestUpdate) => Table(0)
      case Awaiting(PassComponentTable(k)) => Table(k + 1)
      case Awaiting(ActivateFirmware) => Activated
      case _ => Component(s.u.componentIndex + 1)
  }

  /** How many components are over. */
  function DoneOf(s: System): nat {
    match s.u.pldmRequest
    case Deferred(PassComponentTable(_)) => 0
    case Deferred(UpdateComponent(k)) => k
    case Deferred(_) => s.u.count
    case NoRequest =>
      match s.fd
      case Unstarted => 0
      case Awaiting(RequestUpdate) => 0
      case Awaiting(PassComponentTable(_)) => 0
      case Awaiting(ActivateFirmware) => s.u.count
      case Awaiting(CancelUpdateComponent) => s.u.componentIndex + 1
      case _ => s.u.componentIndex
  }

  /** Each of the first n components was applied, failed or was refused, one of the three; no other was. */
  ghost predicate Accounted(applied: set<nat>, failed: set<nat>, refused: set<nat>, n: nat) {
    && applied !! failed && applied !! refused && failed !! refused
    && forall j: nat :: j < n <==> j in applied || j in failed || j in refused
  }

  /** An update that has ended has followed the script up to some stage. */
  ghost predicate EndedAt(s: System, refused: set<nat>, stage: Stage, n: nat) {
    && s.u.sent == Script(s.u.count, s.failed, stage)
    && Accounted(s.applied, s.failed, refused, n) && n <= s.u.count
    && (match stage
        case NotStarted => n == 0
        case Table(p) => p <= s.u.count && n == 0
        case Component(k) => n <= k <= n + 1 && k <= s.u.count
        case Activated => n == s.u.count)
  }

  ghost predicate Scripted(s: System, refused: set<nat>) {
    if GoesOn(s) then EndedAt(s, refused, StageOf(s), DoneOf(s))
    else exists stage, n :: EndedAt(s, refused, stage, n)
  }

  // ----- every step follows it

  lemma {:induction false} ComponentsSame(k: nat, a: set<nat>, b: set<nat>)
    requires forall j: nat | j < k :: j in a <==> j in b
    ensures Components(k, a) == Components(k, b)
  {
    if k > 0 {
      ComponentsSame(k - 1, a, b);
    }
  }

  lemma {:induction false} NextTable(count: nat, failed: set<nat>, k: nat)
    ensures Script(count, failed, Table(k)) + [PassComponentTable(k)] == Script(count, failed, Table(k + 1))
  {
    assert Tables(k) + [PassComponentTable(k)] == Tables(k + 1);
  }

  lemma {:induction false} NextComponent(count: nat, failed: set<nat>, k: nat)
    requires k !in failed
    ensures Script(count, failed, Component(k)) + [UpdateComponent(k)] == Script(count, failed, Component(k + 1))
  {
  }

  lemma {:induction false} TablesComplete(count: nat, failed: set<nat>)
    ensures Script(count, failed, Table(count)) == Script(count, failed, Component(0))
  {
  }

  lemma {:induction false} FailComponent(count: nat, failed: set<nat>, k: nat)
    requires k !in failed
    ensures Script(count, failed, Component(k + 1)) + [CancelUpdateComponent]
         == Script(count, failed + {k}, Component(k + 1))
  {
    ComponentsSame(k, failed, failed + {k});
  }

  lemma {:induction false} StartFollows(s: System, refused: set<nat>)
    requires Inv(s) && Enabled(s, Start) && Scripted(s, refused)
    ensures Scripted(Next(s, Start), refused)
  {
  }

  lemma {:induction false} TableSent(s: System, refused: set<nat>, k: nat)
    requires Inv(s) && Scripted(s, refused) && s.u.pldmRequest == Deferred(PassComponentTable(k))
    ensures Scripted(Next(s, RunDeferred), refused)
  {
    NextTable(s.u.count, s.failed, k);
  }

  lemma {:induction false} UpdateSent(s: System, refused: set<nat>, k: nat)
    requires Inv(s) && Scripted(s, refused) && s.u.pldmRequest == Deferred(UpdateComponent(k))
    ensures Scripted(Next(s, RunDeferred), refused)
  {
    NextComponent(s.u.count, s.failed, k);
  }

  lemma {:induction false} ActivationSent(s: System, refused: set<nat>)
    requires Inv(s) && Scripted(s, refused) && s.u.pldmRequest == Deferred(ActivateFirmware)
    ensures Scripted(Next(s, RunDeferred), refused)
  {
  }

  lemma {:induction false} DeferredFollows(s: System, refused: set<nat>)
    requires Inv(s) && Enabled(s, RunDeferred) && Scripted(s, refused)
    ensures Scripted(Next(s, RunDeferred), refused)
  {
    match s.u.pldmRequest.command
    case PassComponentTable(k) => TableSent(s, refused, k);
    case UpdateComponent(k) => UpdateSent(s, refused, k);
    case ActivateFirmware => ActivationSent(s, refused);
    case _ => assert false;
  }

  lemma {:induction false} SetupFollows(s: System, refused: set<nat>, e: Event)
    requires Inv(s) && Enabled(s, e) && Scripted(s, refused)
    requires e.RequestUpdateResponse? || e.PassComponentTableResponse?
    ensures Scripted(Next(s, e), refused)
  {
    TablesComplete(s.u.count, s.failed);
    var t := Next(s, e);
    if !GoesOn(t) {
      assert EndedAt(t, refused, StageOf(s), 0);
    }
  }

  lemma {:induction false} SkipFollows(s: System, refused: set<nat>)
    requires Inv(s) && Enabled(s, UpdateComponentResponse(CannotBeUpdated)) && Scripted(s, refused)
    ensures Scripted(Next(s, UpdateComponentResponse(CannotBeUpdated)),
                     refused + Refused(s, UpdateComponentResponse(CannotBeUpdated)))
  {
    var t, i := Next(s, UpdateComponentResponse(CannotBeUpdated)), s.u.componentIndex;
    var more := refused + Refused(s, UpdateComponentResponse(CannotBeUpdated));
    assert Accounted(t.applied, t.failed, more, i + 1);
    if !GoesOn(t) {
      assert EndedAt(t, more, Component(i + 1), i + 1);
    }
  }

  lemma {:induction false} AnswerFollows(s: System, refused: set<nat>, a: Compatibility)
    requires Inv(s) && Enabled(s, UpdateComponentResponse(a)) && Scripted(s, refused)
    ensures Scripted(Next(s, UpdateComponentResponse(a)), refused + Refused(s, UpdateComponentResponse(a)))
  {
    if a.CannotBeUpdated? {
      SkipFollows(s, refused);
    } else {
      var t, i := Next(s, UpdateComponentResponse(a)), s.u.componentIndex;
      assert refused + Refused(s, UpdateComponentResponse(a)) == refused;
      if !GoesOn(t) {
        assert EndedAt(t, refused, Component(i + 1), i);
      }
    }
  }

  /** A failed phase: the component is cancelled and counts as failed. */
  lemma {:induction false} FailFollows(s: System, refused: set<nat>, t: System)
    requires Inv(s) && Scripted(s, refused) && s.u.pldmRequest.NoRequest?
    requires s.fd.Downloading? || s.fd.Verifying? || s.fd.Applying?
    requires t.u.sent == s.u.sent + [CancelUpdateComponent] && t.u.pldmRequest.NoRequest?
    requires t.fd == Awaiting(CancelUpdateComponent) && t.failed == s.failed + {s.current} && t.applied == s.applied
    requires t.u.count == s.u.count && t.u.componentIndex == s.u.componentIndex
    ensures Scripted(t, refused)
  {
    FailComponent(s.u.count, s.failed, s.u.componentIndex);
  }

  lemma {:induction false} DataFollows(s: System, refused: set<nat>, accepted: bool, length: nat)
    requires Inv(s) && Enabled(s, RequestFirmwareData(accepted, length)) && Scripted(s, refused)
    ensures Scripted(Next(s, RequestFirmwareData(accepted, length)), refused)
  {
  }

  lemma {:induction false} TransferFollows(s: System, refused: set<nat>, r: Result)
    requires Inv(s) && Enabled(s, TransferComplete(r)) && Scripted(s, refused)
    ensures Scripted(Next(s, TransferComplete(r)), refused)
  {
    if r.FailedPhase? {
      FailFollows(s, refused, Next(s, TransferComplete(r)));
    }
  }

  lemma {:induction false} VerifyFollows(s: System, refused: set<nat>, r: Result)
    requires Inv(s) && Enabled(s, VerifyComplete(r)) && Scripted(s, refused)
    ensures Scripted(Next(s, VerifyComplete(r)), refused)
  {
    if r.FailedPhase? {
      FailFollows(s, refused, Next(s, VerifyComplete(r)));
    }
  }

  lemma {:induction false} TimeoutFollows(s: System, refused: set<nat>)
    requires Inv(s) && Enabled(s, TimerExpires) && Scripted(s, refused)
    ensures Scripted(Next(s, TimerExpires), refused)
  {
    FailFollows(s, refused, Next(s, TimerExpires));
  }

  lemma {:induction false} ApplyFollows(s: System, refused: set<nat>, r: Result)
    requires Inv(s) && Enabled(s, ApplyComplete(r)) && Scripted(s, refused)
    ensures Scripted(Next(s, ApplyComplete(r)), refused)
  {
    var t := Next(s, ApplyComplete(r));
    if r.FailedPhase? {
      FailFollows(s, refused, t);
    } else if r.Succeeded? {
      assert Accounted(t.applied, t.failed, refused, s.u.componentIndex + 1);
    }
  }

  /** The exchange ends with a verdict while a component, all before it being over, is the last one asked for. */
  lemma {:induction false} EndsAt(s: System, refused: set<nat>, t: System, k: nat, n: nat)
    requires s.u.sent == Script(s.u.count, s.failed, Component(k)) && Accounted(s.applied, s.failed, refused, n)
    requires t.u.sent == s.u.sent && t.u.count == s.u.count && t.applied == s.applied && t.failed == s.failed
    requires n <= k <= n + 1 && k <= s.u.count && !GoesOn(t)
    ensures Scripted(t, refused)
  {
    assert EndedAt(t, refused, Component(k), n);
  }

  /** It goes on with the component k or, all being over, with the activation. */
  lemma {:induction false} GoesOnAt(s: System, refused: set<nat>, t: System, k: nat)
    requires s.u.sent == Script(s.u.count, s.failed, Component(k)) && Accounted(s.applied, s.failed, refused, k)
    requires t.u.sent == s.u.sent && t.u.count == s.u.count && t.applied == s.applied && t.failed == s.failed
    requires k <= s.u.count
    requires t.u.pldmRequest == Deferred(UpdateComponent(k))
          || (k == s.u.count && t.u.pldmRequest == Deferred(ActivateFirmware))
    ensures Scripted(t, refused)
  {
  }

  lemma {:induction false} CancelledIsDone(s: System, refused: set<nat>)
    requires Inv(s) && s.fd == Awaiting(CancelUpdateComponent) && s.u.pldmRequest.NoRequest? && Scripted(s, refused)
    ensures var k := s.u.componentIndex + 1;
            && k <= s.u.count && s.u.sent == Script(s.u.count, s.failed, Component(k))
            && Accounted(s.applied, s.failed, refused, k)
  {
  }

  lemma {:induction false} NothingPending(s: System)
    requires Inv(s) && s.fd == Awaiting(CancelUpdateComponent)
    ensures s.u.pldmRequest.NoRequest?
  {
  }

  lemma {:induction false} CancelFollows(s: System, refused: set<nat>, ok: bool)
    requires Inv(s) && Enabled(s, CancelResponse(ok)) && Scripted(s, refused)
    ensures Scripted(Next(s, CancelResponse(ok)), refused)
  {
    var t, k := Next(s, CancelResponse(ok)), s.u.componentIndex + 1;
    NothingPending(s);
    CancelledIsDone(s, refused);
    if GoesOn(t) {
      GoesOnAt(s, refused, t, k);
    } else {
      EndsAt(s, refused, t, k, k);
    }
  }

  lemma {:induction false} ActivateFollows(s: System, refused: set<nat>, ok: bool)
    requires Inv(s) && Enabled(s, ActivateResponse(ok)) && Scripted(s, refused)
    ensures Scripted(Next(s, ActivateResponse(ok)), refused)
  {
    var t := Next(s, ActivateResponse(ok));
    assert EndedAt(t, refused, Activated, s.u.count);
  }

  lemma {:induction false} NextFollows(s: System, refused: set<nat>, e: Event)
    requires Inv(s) && Enabled(s, e) && Scripted(s, refused)
    ensures Scripted(Next(s, e), refused + Refused(s, e))
  {
    assert !e.UpdateComponentResponse? ==> refused + Refused(s, e) == refused;
    match e
    case Start => StartFollows(s, refused);
    case RunDeferred => DeferredFollows(s, refused);
    case RequestUpdateResponse(_) => SetupFollows(s, refused, e);
    case PassComponentTableResponse(_) => SetupFollows(s, refused, e);
    case UpdateComponentResponse(a) => AnswerFollows(s, refused, a);
    case ApplyComplete(r) => ApplyFollows(s, refused, r);
    case CancelResponse(ok) => CancelFollows(s, refused, ok);
    case ActivateResponse(ok) => ActivateFollows(s, refused, ok);
    case RequestFirmwareData(accepted, length) => DataFollows(s, refused, accepted, length);
    case TransferComplete(r) => TransferFollows(s, refused, r);
    case VerifyComplete(r) => VerifyFollows(s, refused, r);
    case TimerExpires => TimeoutFollows(s, refused);
  }

  lemma {:induction false} RunFollows(s: System, refused: set<nat>, events: seq<Event>)
    requires Inv(s) && IsRun(s, events) && Scripted(s, refused)
    ensures Scripted(RunFrom(s, events), refused + RefusedIn(s, events))
    decreases |events|
  {
    if events == [] {
      assert refused + RefusedIn(s, events) == refused;
    } else {
      NextKeepsInv(s, events[0]);
      NextFollows(s, refused, events[0]);
      RunFollows(Next(s, events[0]), refused + Refused(s, events[0]), events[1..]);
      assert refused + RefusedIn(s, events)
          == refused + Refused(s, events[0]) + RefusedIn(Next(s, events[0]), events[1..]);
    }
  }

  // ----- what every run shows

  lemma {:induction false} BootFollows(sizes: seq<nat>)
    requires sizes != []
    ensures Scripted(Boot(sizes), {}) && Boot(sizes).u.count == |sizes|
  {
  }

  lemma {:induction false} CountStays(s: System, events: seq<Event>)
    ensures RunFrom(s, events).u.count == s.u.count
    decreases |events|
  {
    if events != [] {
      CountStays(Next(s, events[0]), events[1..]);
    }
  }

  /** A sent sequence, in which some components are over and each of them in one way. */
  ghost predicate Explained(
    sent: seq<Command>, count: nat, applied: set<nat>, failed: set<nat>, refused: set<nat>, stage: Stage, n: nat)
  {
    && sent == Script(count, failed, stage) && n <= count && Accounted(applied, failed, refused, n)
    && (match stage
        case NotStarted => n == 0
        case Table(p) => p <= count && n == 0
        case Component(k) => n <= k <= n + 1 && k <= count
        case Activated => n == count)
  }

  /**
   On every run with a protocol-following FD the agent has sent an initial part of the script: RequestUpdate, the
   component table entry by entry, UpdateComponent for each component in turn with a cancel for each that failed, and
   ActivateFirmware only when all components are over. Those that are over were each applied, failed or refused.
   */
  lemma {:induction false} EveryRunFollowsScript(sizes: seq<nat>, events: seq<Event>)
    requires sizes != [] && IsRun(Boot(sizes), events)
    ensures var s := RunFrom(Boot(sizes), events);
            exists stage, n ::
              Explained(s.u.sent, |sizes|, s.applied, s.failed, RefusedIn(Boot(sizes), events), stage, n)
  {
    var s, refused := RunFrom(Boot(sizes), events), RefusedIn(Boot(sizes), events);
    BootInv(sizes);
    BootFollows(sizes);
    RunFollows(Boot(sizes), {}, events);
    RunKeepsInv(Boot(sizes), events);
    CountStays(Boot(sizes), events);
    assert {} + refused == refused;
    if GoesOn(s) {
      assert Explained(s.u.sent, |sizes|, s.applied, s.failed, refused, StageOf(s), DoneOf(s));
    } else {
      var stage, n :| EndedAt(s, refused, stage, n);
      assert Explained(s.u.sent, |sizes|, s.applied, s.failed, refused, stage, n);
    }
  }

  // ----- in terms of the components asked for

  /** UpdateComponent was sent for 0, 1, .., k - 1, in this order and for no other component. */
  ghost predicate AsksFirst(sent: seq<Command>, k: nat) {
    |Updates(sent)| == k && forall i | 0 <= i < k :: Updates(sent)[i] == i
  }

  lemma {:induction false} TablesAskNothing(a: seq<Command>, n: nat)
    ensures Updates(a + Tables(n)) == Updates(a) && Activations(a + Tables(n)) == Activations(a)
  {
    if n == 0 {
      assert a + Tables(0) == a;
    } else {
      TablesAskNothing(a, n - 1);
      SentOneMore(a + Tables(n - 1), PassComponentTable(n - 1));
      assert a + Tables(n) == a + Tables(n - 1) + [PassComponentTable(n - 1)];
    }
  }

  lemma {:induction false} AskNext(before: seq<Command>, k: nat, cancelled: bool)
    requires AsksFirst(before, k)
    ensures var after := before + [UpdateComponent(k)] + if cancelled then [CancelUpdateComponent] else [];
            AsksFirst(after, k + 1) && Activations(after) == Activations(before)
  {
    SentOneMore(before, UpdateComponent(k));
    if cancelled {
      SentOneMore(before + [UpdateComponent(k)], CancelUpdateComponent);
    } else {
      assert before + [UpdateComponent(k)] + [] == before + [UpdateComponent(k)];
    }
  }

  lemma {:induction false} ComponentsAskEach(a: seq<Command>, k: nat, failed: set<nat>)
    requires Updates(a) == []
    ensures AsksFirst(a + Components(k, failed), k)
    ensures Activations(a + Components(k, failed)) == Activations(a)
  {
    if k == 0 {
      assert a + Components(0, failed) == a;
    } else {
      ComponentsAskEach(a, k - 1, failed);
      AskNext(a + Components(k - 1, failed), k - 1, k - 1 in failed);
      var cancel := if k - 1 in failed then [CancelUpdateComponent] else [];
      assert a + (Components(k - 1, failed) + [UpdateComponent(k - 1)] + cancel)
          == a + Components(k - 1, failed) + [UpdateComponent(k - 1)] + cancel;
    }
  }

  lemma {:induction false} ScriptAsks(count: nat, failed: set<nat>, stage: Stage)
    ensures var sent := Script(count, failed, stage);
            match stage
            case NotStarted => AsksFirst(sent, 0) && Activations(sent) == 0
            case Table(_) => AsksFirst(sent, 0) && Activations(sent) == 0
            case Component(k) => AsksFirst(sent, k) && Activations(sent) == 0
            case Activated => AsksFirst(sent, count) && Activations(sent) == 1
  {
    SentOneMore([], RequestUpdate);
    assert [] + [RequestUpdate] == [RequestUpdate];
    match stage
    case NotStarted =>
    case Table(n) => TablesAskNothing([RequestUpdate], n);
    case Component(k) =>
      TablesAskNothing([RequestUpdate], count);
      ComponentsAskEach([RequestUpdate] + Tables(count), k, failed);
    case Activated =>
      TablesAskNothing([RequestUpdate], count);
      ComponentsAskEach([RequestUpdate] + Tables(count), count, failed);
      SentOneMore([RequestUpdate] + Tables(count) + Components(count, failed), ActivateFirmware);
  }

  function AskedAt(count: nat, stage: Stage): nat {
    match stage case NotStarted => 0 case Table(_) => 0 case Component(k) => k case Activated => count
  }

  /** UpdateComponent is sent for 0, 1, .., k - 1, and for all components before ActivateFirmware is. */
  lemma {:induction false} AllAskedBeforeActivation(sizes: seq<nat>, events: seq<Event>)
    requires sizes != [] && IsRun(Boot(sizes), events)
    ensures var sent := RunFrom(Boot(sizes), events).u.sent;
            && (exists k: nat :: k <= |sizes| && AsksFirst(sent, k))
            && (Activations(sent) > 0 ==> AsksFirst(sent, |sizes|))
  {
    EveryRunFollowsScript(sizes, events);
    var s, refused := RunFrom(Boot(sizes), events), RefusedIn(Boot(sizes), events);
    var stage, n :| Explained(s.u.sent, |sizes|, s.applied, s.failed, refused, stage, n);
    ScriptAsks(|sizes|, s.failed, stage);
    assert AsksFirst(s.u.sent, AskedAt(|sizes|, stage));
  }

  lemma {:induction false} CompletedActivation(s: System)
    requires Inv(s) && s.u.activationComplete
    ensures Activations(s.u.sent) == 1
  {
  }

  lemma {:induction false} ActivatedAccountsForAll(
    sent: seq<Command>, count: nat, applied: set<nat>, failed: set<nat>, refused: set<nat>, stage: Stage, n: nat)
    requires Explained(sent, count, applied, failed, refused, stage, n) && Activations(sent) == 1
    ensures Accounted(applied, failed, refused, count)
  {
    ScriptAsks(count, failed, stage);
  }

  /** When the activation has completed, every component was applied, failed or was refused by the FD itself. */
  lemma {:induction false} ActivatedIsComplete(sizes: seq<nat>, events: seq<Event>)
    requires sizes != [] && IsRun(Boot(sizes), events) && RunFrom(Boot(sizes), events).u.activationComplete
    ensures var s := RunFrom(Boot(sizes), events);
            Accounted(s.applied, s.failed, RefusedIn(Boot(sizes), events), |sizes|)
  {
    EveryRunFollowsScript(sizes, events);
    var s, refused := RunFrom(Boot(sizes), events), RefusedIn(Boot(sizes), events);
    var stage, n :| Explained(s.u.sent, |sizes|, s.applied, s.failed, refused, stage, n);
    assert Activations(s.u.sent) == 1 by {
      BootInv(sizes);
      RunKeepsInv(Boot(sizes), events);
      CompletedActivation(s);
    }
    ActivatedAccountsForAll(s.u.sent, |sizes|, s.applied, s.failed, refused, stage, n);
  }

  // ----- progress and timer along a run

  /** The progress object of component j. */
  ghost predicate ProgressOf(s: System, size: nat, j: nat)
    requires j < |s.u.progress|
  {
    var p := s.u.progress[j];
    && p.totalSize == size
    && (p.stage.Apply? <==> j in s.applied)
    && (j !in Updates(s.u.sent) ==> p == Fresh(size))
  }

  ghost predicate PhaseStage(s: System) {
    var i := s.u.componentIndex;
    i < |s.u.progress| ==>
      && (s.fd.Downloading? || s.fd.Verifying? || (s.fd.Awaiting? && s.fd.command.UpdateComponent?) ==>
            s.u.progress[i].stage.Update?)
      && (s.fd.Applying? ==> s.u.progress[i].stage.Verify?)
  }

  /** The request timer runs only while the FD downloads. */
  ghost predicate TimerOk(s: System) {
    s.u.timer.Counting? ==> s.fd.Downloading?
  }

  ghost predicate Tracked(s: System, sizes: seq<nat>) {
    && |s.u.progress| == |sizes| == s.u.count
    && (forall j | 0 <= j < |sizes| :: ProgressOf(s, sizes[j], j))
    && PhaseStage(s) && TimerOk(s)
  }

  lemma {:induction false} CurrentIsAsked(s: System, refused: set<nat>)
    requires Inv(s) && Scripted(s, refused) && s.u.pldmRequest.NoRequest?
    requires s.fd.Downloading? || s.fd.Verifying? || s.fd.Applying?
    ensures s.u.componentIndex in Updates(s.u.sent)
  {
    ScriptAsks(s.u.count, s.failed, StageOf(s));
    assert Updates(s.u.sent)[s.u.componentIndex] == s.u.componentIndex;
  }

  /** Only the progress of the component that is being updated changes, and its size never does. */
  lemma {:induction false} ProgressChanges(s: System, e: Event, j: nat)
    requires Inv(s) && Enabled(s, e) && j < |s.u.progress|
    ensures |Next(s, e).u.progress| == |s.u.progress|
    ensures var p, q := s.u.progress[j], Next(s, e).u.progress[j];
            && q.totalSize == p.totalSize
            && (j != s.u.componentIndex || !(s.fd.Downloading? || s.fd.Verifying? || s.fd.Applying?) ==> q == p)
            && (e.RequestFirmwareData? || e.TransferComplete? ==> q.stage == p.stage)
  {
  }

  ghost predicate SendsAtMostOne(before: seq<Command>, after: seq<Command>) {
    after == before || (|after| == |before| + 1 && after == before + [after[|before|]])
  }

  lemma {:induction false} StepSends(s: System, e: Event)
    ensures SendsAtMostOne(s.u.sent, Next(s, e).u.sent)
  {
  }

  lemma {:induction false} UpdatesGrow(s: System, e: Event)
    ensures forall j | j in Updates(s.u.sent) :: j in Updates(Next(s, e).u.sent)
  {
    StepSends(s, e);
    var before, after := s.u.sent, Next(s, e).u.sent;
    if after != before {
      SentOneMore(before, after[|before|]);
    }
  }

  lemma {:induction false} ProgressTracked(s: System, refused: set<nat>, e: Event, size: nat, j: nat)
    requires Inv(s) && Scripted(s, refused) && Enabled(s, e) && j < |s.u.progress|
    requires ProgressOf(s, size, j) && PhaseStage(s)
    ensures j < |Next(s, e).u.progress| && ProgressOf(Next(s, e), size, j)
  {
    ProgressChanges(s, e, j);
    UpdatesGrow(s, e);
    if s.fd.Downloading? || s.fd.Verifying? || s.fd.Applying? {
      CurrentIsAsked(s, refused);
    }
  }

  lemma {:induction false} TimerTracked(s: System, e: Event)
    requires Inv(s) && Enabled(s, e) && TimerOk(s)
    ensures TimerOk(Next(s, e))
  {
  }

  /** A component that is about to be asked for is untouched. */
  lemma {:induction false} NextIsFresh(s: System, refused: set<nat>, k: nat, sizes: seq<nat>)
    requires Inv(s) && Scripted(s, refused) && Tracked(s, sizes) && s.u.pldmRequest == Deferred(UpdateComponent(k))
    ensures k == s.u.componentIndex < |s.u.progress| && s.u.progress[k].stage.Update?
  {
    ScriptAsks(s.u.count, s.failed, StageOf(s));
    assert k !in Updates(s.u.sent);
    assert ProgressOf(s, sizes[k], k);
  }

  lemma {:induction false} PhaseAfterDeferred(s: System, refused: set<nat>, sizes: seq<nat>)
    requires Inv(s) && Scripted(s, refused) && Enabled(s, RunDeferred) && Tracked(s, sizes)
    ensures PhaseStage(Next(s, RunDeferred))
  {
    if s.u.pldmRequest.command.UpdateComponent? {
      NextIsFresh(s, refused, s.u.pldmRequest.command.index, sizes);
    }
  }

  lemma {:induction false} PhaseAfterOther(s: System, e: Event)
    requires Inv(s) && Enabled(s, e) && PhaseStage(s) && !e.RunDeferred?
    ensures PhaseStage(Next(s, e))
  {
  }

  lemma {:induction false} NextTracked(s: System, refused: set<nat>, e: Event, sizes: seq<nat>)
    requires Inv(s) && Scripted(s, refused) && Enabled(s, e) && Tracked(s, sizes)
    ensures Tracked(Next(s, e), sizes)
  {
    TimerTracked(s, e);
    if e.RunDeferred? {
      PhaseAfterDeferred(s, refused, sizes);
    } else {
      PhaseAfterOther(s, e);
    }
    CountOfNext(s, e);
    AllProgressTracked(s, refused, e, sizes);
  }

  lemma {:induction false} CountOfNext(s: System, e: Event)
    ensures Next(s, e).u.count == s.u.count
  {
  }

  lemma {:induction false} AllProgressTracked(s: System, refused: set<nat>, e: Event, sizes: seq<nat>)
    requires Inv(s) && Scripted(s, refused) && Enabled(s, e) && Tracked(s, sizes)
    ensures |Next(s, e).u.progress| == |sizes| && forall j | 0 <= j < |sizes| :: ProgressOf(Next(s, e), sizes[j], j)
  {
    if sizes != [] {
      ProgressChanges(s, e, 0);
    }
    forall j | 0 <= j < |sizes| ensures ProgressOf(Next(s, e), sizes[j], j) {
      ProgressTracked(s, refused, e, sizes[j], j);
    }
  }

  lemma {:induction false} RunTracked(s: System, refused: set<nat>, events: seq<Event>, sizes: seq<nat>)
    requires Inv(s) && Scripted(s, refused) && IsRun(s, events) && Tracked(s, sizes)
    ensures Tracked(RunFrom(s, events), sizes)
    decreases |events|
  {
    if events != [] {
      NextKeepsInv(s, events[0]);
      NextFollows(s, refused, events[0]);
      NextTracked(s, refused, events[0], sizes);
      RunTracked(Next(s, events[0]), refused + Refused(s, events[0]), events[1..], sizes);
    }
  }

  /**
   On every run a component's progress object is untouched until the component is asked for and at the apply stage
   exactly when it was applied; the one that is being updated is at the stage of its phase; and the request timer runs
   only during a download.
   */
  lemma {:induction false} EveryRunTracked(sizes: seq<nat>, events: seq<Event>)
    requires sizes != [] && IsRun(Boot(sizes), events)
    ensures Tracked(RunFrom(Boot(sizes), events), sizes)
  {
    BootInv(sizes);
    BootFollows(sizes);
    RunTracked(Boot(sizes), {}, events, sizes);
  }

  /** An accepted request is counted for the component being downloaded, as long as it fits, and (re)starts the timer. */
  lemma {:induction false} RequestIsCounted(s: System, length: nat)
    requires Inv(s) && s.fd.Downloading? && s.u.progress[s.u.componentIndex].stage.Update?
    requires var p := s.u.progress[s.u.componentIndex]; 0 < p.totalUpdated + length <= p.totalSize < U32
    ensures var t, i := Next(s, RequestFirmwareData(true, length)), s.u.componentIndex;
            && |t.u.progress| == |s.u.progress| && t.u.timer.Counting?
            && t.u.progress[i].totalUpdated == s.u.progress[i].totalUpdated + length
  {
  }

  // ----- the whole update

  /** An update is Active only when each component of each device was applied, or the FD itself refused it. */
  lemma {:induction false} ActiveMeansAllComponents(
    sizes: map<nat, seq<nat>>, lastProgress: nat, steps: seq<UpdateManager.Step>, eid: nat)
    requires UpdateManager.Updatable(sizes)
    requires UpdateManager.IsFleetRun(UpdateManager.StartUpdate(sizes, lastProgress), steps)
    requires var f := UpdateManager.FleetRun(UpdateManager.StartUpdate(sizes, lastProgress), steps);
             f.merge.activation == UpdateManager.Active && eid in sizes
    ensures var s := RunFrom(Boot(sizes[eid]), UpdateManager.EventsOf(steps, eid));
            Accounted(s.applied, {}, RefusedIn(Boot(sizes[eid]), UpdateManager.EventsOf(steps, eid)), |sizes[eid]|)
  {
    var f0 := UpdateManager.StartUpdate(sizes, lastProgress);
    UpdateManager.FleetOutcome(sizes, lastProgress, steps);
    UpdateManager.DeviceRuns(f0, steps, eid);
    var f := UpdateManager.FleetRun(f0, steps);
    assert UpdateManager.Clean(f.devices[eid]);
    ActivatedIsComplete(sizes[eid], UpdateManager.EventsOf(steps, eid));
  }
}
