/**
 The update agent's state machine for one firmware device: the handlers of fw-update/device_updater.cpp, and the
 runs they make together with a firmware device (FD) that follows the order of DSP0267.
 */
module DeviceUpdater {
  import opened Wrappers
  import opened Bytes
  import opened UpdateProgress

  // ----- the object

  /** The commands the agent sends; the index is that of an applicable component. */
  datatype Command =
    | RequestUpdate
    | PassComponentTable(index: nat)
    | UpdateComponent(index: nat)
    | CancelUpdateComponent
    | ActivateFirmware

  /** pldmRequest: a command waiting for the event loop to send it. */
  datatype Deferred = NoRequest | Deferred(command: Command)

  /** reqFwDataTimer: absent, created but not counting, or counting. */
  datatype Timer = NoTimer | Created | Counting

  /** The fields of a DeviceUpdater, the commands it has sent and the verdicts it has reported to the manager. */
  datatype Updater = Updater(
    count: nat,
    componentIndex: nat,
    status: map<nat, bool>,
    pldmRequest: Deferred,
    timer: Timer,
    progress: seq<Progress>,
    activationComplete: bool,
    sent: seq<Command>,
    reports: seq<bool>)

  function New(sizes: seq<nat>): Updater {
    Updater(|sizes|, 0, map[], NoRequest, NoTimer,
            seq(|sizes|, i requires 0 <= i < |sizes| => Fresh(sizes[i])), false, [], [])
  }

  // ----- the handlers

  function Send(u: Updater, c: Command): Updater { u.(sent := u.sent + [c]) }

  function Defer(u: Updater, c: Command): Updater { u.(pldmRequest := Deferred(c)) }

  /** updateManager->updateDeviceCompletion */
  function Report(u: Updater, ok: bool): Updater { u.(reports := u.reports + [ok]) }

  function SetStatus(u: Updater, ok: bool): Updater { u.(status := u.status[u.componentIndex := ok]) }

  function SendCancel(u: Updater): Updater { Send(u.(pldmRequest := NoRequest), CancelUpdateComponent) }

  predicate Last(u: Updater) { u.componentIndex + 1 == u.count }

  predicate AnyUpdated(status: map<nat, bool>) { exists j :: j in status && status[j] }

  /** The event loop sends the deferred command. */
  function OnDeferred(u: Updater): Updater {
    if u.pldmRequest.NoRequest? then u else Send(u.(pldmRequest := NoRequest), u.pldmRequest.command)
  }

  function OnRequestUpdate(u: Updater, ok: bool): Updater {
    if !ok then Report(u, false) else Defer(u, PassComponentTable(u.componentIndex))
  }

  function OnPassCompTable(u: Updater, ok: bool): Updater {
    if !ok then Report(u, false)
    else if Last(u) then Defer(u.(componentIndex := 0), UpdateComponent(0))
    else Defer(u.(componentIndex := u.componentIndex + 1), PassComponentTable(u.componentIndex + 1))
  }

  /** The response to UpdateComponent; NoAnswer stands for a missing, undecodable or refused one. */
  datatype Compatibility = NoAnswer | CanBeUpdated | CannotBeUpdated | UnknownCompatibility

  function OnUpdateComponent(u: Updater, r: Compatibility): Updater {
    if r.NoAnswer? || u.count == 0 || r.UnknownCompatibility? then Report(u, false)
    else if r.CanBeUpdated? then SetStatus(u, true).(timer := Created)
    else
      var v := SetStatus(u, false);
      if !Last(u) then Defer(v.(componentIndex := u.componentIndex + 1), UpdateComponent(u.componentIndex + 1))
      else if AnyUpdated(v.status) then Defer(v.(componentIndex := 0), ActivateFirmware)
      else Report(v, false)
  }

  function OnTimeout(u: Updater): Updater {
    Report(SendCancel(SetStatus(u, false).(timer := Created)), false)
  }

  function SetProgress(u: Updater, p: Progress): Updater
    requires u.componentIndex < |u.progress|
  {
    u.(progress := u.progress[u.componentIndex := p])
  }

  /** requestFwData; `accepted` is whether the range was served. */
  function OnRequestFwData(u: Updater, accepted: bool, length: nat): Updater {
    if !accepted then u
    else
      var v := if u.componentIndex < |u.progress|
               then SetProgress(u, ReportFwUpdate(u.progress[u.componentIndex], length)) else u;
      v.(timer := Counting)
  }

  /** The result the FD reports at the end of a phase. */
  datatype Result = Undecodable | Succeeded | FailedPhase

  function Fail(u: Updater): Updater { SendCancel(SetStatus(Report(u, false), false)) }

  function OnTransferComplete(u: Updater, r: Result): Updater {
    var v := u.(timer := NoTimer);
    if r.FailedPhase? then Fail(v) else v
  }

  function AtStage(u: Updater, s: Stage): Updater {
    if u.componentIndex < |u.progress| then SetProgress(u, UpdateState(u.progress[u.componentIndex], s)) else u
  }

  function OnVerifyComplete(u: Updater, r: Result): Updater {
    if r.Undecodable? then u
    else
      var v := AtStage(u, Verify);
      if r.FailedPhase? then Fail(v) else v
  }

  function OnApplyComplete(u: Updater, r: Result): Updater {
    if r.Undecodable? then u
    else if r.FailedPhase? then Fail(u)
    else
      var v := AtStage(u, Apply);
      if Last(u) then Defer(v.(componentIndex := 0, status := map[0 := true]), ActivateFirmware)
      else
        var next := u.componentIndex + 1;
        Defer(v.(componentIndex := next, status := v.status[next := true]), UpdateComponent(next))
  }

  function OnActivateFirmware(u: Updater, ok: bool): Updater {
    if ok then Report(u.(activationComplete := true), true) else Report(u, false)
  }

  function OnCancelUpdateComponent(u: Updater, ok: bool): Updater {
    if !ok then u
    else if !Last(u) then
      var next := u.componentIndex + 1;
      Defer(u.(componentIndex := next, status := u.status[next := true]), UpdateComponent(next))
    else if AnyUpdated(u.status) then Defer(u.(componentIndex := 0, status := map[]), ActivateFirmware)
    else Report(u, false)
  }

  // ----- runs with a firmware device

  /** Where the FD is in the protocol: it answers a command, or works through the phases of a component. */
  datatype Fd = Unstarted | Quiet | Awaiting(command: Command) | Downloading | Verifying | Applying

  /** Agent and FD, the component the FD was last asked to update, and what became of the components. */
  datatype System = System(u: Updater, fd: Fd, current: nat, applied: set<nat>, failed: set<nat>)

  datatype Event =
    | Start
    | RunDeferred
    | RequestUpdateResponse(ok: bool)
    | PassComponentTableResponse(ok: bool)
    | UpdateComponentResponse(answer: Compatibility)
    | RequestFirmwareData(accepted: bool, length: nat)
    | TransferComplete(result: Result)
    | VerifyComplete(result: Result)
    | ApplyComplete(result: Result)
    | TimerExpires
    | CancelResponse(ok: bool)
    | ActivateResponse(ok: bool)

  /** An FD that follows the protocol: one phase at a time, and nothing further after a phase has failed. */
  predicate Enabled(s: System, e: Event) {
    match e
    case Start => s.fd.Unstarted?
    case RunDeferred => s.u.pldmRequest.Deferred?
    case RequestUpdateResponse(_) => s.fd == Awaiting(RequestUpdate)
    case PassComponentTableResponse(_) => s.fd.Awaiting? && s.fd.command.PassComponentTable?
    case UpdateComponentResponse(_) => s.fd.Awaiting? && s.fd.command.UpdateComponent?
    case RequestFirmwareData(_, _) => s.fd.Downloading?
    case TransferComplete(_) => s.fd.Downloading?
    case VerifyComplete(_) => s.fd.Verifying?
    case ApplyComplete(_) => s.fd.Applying?
    case TimerExpires => s.fd.Downloading? && s.u.timer.Counting?
    case CancelResponse(_) => s.fd == Awaiting(CancelUpdateComponent)
    case ActivateResponse(_) => s.fd == Awaiting(ActivateFirmware)
  }

  function AfterPhase(s: System, u: Updater, r: Result, next: Fd): System {
    match r
    case Undecodable => s.(u := u)
    case Succeeded => s.(u := u, fd := next)
    case FailedPhase => s.(u := u, fd := Awaiting(CancelUpdateComponent), failed := s.failed + {s.current})
  }

  function Next(s: System, e: Event): System {
    match e
    case Start => s.(u := Send(s.u, RequestUpdate), fd := Awaiting(RequestUpdate))
    case RunDeferred =>
      if s.u.pldmRequest.NoRequest? then s
      else
        var c := s.u.pldmRequest.command;
        s.(u := OnDeferred(s.u), fd := Awaiting(c), current := if c.UpdateComponent? then c.index else s.current)
    case RequestUpdateResponse(ok) => s.(u := OnRequestUpdate(s.u, ok), fd := Quiet)
    case PassComponentTableResponse(ok) => s.(u := OnPassCompTable(s.u, ok), fd := Quiet)
    case UpdateComponentResponse(a) =>
      s.(u := OnUpdateComponent(s.u, a), fd := if a.CanBeUpdated? then Downloading else Quiet)
    case RequestFirmwareData(accepted, length) => s.(u := OnRequestFwData(s.u, accepted, length))
    case TransferComplete(r) => AfterPhase(s, OnTransferComplete(s.u, r), r, Verifying)
    case VerifyComplete(r) => AfterPhase(s, OnVerifyComplete(s.u, r), r, Applying)
    case ApplyComplete(r) =>
      var t := AfterPhase(s, OnApplyComplete(s.u, r), r, Quiet);
      if r.Succeeded? then t.(applied := s.applied + {s.current}) else t
    case TimerExpires =>
      s.(u := OnTimeout(s.u), fd := Awaiting(CancelUpdateComponent), failed := s.failed + {s.current})
    case CancelResponse(ok) => s.(u := OnCancelUpdateComponent(s.u, ok), fd := Quiet)
    case ActivateResponse(ok) => s.(u := OnActivateFirmware(s.u, ok), fd := Quiet)
  }

  function Boot(sizes: seq<nat>): System {
    System(New(sizes), Unstarted, 0, {}, {})
  }

  /** A run: every event is one that the protocol allows where it happens. */
  ghost predicate IsRun(s: System, events: seq<Event>)
    decreases |events|
  {
    events == [] || (Enabled(s, events[0]) && IsRun(Next(s, events[0]), events[1..]))
  }

  function RunFrom(s: System, events: seq<Event>): System
    decreases |events|
  {
    if events == [] then s else RunFrom(Next(s, events[0]), events[1..])
  }

  // ----- what was sent

  /** The components for which UpdateComponent was sent, in order. */
  function Updates(sent: seq<Command>): seq<nat> {
    if sent == [] then []
    else
      var c := sent[|sent| - 1];
      Updates(sent[..|sent| - 1]) + if c.UpdateComponent? then [c.index] else []
  }

  function Activations(sent: seq<Command>): nat {
    if sent == [] then 0
    else Activations(sent[..|sent| - 1]) + if sent[|sent| - 1].ActivateFirmware? then 1 else 0
  }

  lemma {:induction false} SentOneMore(sent: seq<Command>, c: Command)
    ensures Updates(sent + [c]) == Updates(sent) + if c.UpdateComponent? then [c.index] else []
    ensures Activations(sent + [c]) == Activations(sent) + if c.ActivateFirmware? then 1 else 0
  {
    assert (sent + [c])[..|sent|] == sent;
  }

  // ----- the invariant

  /** Below the current index, the status is true exactly for the components that were applied. */
  ghost predicate StatusIsApplied(s: System) {
    forall j: nat | j < s.u.componentIndex :: j in s.u.status && (s.u.status[j] <==> j in s.applied)
  }

  /** A failure is reported at once, and nothing else is while the update goes on. */
  ghost predicate Verdict(s: System) {
    && (s.failed == {} ==> s.u.reports == [])
    && (s.failed != {} ==> s.u.reports != [] && !s.u.reports[0])
    && !s.u.activationComplete
  }

  ghost predicate BeforeUpdates(s: System) {
    && Updates(s.u.sent) == [] && Activations(s.u.sent) == 0
    && s.applied == {} && s.failed == {} && s.u.status == map[]
    && Verdict(s)
  }

  /** While components are being updated, those below `bound` have been asked for. */
  ghost predicate DuringUpdates(s: System, bound: nat) {
    && Activations(s.u.sent) == 0
    && (forall x | x in Updates(s.u.sent) :: x < bound)
    && (forall x | x in s.applied :: x < s.u.componentIndex)
    && (forall j | j in s.u.status :: j <= s.u.componentIndex)
    && StatusIsApplied(s)
    && Verdict(s)
  }

  ghost predicate InPhase(s: System, ok: bool) {
    var i := s.u.componentIndex;
    s.current == i && DuringUpdates(s, i + 1) && i in s.u.status && s.u.status[i] == ok
  }

  ghost predicate ReadyToActivate(s: System, activations: nat) {
    s.u.componentIndex == 0 && s.applied != {} && Activations(s.u.sent) == activations && Verdict(s)
  }

  /** Nothing is pending and nothing outstanding: a verdict has been reported. */
  ghost predicate Ended(s: System) {
    && s.u.reports != []
    && Activations(s.u.sent) <= 1
    && (Activations(s.u.sent) == 1 ==> s.applied != {})
    && (Updates(s.u.sent) != [] ==> StatusIsApplied(s))
    && (s.failed != {} ==> !s.u.reports[0])
    && (s.u.reports[0] ==> s.u.activationComplete)
    && (s.u.activationComplete ==> Activations(s.u.sent) == 1 && (s.u.reports[0] <==> s.failed == {}))
  }

  ghost predicate Mode(s: System) {
    var i := s.u.componentIndex;
    match s.u.pldmRequest
    case Deferred(c) =>
      s.fd.Quiet? &&
      (match c
       case PassComponentTable(k) => k == i && BeforeUpdates(s)
       case UpdateComponent(k) => k == i && DuringUpdates(s, i)
       case ActivateFirmware => ReadyToActivate(s, 0)
       case _ => false)
    case NoRequest =>
      match s.fd
      case Unstarted => BeforeUpdates(s) && i == 0
      case Downloading => InPhase(s, true)
      case Verifying => InPhase(s, true)
      case Applying => InPhase(s, true)
      case Quiet => Ended(s)
      case Awaiting(c) =>
        match c
        case RequestUpdate => BeforeUpdates(s) && i == 0
        case PassComponentTable(k) => k == i && BeforeUpdates(s)
        case UpdateComponent(k) => k == i == s.current && DuringUpdates(s, i + 1)
        case CancelUpdateComponent => InPhase(s, false) && i in s.failed
        case ActivateFirmware => ReadyToActivate(s, 1)
  }

  ghost predicate Base(s: System) {
    && s.u.componentIndex < s.u.count == |s.u.progress|
    && StrictlyIncreasing(Updates(s.u.sent))
    && forall x | x in Updates(s.u.sent) :: x < s.u.count
  }

  ghost predicate Inv(s: System) {
    Base(s) && Mode(s)
  }

  /** What the invariant means to someone watching the exchange. */
  ghost predicate Safe(s: System) {
    // the component index stays in range and UpdateComponent is sent for increasing indexes
    && s.u.componentIndex < s.u.count
    && StrictlyIncreasing(Updates(s.u.sent))
    // once updating, the status below the index is that of the component
    && (Updates(s.u.sent) != [] ==> StatusIsApplied(s))
    // ActivateFirmware is sent at most once, and only if some component was applied
    && Activations(s.u.sent) <= 1
    && (Activations(s.u.sent) == 1 ==> s.applied != {})
    // a failed component makes the first verdict a failure, even if the rest is activated later
    && (s.failed != {} ==> s.u.reports != [] && !s.u.reports[0])
    && (s.u.activationComplete ==> s.u.reports != [] && (s.u.reports[0] <==> s.failed == {}))
    // and success is reported first only for a completed activation
    && (s.u.reports != [] && s.u.reports[0] ==> s.u.activationComplete)
    // the run stops only with a verdict
    && (s.fd.Quiet? && s.u.pldmRequest.NoRequest? ==> s.u.reports != [])
  }

  /** The exchange goes on: a command is pending, or the FD has something to answer or to do. */
  predicate GoesOn(s: System) {
    s.u.pldmRequest.Deferred? || !s.fd.Quiet?
  }

  lemma {:induction false} OngoingVerdict(s: System)
    requires Mode(s) && GoesOn(s)
    ensures Verdict(s)
  {
    match s.u.pldmRequest
    case Deferred(_) =>
    case NoRequest =>
  }

  lemma {:induction false} OngoingStatus(s: System)
    requires Mode(s) && GoesOn(s)
    ensures Updates(s.u.sent) != [] ==> StatusIsApplied(s)
  {
    match s.u.pldmRequest
    case Deferred(_) =>
    case NoRequest =>
  }

  lemma {:induction false} OngoingActivations(s: System)
    requires Mode(s) && GoesOn(s)
    ensures Activations(s.u.sent) <= 1 && (Activations(s.u.sent) == 1 ==> s.applied != {})
  {
    match s.u.pldmRequest
    case Deferred(_) =>
    case NoRequest =>
  }

  lemma {:induction false} QuietIsEnded(s: System)
    requires Mode(s) && !GoesOn(s)
    ensures Ended(s)
  {
  }

  /** What is left to show once the parts that depend on the mode are known. */
  lemma {:induction false} OngoingIsSafe(s: System)
    requires Base(s) && GoesOn(s) && Verdict(s)
    requires Updates(s.u.sent) != [] ==> StatusIsApplied(s)
    requires Activations(s.u.sent) <= 1 && (Activations(s.u.sent) == 1 ==> s.applied != {})
    ensures Safe(s)
  {
  }

  lemma {:induction false} EndedIsSafe(s: System)
    requires Base(s) && Ended(s)
    ensures Safe(s)
  {
  }

  lemma {:induction false} InvIsSafe(s: System)
    requires Inv(s)
    ensures Safe(s)
  {
    if GoesOn(s) {
      OngoingVerdict(s);
      OngoingStatus(s);
      OngoingActivations(s);
      OngoingIsSafe(s);
    } else {
      QuietIsEnded(s);
      EndedIsSafe(s);
    }
  }

  // ----- every step keeps the invariant

  lemma {:induction false} BootInv(sizes: seq<nat>)
    requires sizes != []
    ensures Inv(Boot(sizes))
  {
  }

  lemma {:induction false} StartKeeps(s: System)
    requires Inv(s) && Enabled(s, Start)
    ensures Inv(Next(s, Start))
  {
    SentOneMore(s.u.sent, RequestUpdate);
  }

  lemma {:induction false} RunDeferredKeeps(s: System)
    requires Inv(s) && Enabled(s, RunDeferred)
    ensures Inv(Next(s, RunDeferred))
  {
    var c := s.u.pldmRequest.command;
    SentOneMore(s.u.sent, c);
    if c.UpdateComponent? {
      IncreasingAppend(Updates(s.u.sent), c.index);
    }
  }

  lemma {:induction false} SetupResponseKeeps(s: System, e: Event)
    requires Inv(s) && Enabled(s, e) && (e.RequestUpdateResponse? || e.PassComponentTableResponse?)
    ensures Inv(Next(s, e))
  {
  }

  /** Where the last component is over, an updated one among those before it was applied. */
  lemma {:induction false} UpdatedWasApplied(s: System, status: map<nat, bool>)
    requires StatusIsApplied(s) && (forall j | j in status :: j <= s.u.componentIndex)
    requires forall j: nat | j < s.u.componentIndex :: j in s.u.status && j in status && status[j] == s.u.status[j]
    requires s.u.componentIndex in status && !status[s.u.componentIndex] && AnyUpdated(status)
    ensures s.applied != {}
  {
    var j :| j in status && status[j];
    assert j in s.applied;
  }

  lemma {:induction false} SkippedKeeps(s: System)
    requires Inv(s) && Enabled(s, UpdateComponentResponse(CannotBeUpdated)) && !Last(s.u)
    ensures Inv(Next(s, UpdateComponentResponse(CannotBeUpdated)))
  {
  }

  lemma {:induction false} LastSkippedKeeps(s: System)
    requires Inv(s) && Enabled(s, UpdateComponentResponse(CannotBeUpdated)) && Last(s.u)
    ensures Inv(Next(s, UpdateComponentResponse(CannotBeUpdated)))
  {
    var status := SetStatus(s.u, false).status;
    if AnyUpdated(status) {
      UpdatedWasApplied(s, status);
    }
  }

  lemma {:induction false} UpdateComponentResponseKeeps(s: System, a: Compatibility)
    requires Inv(s) && Enabled(s, UpdateComponentResponse(a))
    ensures Inv(Next(s, UpdateComponentResponse(a)))
  {
    if a.CannotBeUpdated? {
      if Last(s.u) {
        LastSkippedKeeps(s);
      } else {
        SkippedKeeps(s);
      }
    }
  }

  /** A failed phase: the status is cleared, the failure reported and the component cancelled. */
  lemma {:induction false} FailKeeps(s: System, v: Updater)
    requires Inv(s) && s.u.pldmRequest.NoRequest? && InPhase(s, true)
    requires v == s.u.(timer := v.timer, progress := v.progress) && |v.progress| == |s.u.progress|
    ensures Inv(s.(u := Fail(v), fd := Awaiting(CancelUpdateComponent), failed := s.failed + {s.current}))
  {
    SentOneMore(s.u.sent, CancelUpdateComponent);
    var t := s.(u := Fail(v), fd := Awaiting(CancelUpdateComponent), failed := s.failed + {s.current});
    assert t.u.sent == s.u.sent + [CancelUpdateComponent];
    assert t.u.reports == s.u.reports + [false];
  }

  lemma {:induction false} DataKeeps(s: System, accepted: bool, length: nat)
    requires Inv(s) && Enabled(s, RequestFirmwareData(accepted, length))
    ensures Inv(Next(s, RequestFirmwareData(accepted, length)))
  {
  }

  lemma {:induction false} TransferKeeps(s: System, r: Result)
    requires Inv(s) && Enabled(s, TransferComplete(r))
    ensures Inv(Next(s, TransferComplete(r)))
  {
    if r.FailedPhase? {
      FailKeeps(s, s.u.(timer := NoTimer));
    }
  }

  lemma {:induction false} TimeoutKeeps(s: System)
    requires Inv(s) && Enabled(s, TimerExpires)
    ensures Inv(Next(s, TimerExpires))
  {
    FailKeeps(s, s.u.(timer := Created));
  }

  lemma {:induction false} VerifyKeeps(s: System, r: Result)
    requires Inv(s) && Enabled(s, VerifyComplete(r))
    ensures Inv(Next(s, VerifyComplete(r)))
  {
    if r.FailedPhase? {
      FailKeeps(s, AtStage(s.u, Verify));
    }
  }

  lemma {:induction false} AppliedKeeps(s: System)
    requires Inv(s) && Enabled(s, ApplyComplete(Succeeded))
    ensures Inv(Next(s, ApplyComplete(Succeeded)))
  {
    var t := Next(s, ApplyComplete(Succeeded));
    assert s.current in t.applied && t.u.sent == s.u.sent && t.u.reports == s.u.reports;
    if !Last(s.u) {
      assert DuringUpdates(t, t.u.componentIndex);
    } else {
      assert ReadyToActivate(t, 0);
    }
  }

  lemma {:induction false} ApplyKeeps(s: System, r: Result)
    requires Inv(s) && Enabled(s, ApplyComplete(r))
    ensures Inv(Next(s, ApplyComplete(r)))
  {
    if r.FailedPhase? {
      FailKeeps(s, s.u);
    } else if r.Succeeded? {
      AppliedKeeps(s);
    }
  }

  lemma {:induction false} CancelResponseKeeps(s: System, ok: bool)
    requires Inv(s) && Enabled(s, CancelResponse(ok))
    ensures Inv(Next(s, CancelResponse(ok)))
  {
    if Last(s.u) && AnyUpdated(s.u.status) {
      UpdatedWasApplied(s, s.u.status);
    }
  }

  lemma {:induction false} ActivateResponseKeeps(s: System, ok: bool)
    requires Inv(s) && Enabled(s, ActivateResponse(ok))
    ensures Inv(Next(s, ActivateResponse(ok)))
  {
  }

  lemma {:induction false} NextKeepsInv(s: System, e: Event)
    requires Inv(s) && Enabled(s, e)
    ensures Inv(Next(s, e))
  {
    match e
    case Start => StartKeeps(s);
    case RunDeferred => RunDeferredKeeps(s);
    case RequestUpdateResponse(_) => SetupResponseKeeps(s, e);
    case PassComponentTableResponse(_) => SetupResponseKeeps(s, e);
    case UpdateComponentResponse(a) => UpdateComponentResponseKeeps(s, a);
    case RequestFirmwareData(accepted, length) => DataKeeps(s, accepted, length);
    case TransferComplete(r) => TransferKeeps(s, r);
    case VerifyComplete(r) => VerifyKeeps(s, r);
    case ApplyComplete(r) => ApplyKeeps(s, r);
    case TimerExpires => TimeoutKeeps(s);
    case CancelResponse(ok) => CancelResponseKeeps(s, ok);
    case ActivateResponse(ok) => ActivateResponseKeeps(s, ok);
  }

  lemma {:induction false} RunKeepsInv(s: System, events: seq<Event>)
    requires Inv(s) && IsRun(s, events)
    ensures Inv(RunFrom(s, events))
    decreases |events|
  {
    if events != [] {
      NextKeepsInv(s, events[0]);
      RunKeepsInv(Next(s, events[0]), events[1..]);
    }
  }

  /** Every run of the agent with a protocol-following FD is safe in every state it reaches. */
  lemma {:induction false} EveryRunIsSafe(sizes: seq<nat>, events: seq<Event>)
    requires sizes != [] && IsRun(Boot(sizes), events)
    ensures Safe(RunFrom(Boot(sizes), events))
  {
    BootInv(sizes);
    RunKeepsInv(Boot(sizes), events);
    InvIsSafe(RunFrom(Boot(sizes), events));
  }

  // ----- progress on every run, protocol-following or not

  lemma {:induction false} NextKeepsSound(s: System, e: Event)
    requires AllSound(s.u.progress)
    ensures AllSound(Next(s, e).u.progress) && |Next(s, e).u.progress| == |s.u.progress|
  {
    var i, ps := s.u.componentIndex, s.u.progress;
    if i < |ps| {
      assert ps[i] in ps;
      if e.RequestFirmwareData? {
        ReportKeepsSound(ps[i], e.length);
        ReplaceKeepsSound(ps, i, ReportFwUpdate(ps[i], e.length));
      }
      ReplaceKeepsSound(ps, i, UpdateState(ps[i], Verify));
      ReplaceKeepsSound(ps, i, UpdateState(ps[i], Apply));
    }
  }

  lemma {:induction false} ReplaceKeepsSound(ps: seq<Progress>, i: nat, p: Progress)
    requires AllSound(ps) && i < |ps| && Sound(p)
    ensures AllSound(ps[i := p])
  {
    forall x | x in ps[i := p] ensures Sound(x) {
      assert x == p || x in ps;
    }
  }

  lemma {:induction false} RunKeepsSound(s: System, events: seq<Event>)
    requires AllSound(s.u.progress)
    ensures AllSound(RunFrom(s, events).u.progress) && |RunFrom(s, events).u.progress| == |s.u.progress|
    decreases |events|
  {
    if events != [] {
      NextKeepsSound(s, events[0]);
      RunKeepsSound(Next(s, events[0]), events[1..]);
    }
  }

  /**
   On every run, a component is at most at 97 percent until VerifyComplete or ApplyComplete is handled for it and at
   most at 99 ever, and the device is at 100 exactly after its activation has completed.
   */
  lemma {:induction false} RunProgress(sizes: seq<nat>, events: seq<Event>)
    requires sizes != [] && forall x | x in sizes :: x < U32
    ensures var u := RunFrom(Boot(sizes), events).u;
            && |u.progress| == |sizes|
            && (forall p | p in u.progress ::
                  match p.stage
                  case Update => p.percent <= 97
                  case Verify => p.percent == 98
                  case Apply => p.percent == 99)
            && DeviceProgress(u.progress, u.activationComplete) <= 100
            && (DeviceProgress(u.progress, u.activationComplete) == 100 <==> u.activationComplete)
  {
    forall p | p in Boot(sizes).u.progress ensures Sound(p) {
      var i :| 0 <= i < |sizes| && p == Fresh(sizes[i]);
      assert sizes[i] in sizes;
    }
    RunKeepsSound(Boot(sizes), events);
    var u := RunFrom(Boot(sizes), events).u;
    forall p | p in u.progress && p.stage.Update? ensures p.percent <= XFER_PERCENT {
      TransferAtMost97(p);
    }
    HundredIffActivated(u.progress, u.activationComplete);
  }

  /** RequestFirmwareData is accepted only up to the maximum transfer size. */
  predicate WithinTransferSize(events: seq<Event>) {
    forall e | e in events && e.RequestFirmwareData? && e.accepted :: e.length <= 4096
  }

  lemma {:induction false} NextTransferMonotone(s: System, e: Event, j: nat)
    requires AllSound(s.u.progress) && j < |s.u.progress| && s.u.progress[j].totalSize + 4096 < U32
    requires WithinTransferSize([e])
    ensures |Next(s, e).u.progress| == |s.u.progress|
    ensures var p, q := s.u.progress[j], Next(s, e).u.progress[j];
            && q.totalSize == p.totalSize
            && (q.stage.Update? ==> p.stage.Update? && p.percent <= q.percent)
  {
    assert e in [e];
    if j == s.u.componentIndex && e.RequestFirmwareData? && e.accepted {
      TransferNeverDecreases(s.u.progress[j], e.length);
    }
  }

  /** Along every run, the progress of a component that is being transferred never decreases. */
  lemma {:induction false} RunTransferMonotone(s: System, events: seq<Event>, j: nat)
    requires AllSound(s.u.progress) && j < |s.u.progress| && s.u.progress[j].totalSize + 4096 < U32
    requires WithinTransferSize(events)
    ensures |RunFrom(s, events).u.progress| == |s.u.progress|
    ensures var p, q := s.u.progress[j], RunFrom(s, events).u.progress[j];
            q.stage.Update? ==> p.stage.Update? && p.percent <= q.percent
    decreases |events|
  {
    if events != [] {
      NextTransferMonotone(s, events[0], j);
      NextKeepsSound(s, events[0]);
      RunTransferMonotone(Next(s, events[0]), events[1..], j);
    }
  }

  // ----- the class

  /** DeviceUpdater as the code has it: each handler changes the fields in place. */
  class DeviceUpdater {
    const count: nat
    var componentIndex: nat
    var componentUpdateStatus: map<nat, bool>
    var pldmRequest: Deferred
    var reqFwDataTimer: Timer
    var progress: seq<Progress>
    var activationComplete: bool
    var sent: seq<Command>
    var reports: seq<bool>

    function State(): Updater
      reads this
    {
      Updater(count, componentIndex, componentUpdateStatus, pldmRequest, reqFwDataTimer, progress,
              activationComplete, sent, reports)
    }

    constructor (sizes: seq<nat>)
      ensures State() == New(sizes)
    {
      count := |sizes|;
      componentIndex, componentUpdateStatus, activationComplete := 0, map[], false;
      pldmRequest, reqFwDataTimer, sent, reports := NoRequest, NoTimer, [], [];
      progress := [];
      new;
      for i := 0 to |sizes|
        invariant progress == seq(i, k requires 0 <= k < i => Fresh(sizes[k]))
        invariant State() == New(sizes).(progress := progress)
      {
        progress := progress + [Fresh(sizes[i])];
      }
    }

    /** The loops over componentUpdateStatus that look for an updated component. */
    method HasUpdated() returns (found: bool)
      ensures found <==> AnyUpdated(componentUpdateStatus)
    {
      var keys := componentUpdateStatus.Keys;
      while keys != {}
        invariant keys <= componentUpdateStatus.Keys
        invariant forall j | j in componentUpdateStatus && componentUpdateStatus[j] :: j in keys
        decreases |keys|
      {
        var j :| j in keys;
        if componentUpdateStatus[j] {
          return true;
        }
        keys := keys - {j};
      }
      found := false;
    }

    method DeferredSource()
      modifies this
      ensures State() == OnDeferred(old(State()))
    {
      match pldmRequest {
        case NoRequest =>
        case Deferred(c) =>
          pldmRequest := NoRequest;
          sent := sent + [c];
      }
    }

    method HandleRequestUpdate(ok: bool)
      modifies this
      ensures State() == OnRequestUpdate(old(State()), ok)
    {
      if !ok {
        reports := reports + [false];
        return;
      }
      pldmRequest := Deferred(PassComponentTable(componentIndex));
    }

    method PassCompTable(ok: bool)
      modifies this
      ensures State() == OnPassCompTable(old(State()), ok)
    {
      if !ok {
        reports := reports + [false];
        return;
      }
      if componentIndex + 1 == count {
        componentIndex := 0;
        pldmRequest := Deferred(UpdateComponent(componentIndex));
      } else {
        componentIndex := componentIndex + 1;
        pldmRequest := Deferred(PassComponentTable(componentIndex));
      }
    }

    method HandleUpdateComponent(r: Compatibility)
      modifies this
      ensures State() == OnUpdateComponent(old(State()), r)
    {
      if r.NoAnswer? || count == 0 || r.UnknownCompatibility? {
        reports := reports + [false];
        return;
      }
      if r.CannotBeUpdated? {
        componentUpdateStatus := componentUpdateStatus[componentIndex := false];
        if componentIndex + 1 == count {
          var found := HasUpdated();
          if found {
            componentIndex := 0;
            pldmRequest := Deferred(ActivateFirmware);
            return;
          }
          reports := reports + [false];
        } else {
          componentIndex := componentIndex + 1;
          pldmRequest := Deferred(UpdateComponent(componentIndex));
        }
        return;
      }
      componentUpdateStatus := componentUpdateStatus[componentIndex := true];
      reqFwDataTimer := Created;
    }

    method SendCancelUpdateComponentRequest()
      modifies `pldmRequest, `sent
      ensures State() == SendCancel(old(State()))
    {
      pldmRequest := NoRequest;
      sent := sent + [CancelUpdateComponent];
    }

    method RequestFwDataTimeout()
      modifies this
      ensures State() == OnTimeout(old(State()))
    {
      reqFwDataTimer := Created;
      componentUpdateStatus := componentUpdateStatus[componentIndex := false];
      SendCancelUpdateComponentRequest();
      reports := reports + [false];
    }

    method RequestFwData(accepted: bool, length: nat)
      modifies this
      ensures State() == OnRequestFwData(old(State()), accepted, length)
    {
      if !accepted {
        return;
      }
      if componentIndex < |progress| {
        progress := progress[componentIndex := ReportFwUpdate(progress[componentIndex], length)];
      }
      if reqFwDataTimer.NoTimer? {
        reqFwDataTimer := Created;
      }
      reqFwDataTimer := Counting;
    }

    method HandleTransferComplete(r: Result)
      modifies this
      ensures State() == OnTransferComplete(old(State()), r)
    {
      reqFwDataTimer := NoTimer;
      if r.FailedPhase? {
        reports := reports + [false];
        componentUpdateStatus := componentUpdateStatus[componentIndex := false];
        SendCancelUpdateComponentRequest();
      }
    }

    method HandleVerifyComplete(r: Result)
      modifies this
      ensures State() == OnVerifyComplete(old(State()), r)
    {
      if r.Undecodable? {
        return;
      }
      if componentIndex < |progress| {
        progress := progress[componentIndex := UpdateState(progress[componentIndex], Verify)];
      }
      if r.FailedPhase? {
        reports := reports + [false];
        componentUpdateStatus := componentUpdateStatus[componentIndex := false];
        SendCancelUpdateComponentRequest();
      }
    }

    method HandleApplyComplete(r: Result)
      modifies this
      ensures State() == OnApplyComplete(old(State()), r)
    {
      if r.Undecodable? {
        return;
      }
      if r.Succeeded? {
        if componentIndex < |progress| {
          progress := progress[componentIndex := UpdateState(progress[componentIndex], Apply)];
        }
        if componentIndex + 1 == count {
          componentIndex := 0;
          componentUpdateStatus := map[];
          componentUpdateStatus := componentUpdateStatus[componentIndex := true];
          pldmRequest := Deferred(ActivateFirmware);
        } else {
          componentIndex := componentIndex + 1;
          componentUpdateStatus := componentUpdateStatus[componentIndex := true];
          pldmRequest := Deferred(UpdateComponent(componentIndex));
        }
      } else {
        reports := reports + [false];
        componentUpdateStatus := componentUpdateStatus[componentIndex := false];
        SendCancelUpdateComponentRequest();
      }
    }

    method HandleActivateFirmware(ok: bool)
      modifies this
      ensures State() == OnActivateFirmware(old(State()), ok)
    {
      if !ok {
        reports := reports + [false];
        return;
      }
      activationComplete := true;
      reports := reports + [true];
    }

    method HandleCancelUpdateComponent(ok: bool)
      modifies this
      ensures State() == OnCancelUpdateComponent(old(State()), ok)
    {
      if !ok {
        return;
      }
      if componentIndex + 1 == count {
        var found := HasUpdated();
        if found {
          componentIndex := 0;
          componentUpdateStatus := map[];
          pldmRequest := Deferred(ActivateFirmware);
          return;
        }
        reports := reports + [false];
      } else {
        componentIndex := componentIndex + 1;
        componentUpdateStatus := componentUpdateStatus[componentIndex := true];
        pldmRequest := Deferred(UpdateComponent(componentIndex));
      }
    }
  }
}
