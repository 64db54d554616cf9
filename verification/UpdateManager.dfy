/**
 The manager that merges the verdicts and the progress of the devices being updated: updateDeviceCompletion and
 updateActivationProgress of fw-update/update_manager.cpp, and its runs together with any number of devices.
 */
module UpdateManager {
  import opened Bytes
  import opened UpdateProgress
  import opened D = DeviceUpdater

  // ----- verdicts

  datatype Activation = Activating | Active | Failed

  /** deviceUpdateCompletionMap and the Activation property. */
  datatype Merge = Merge(completion: map<nat, bool>, activation: Activation)

  datatype Verdict = Verdict(eid: nat, ok: bool)

  predicate AllSucceeded(completion: map<nat, bool>) {
    forall eid | eid in completion :: completion[eid]
  }

  /** emplace: the first verdict of a device stays. */
  function Record(completion: map<nat, bool>, v: Verdict): map<nat, bool> {
    if v.eid in completion then completion else completion[v.eid := v.ok]
  }

  /** updateDeviceCompletion, for `count` devices. */
  function Complete(count: nat, m: Merge, v: Verdict): Merge {
    var completion := Record(m.completion, v);
    if |completion| != count then m.(completion := completion)
    else Merge(completion, if AllSucceeded(completion) then Active else Failed)
  }

  function CompleteAll(count: nat, m: Merge, vs: seq<Verdict>): Merge
    decreases |vs|
  {
    if vs == [] then m else CompleteAll(count, Complete(count, m, vs[0]), vs[1..])
  }

  const Started := Merge(map[], Activating)

  /** What the merge of any verdicts looks like: undecided until all devices are in, then decided by all of them. */
  ghost predicate Decided(devices: set<nat>, m: Merge) {
    && m.completion.Keys <= devices
    && (m.activation == Activating <==> m.completion.Keys != devices)
    && (m.activation == Active <==> m.completion.Keys == devices && AllSucceeded(m.completion))
  }

  lemma {:induction false} SubsetOfSameSize(a: set<nat>, b: set<nat>)
    requires a <= b
    ensures a == b <==> |a| == |b|
  {
    if a != b {
      assert |b| == |a| + |b - a| by { assert b == a + (b - a); }
      assert b - a != {};
    }
  }

  lemma {:induction false} CompleteDecides(devices: set<nat>, m: Merge, v: Verdict)
    requires Decided(devices, m) && v.eid in devices
    ensures Decided(devices, Complete(|devices|, m, v))
  {
    var completion := Record(m.completion, v);
    SubsetOfSameSize(completion.Keys, devices);
    assert |completion| == |completion.Keys|;
    if completion.Keys != devices {
      assert m.completion.Keys != devices;
    }
  }

  /** `ok` is the verdict of the first report of the device. */
  ghost predicate FirstIs(vs: seq<Verdict>, eid: nat, ok: bool) {
    exists i :: 0 <= i < |vs| && vs[i] == Verdict(eid, ok) && forall k | 0 <= k < i :: vs[k].eid != eid
  }

  ghost predicate Reported(vs: seq<Verdict>, eid: nat) {
    exists i :: 0 <= i < |vs| && vs[i].eid == eid
  }

  lemma {:induction false} CompletionAfter(count: nat, m: Merge, vs: seq<Verdict>, eid: nat)
    ensures var c := CompleteAll(count, m, vs).completion;
            && (eid in m.completion ==> eid in c && c[eid] == m.completion[eid])
            && (eid in c <==> eid in m.completion || Reported(vs, eid))
            && (eid in c && eid !in m.completion ==> FirstIs(vs, eid, c[eid]))
    decreases |vs|
  {
    if vs != [] {
      var next, rest := Complete(count, m, vs[0]), vs[1..];
      CompletionAfter(count, next, rest, eid);
      if Reported(vs, eid) && vs[0].eid != eid {
        var i :| 0 <= i < |vs| && vs[i].eid == eid;
        assert rest[i - 1].eid == eid;
      }
      var c := CompleteAll(count, next, rest).completion;
      if eid in c && eid !in m.completion {
        FirstOfTail(vs, eid, c[eid]);
      }
    }
  }

  lemma {:induction false} FirstOfTail(vs: seq<Verdict>, eid: nat, ok: bool)
    requires vs != []
    ensures vs[0].eid != eid && FirstIs(vs[1..], eid, ok) ==> FirstIs(vs, eid, ok)
    ensures vs[0] == Verdict(eid, ok) ==> FirstIs(vs, eid, ok)
  {
    var rest := vs[1..];
    if vs[0].eid != eid && FirstIs(rest, eid, ok) {
      var i :| 0 <= i < |rest| && rest[i] == Verdict(eid, ok) && forall k | 0 <= k < i :: rest[k].eid != eid;
      assert vs[i + 1] == Verdict(eid, ok);
      forall k | 0 <= k < i + 1 ensures vs[k].eid != eid {
        assert k == 0 || vs[k] == rest[k - 1];
      }
    }
  }

  lemma {:induction false} CompleteAllDecides(devices: set<nat>, m: Merge, vs: seq<Verdict>)
    requires Decided(devices, m) && forall v | v in vs :: v.eid in devices
    ensures Decided(devices, CompleteAll(|devices|, m, vs))
    decreases |vs|
  {
    if vs != [] {
      CompleteDecides(devices, m, vs[0]);
      CompleteAllDecides(devices, Complete(|devices|, m, vs[0]), vs[1..]);
    }
  }

  /**
   Over any sequence of verdicts of the devices being updated, activation leaves Activating once every device has
   reported, and then is Active exactly when the first verdict of each was success.
   */
  lemma {:induction false} OutcomeOfVerdicts(devices: set<nat>, vs: seq<Verdict>)
    requires devices != {} && forall v | v in vs :: v.eid in devices
    ensures var a := CompleteAll(|devices|, Started, vs).activation;
            && (a != Activating <==> forall eid | eid in devices :: Reported(vs, eid))
            && (a == Active <==> forall eid | eid in devices :: FirstIs(vs, eid, true))
            && (a == Failed ==> exists eid | eid in devices :: FirstIs(vs, eid, false))
  {
    var m := CompleteAll(|devices|, Started, vs);
    CompleteAllDecides(devices, Started, vs);
    forall eid
      ensures eid in m.completion <==> Reported(vs, eid)
      ensures eid in m.completion ==> FirstIs(vs, eid, m.completion[eid])
      ensures FirstIs(vs, eid, true) ==> eid in m.completion && m.completion[eid]
    {
      CompletionAfter(|devices|, Started, vs, eid);
    }
    assert m.completion.Keys == devices <==> forall eid | eid in devices :: eid in m.completion;
  }

  /** Once every device has reported, further reports change nothing. */
  lemma {:induction false} FurtherVerdictsChangeNothing(devices: set<nat>, m: Merge, vs: seq<Verdict>)
    requires Decided(devices, m) && m.completion.Keys == devices && forall v | v in vs :: v.eid in devices
    ensures CompleteAll(|devices|, m, vs) == m
    decreases |vs|
  {
    if vs != [] {
      assert vs[0].eid in devices;
      FurtherVerdictsChangeNothing(devices, Complete(|devices|, m, vs[0]), vs[1..]);
    }
  }

  // ----- progress

  ghost predicate IsLeast(s: set<nat>, x: nat) {
    x in s && forall y | y in s :: x <= y
  }

  lemma {:induction false} LeastExists(s: set<nat>)
    requires s != {}
    ensures exists x :: IsLeast(s, x)
    decreases |s|
  {
    var x :| x in s;
    if s - {x} == {} {
      assert s == {x} && IsLeast(s, x);
    } else {
      LeastExists(s - {x});
      var y :| IsLeast(s - {x}, y);
      assert IsLeast(s, if x <= y then x else y) by {
        forall z | z in s ensures (if x <= y then x else y) <= z {
          assert z == x || z in s - {x};
        }
      }
    }
  }

  ghost function Least(s: set<nat>): (x: nat)
    requires s != {}
    ensures IsLeast(s, x)
  {
    LeastExists(s);
    var x :| IsLeast(s, x);
    x
  }

  // ----- the class

  class UpdateManager {
    var deviceUpdaterMap: map<nat, DeviceUpdater>
    var deviceUpdateCompletionMap: map<nat, bool>
    var activation: Activation
    var lastProgress: nat
    /** The values given to the ActivationProgress property. */
    var published: seq<nat>

    function State(): Merge
      reads this
    {
      Merge(deviceUpdateCompletionMap, activation)
    }

    method UpdateDeviceCompletion(eid: nat, status: bool)
      modifies `deviceUpdateCompletionMap, `activation
      ensures State() == Complete(|deviceUpdaterMap|, old(State()), Verdict(eid, status))
    {
      if eid !in deviceUpdateCompletionMap {
        deviceUpdateCompletionMap := deviceUpdateCompletionMap[eid := status];
      }
      if |deviceUpdateCompletionMap| == |deviceUpdaterMap| {
        var left := deviceUpdateCompletionMap.Keys;
        while left != {}
          invariant left <= deviceUpdateCompletionMap.Keys
          invariant forall e | e in deviceUpdateCompletionMap && !deviceUpdateCompletionMap[e] :: e in left
          invariant activation == old(activation)
          decreases |left|
        {
          var e :| e in left;
          if !deviceUpdateCompletionMap[e] {
            activation := Failed;
            return;
          }
          left := left - {e};
        }
        activation := Active;
      }
    }

    ghost function PercentOf(eid: nat): nat
      requires eid in deviceUpdaterMap
      reads this, deviceUpdaterMap.Values
    {
      DeviceProgress(deviceUpdaterMap[eid].progress, deviceUpdaterMap[eid].activationComplete)
    }

    ghost predicate IsLeastPercent(x: nat)
      reads this, deviceUpdaterMap.Values
    {
      && (exists eid :: eid in deviceUpdaterMap && x == PercentOf(eid))
      && (forall eid | eid in deviceUpdaterMap :: x <= PercentOf(eid))
    }

    /** std::ranges::min_element over the devices; none when there is no device. */
    method LeastProgress() returns (found: bool, progress: nat)
      ensures found <==> deviceUpdaterMap != map[]
      ensures found ==> IsLeastPercent(progress)
    {
      var left := deviceUpdaterMap.Keys;
      found, progress := false, 0;
      while left != {}
        invariant left <= deviceUpdaterMap.Keys
        invariant found <==> left != deviceUpdaterMap.Keys
        invariant found ==> exists eid :: eid in deviceUpdaterMap && progress == PercentOf(eid)
        invariant forall eid | eid in deviceUpdaterMap && eid !in left :: progress <= PercentOf(eid)
        decreases |left|
      {
        var eid :| eid in left;
        var p := GetProgress(deviceUpdaterMap[eid].progress, deviceUpdaterMap[eid].activationComplete);
        assert p == PercentOf(eid);
        if !found || p < progress {
          progress := p;
        }
        found, left := true, left - {eid};
      }
    }

    /** The least progress of the devices is published when it differs from what was last published. */
    method UpdateActivationProgress()
      modifies `lastProgress, `published
      ensures deviceUpdaterMap == map[] ==> lastProgress == old(lastProgress) && published == old(published)
      ensures deviceUpdaterMap != map[] ==>
                && IsLeastPercent(lastProgress)
                && published == old(published) + if lastProgress != old(lastProgress) then [lastProgress] else []
    {
      var found, progress := LeastProgress();
      if !found {
        return;
      }
      if progress != lastProgress {
        published := published + [progress];
        lastProgress := progress;
      }
    }
  }

  // ----- runs of a whole update

  /** All devices with their agents, and what the manager holds and has published. */
  datatype Fleet = Fleet(devices: map<nat, System>, merge: Merge, lastProgress: nat, published: seq<nat>)

  datatype Step = Step(eid: nat, event: Event)

  predicate Allowed(f: Fleet, step: Step) {
    step.eid in f.devices && Enabled(f.devices[step.eid], step.event)
  }

  /** The handlers that call updateActivationProgress. */
  predicate Publishes(s: System, e: Event) {
    match e
    case RequestFirmwareData(accepted, _) => accepted && s.u.componentIndex < |s.u.progress|
    case VerifyComplete(r) => !r.Undecodable? && s.u.componentIndex < |s.u.progress|
    case ApplyComplete(r) => r.Succeeded? && s.u.componentIndex < |s.u.progress|
    case ActivateResponse(ok) => ok
    case _ => false
  }

  ghost function Percent(s: System): nat { DeviceProgress(s.u.progress, s.u.activationComplete) }

  ghost function PercentsOf(devices: map<nat, System>): set<nat> {
    set eid | eid in devices :: Percent(devices[eid])
  }

  /** The verdicts that a step of a device adds. */
  function NewVerdicts(eid: nat, before: seq<bool>, after: seq<bool>): seq<Verdict> {
    if |after| <= |before| then [] else [Verdict(eid, after[|before|])]
  }

  /** A device goes to `t`; its verdict, if any, is merged and the progress is published if the handler does so. */
  ghost function FleetStep(f: Fleet, eid: nat, t: System, publishes: bool): Fleet
    requires eid in f.devices
  {
    var devices := f.devices[eid := t];
    var merge := CompleteAll(|devices|, f.merge, NewVerdicts(eid, f.devices[eid].u.reports, t.u.reports));
    if !publishes then Fleet(devices, merge, f.lastProgress, f.published)
    else
      assert Percent(t) in PercentsOf(devices) by { assert devices[eid] == t; }
      var least := Least(PercentsOf(devices));
      Fleet(devices, merge, least, f.published + if least != f.lastProgress then [least] else [])
  }

  ghost function FleetNext(f: Fleet, step: Step): Fleet
    requires Allowed(f, step)
  {
    var s := f.devices[step.eid];
    FleetStep(f, step.eid, Next(s, step.event), Publishes(s, step.event))
  }

  ghost predicate IsFleetRun(f: Fleet, steps: seq<Step>)
    decreases |steps|
  {
    steps == [] || (Allowed(f, steps[0]) && IsFleetRun(FleetNext(f, steps[0]), steps[1..]))
  }

  ghost function FleetRun(f: Fleet, steps: seq<Step>): Fleet
    requires IsFleetRun(f, steps)
    decreases |steps|
  {
    if steps == [] then f else FleetRun(FleetNext(f, steps[0]), steps[1..])
  }

  /** An update that starts; lastProgress is not initialised in the code, hence any value. */
  function StartUpdate(sizes: map<nat, seq<nat>>, lastProgress: nat): Fleet {
    Fleet(map eid | eid in sizes :: Boot(sizes[eid]), Started, lastProgress, [])
  }

  // ----- one step of a device, seen by the manager

  ghost predicate AddsAtMostOne(before: seq<bool>, after: seq<bool>) {
    after == before || (|after| == |before| + 1 && after == before + [after[|before|]])
  }

  lemma {:induction false} StepReports(s: System, e: Event)
    ensures AddsAtMostOne(s.u.reports, Next(s, e).u.reports)
  {
  }

  lemma {:induction false} StepActivates(s: System, e: Event)
    ensures Next(s, e).u.activationComplete <==> s.u.activationComplete || (e.ActivateResponse? && e.ok)
    ensures Next(s, e).applied != {} && s.applied == {} ==> e.ApplyComplete? && e.result.Succeeded?
    ensures s.applied <= Next(s, e).applied
  {
  }

  /** A device that completes its activation has applied some component. */
  lemma {:induction false} ActivatedHasApplied(s: System)
    requires D.Inv(s) && (s.u.activationComplete || s.fd == Awaiting(ActivateFirmware))
    ensures s.applied != {}
  {
  }

  // ----- the invariant of the whole update

  ghost predicate DeviceOk(s: System) {
    D.Inv(s) && AllSound(s.u.progress)
  }

  ghost predicate AllActivated(devices: map<nat, System>) {
    forall eid | eid in devices :: devices[eid].u.activationComplete
  }

  ghost predicate SomeApplied(devices: map<nat, System>) {
    exists eid :: eid in devices && devices[eid].applied != {}
  }

  /** The manager holds the first verdict of each device that has reported. */
  ghost predicate HoldsFirstVerdicts(devices: map<nat, System>, completion: map<nat, bool>) {
    forall eid | eid in devices :: HoldsFirst(devices[eid].u.reports, completion, eid)
  }

  ghost predicate HoldsFirst(reports: seq<bool>, completion: map<nat, bool>, eid: nat) {
    (eid in completion <==> reports != []) && (reports != [] ==> completion[eid] == reports[0])
  }

  ghost predicate MergeInv(f: Fleet) {
    Decided(f.devices.Keys, f.merge) && HoldsFirstVerdicts(f.devices, f.merge.completion)
  }

  ghost predicate PublishInv(f: Fleet) {
    && (ACTIVATION_PERCENT in f.published ==> AllActivated(f.devices))
    && (AllActivated(f.devices) ==> f.lastProgress == ACTIVATION_PERCENT)
    && (SomeApplied(f.devices) && f.lastProgress == ACTIVATION_PERCENT ==> ACTIVATION_PERCENT in f.published)
  }

  ghost predicate FleetInv(f: Fleet) {
    && f.devices != map[]
    && (forall eid | eid in f.devices :: DeviceOk(f.devices[eid]))
    && MergeInv(f) && PublishInv(f)
  }

  /** A first verdict is recorded and a later one is not, so that the manager still holds the first ones. */
  lemma {:induction false} RecordKeepsFirst(
    devices: map<nat, System>, completion: map<nat, bool>, eid: nat, t: System, ok: bool)
    requires HoldsFirstVerdicts(devices, completion) && eid in devices
    requires t.u.reports == devices[eid].u.reports + [ok]
    ensures HoldsFirstVerdicts(devices[eid := t], Record(completion, Verdict(eid, ok)))
  {
    var after := Record(completion, Verdict(eid, ok));
    var next := devices[eid := t];
    forall e | e in next ensures HoldsFirst(next[e].u.reports, after, e) {
      assert HoldsFirst(devices[e].u.reports, completion, e);
    }
  }

  lemma {:induction false} SameReportsKeepFirst(
    devices: map<nat, System>, completion: map<nat, bool>, eid: nat, t: System)
    requires HoldsFirstVerdicts(devices, completion) && eid in devices && t.u.reports == devices[eid].u.reports
    ensures HoldsFirstVerdicts(devices[eid := t], completion)
  {
    var next := devices[eid := t];
    forall e | e in next ensures HoldsFirst(next[e].u.reports, completion, e) {
      assert HoldsFirst(devices[e].u.reports, completion, e);
    }
  }

  lemma {:induction false} MergeOfNew(count: nat, m: Merge, eid: nat, before: seq<bool>, after: seq<bool>)
    requires AddsAtMostOne(before, after)
    ensures CompleteAll(count, m, NewVerdicts(eid, before, after))
         == if after == before then m else Complete(count, m, Verdict(eid, after[|before|]))
  {
    if after != before {
      var v := Verdict(eid, after[|before|]);
      assert CompleteAll(count, m, [v]) == CompleteAll(count, Complete(count, m, v), []);
    }
  }

  lemma {:induction false} MergeStays(f: Fleet, eid: nat, t: System, publishes: bool)
    requires f.devices != map[] && MergeInv(f) && eid in f.devices
    requires AddsAtMostOne(f.devices[eid].u.reports, t.u.reports)
    ensures MergeInv(FleetStep(f, eid, t, publishes))
  {
    var devices := f.devices[eid := t];
    assert devices.Keys == f.devices.Keys;
    assert |devices| == |f.devices.Keys|;
    var before, after := f.devices[eid].u.reports, t.u.reports;
    MergeOfNew(|devices|, f.merge, eid, before, after);
    if after == before {
      SameReportsKeepFirst(f.devices, f.merge.completion, eid, t);
    } else {
      var v := Verdict(eid, after[|before|]);
      CompleteDecides(f.devices.Keys, f.merge, v);
      RecordKeepsFirst(f.devices, f.merge.completion, eid, t, v.ok);
    }
  }

  /** The least progress is 100 exactly when all devices have activated. */
  lemma {:induction false} LeastIsHundred(devices: map<nat, System>, x: nat)
    requires (forall eid | eid in devices :: DeviceOk(devices[eid])) && IsLeast(PercentsOf(devices), x)
    ensures x == ACTIVATION_PERCENT <==> AllActivated(devices)
  {
    forall eid | eid in devices
      ensures Percent(devices[eid]) <= ACTIVATION_PERCENT && Percent(devices[eid]) in PercentsOf(devices)
      ensures Percent(devices[eid]) == ACTIVATION_PERCENT <==> devices[eid].u.activationComplete
    {
      HundredIffActivated(devices[eid].u.progress, devices[eid].u.activationComplete);
    }
  }

  /** A step that publishes. */
  lemma {:induction false} PublishOne(f: Fleet, g: Fleet, eid: nat, t: System)
    requires PublishInv(f) && eid in f.devices && g.devices == f.devices[eid := t]
    requires forall e | e in g.devices :: DeviceOk(g.devices[e])
    requires IsLeast(PercentsOf(g.devices), g.lastProgress)
    requires g.published == f.published + if g.lastProgress != f.lastProgress then [g.lastProgress] else []
    requires f.devices[eid].u.activationComplete ==> t.u.activationComplete
    requires t.u.activationComplete ==> f.devices[eid].applied != {}
    ensures PublishInv(g)
  {
    LeastIsHundred(g.devices, g.lastProgress);
    if AllActivated(g.devices) {
      assert g.devices[eid].u.activationComplete;
      assert SomeApplied(f.devices);
    }
    if AllActivated(f.devices) {
      assert forall e | e in g.devices :: e != eid ==> g.devices[e] == f.devices[e];
    }
  }

  /** A step that does not publish: no device activates or applies a first component. */
  lemma {:induction false} KeepOne(f: Fleet, g: Fleet, eid: nat, t: System)
    requires PublishInv(f) && eid in f.devices && g.devices == f.devices[eid := t]
    requires g.lastProgress == f.lastProgress && g.published == f.published
    requires f.devices[eid].u.activationComplete <==> t.u.activationComplete
    requires t.applied != {} ==> f.devices[eid].applied != {}
    ensures PublishInv(g)
  {
    if AllActivated(g.devices) {
      forall e | e in f.devices ensures f.devices[e].u.activationComplete {
        assert g.devices[e].u.activationComplete;
      }
    }
    if SomeApplied(g.devices) {
      var e :| e in g.devices && g.devices[e].applied != {};
      assert f.devices[e].applied != {};
    }
  }

  lemma {:induction false} SilentStep(s: System, e: Event)
    requires D.Inv(s) && Enabled(s, e) && !Publishes(s, e)
    ensures s.u.activationComplete <==> Next(s, e).u.activationComplete
    ensures Next(s, e).applied != {} ==> s.applied != {}
  {
    StepActivates(s, e);
  }

  /** What one step of a device gives the manager to go by. */
  ghost predicate GoodStep(s: System, t: System, publishes: bool) {
    && DeviceOk(t)
    && AddsAtMostOne(s.u.reports, t.u.reports)
    && (publishes ==>
          && (s.u.activationComplete ==> t.u.activationComplete)
          && (t.u.activationComplete ==> s.applied != {}))
    && (!publishes ==>
          && (s.u.activationComplete <==> t.u.activationComplete)
          && (t.applied != {} ==> s.applied != {}))
  }

  lemma {:induction false} EveryStepIsGood(s: System, e: Event)
    requires DeviceOk(s) && Enabled(s, e)
    ensures GoodStep(s, Next(s, e), Publishes(s, e))
  {
    D.NextKeepsInv(s, e);
    D.NextKeepsSound(s, e);
    StepReports(s, e);
    StepActivates(s, e);
    if Publishes(s, e) {
      if Next(s, e).u.activationComplete {
        ActivatedHasApplied(s);
      }
    } else {
      SilentStep(s, e);
    }
  }

  lemma {:induction false} PublishStays(f: Fleet, eid: nat, t: System, publishes: bool)
    requires PublishInv(f) && eid in f.devices && GoodStep(f.devices[eid], t, publishes)
    requires forall e | e in f.devices :: DeviceOk(f.devices[e])
    ensures PublishInv(FleetStep(f, eid, t, publishes))
  {
    var g := FleetStep(f, eid, t, publishes);
    if publishes {
      assert forall e | e in g.devices :: DeviceOk(g.devices[e]);
      PublishOne(f, g, eid, t);
    } else {
      KeepOne(f, g, eid, t);
    }
  }

  lemma {:induction false} DevicesStayOk(f: Fleet, eid: nat, t: System, publishes: bool)
    requires eid in f.devices && DeviceOk(t) && forall e | e in f.devices :: DeviceOk(f.devices[e])
    ensures var g := FleetStep(f, eid, t, publishes);
            g.devices.Keys == f.devices.Keys && forall e | e in g.devices :: DeviceOk(g.devices[e])
  {
    var devices := f.devices[eid := t];
    forall e | e in devices ensures DeviceOk(devices[e]) {
      assert e == eid || devices[e] == f.devices[e];
    }
  }

  lemma {:induction false} StepKeepsInv(f: Fleet, eid: nat, t: System, publishes: bool)
    requires FleetInv(f) && eid in f.devices && GoodStep(f.devices[eid], t, publishes)
    ensures FleetInv(FleetStep(f, eid, t, publishes))
    ensures FleetStep(f, eid, t, publishes).devices.Keys == f.devices.Keys
  {
    MergeStays(f, eid, t, publishes);
    PublishStays(f, eid, t, publishes);
    DevicesStayOk(f, eid, t, publishes);
  }

  lemma {:induction false} FleetNextKeepsInv(f: Fleet, step: Step)
    requires FleetInv(f) && Allowed(f, step)
    ensures FleetInv(FleetNext(f, step)) && FleetNext(f, step).devices.Keys == f.devices.Keys
  {
    var s := f.devices[step.eid];
    var t, publishes := Next(s, step.event), Publishes(s, step.event);
    assert GoodStep(s, t, publishes) by { EveryStepIsGood(s, step.event); }
    StepKeepsInv(f, step.eid, t, publishes);
    assert FleetNext(f, step) == FleetStep(f, step.eid, t, publishes);
  }

  lemma {:induction false} FleetRunKeepsInv(f: Fleet, steps: seq<Step>)
    requires FleetInv(f) && IsFleetRun(f, steps)
    ensures FleetInv(FleetRun(f, steps)) && FleetRun(f, steps).devices.Keys == f.devices.Keys
    decreases |steps|
  {
    if steps != [] {
      FleetNextKeepsInv(f, steps[0]);
      FleetRunKeepsInv(FleetNext(f, steps[0]), steps[1..]);
    }
  }

  ghost predicate Updatable(sizes: map<nat, seq<nat>>) {
    sizes != map[] && forall eid | eid in sizes :: sizes[eid] != [] && forall x | x in sizes[eid] :: x < U32
  }

  lemma {:induction false} BootOk(sizes: seq<nat>)
    requires sizes != [] && forall x | x in sizes :: x < U32
    ensures DeviceOk(Boot(sizes))
  {
    D.BootInv(sizes);
    forall p | p in Boot(sizes).u.progress ensures Sound(p) {
      var i :| 0 <= i < |sizes| && p == Fresh(sizes[i]);
      assert sizes[i] in sizes;
    }
  }

  lemma {:induction false} StartInv(sizes: map<nat, seq<nat>>, lastProgress: nat)
    requires Updatable(sizes)
    ensures FleetInv(StartUpdate(sizes, lastProgress))
  {
    var f := StartUpdate(sizes, lastProgress);
    forall eid | eid in f.devices
      ensures DeviceOk(f.devices[eid])
      ensures f.devices[eid].u.reports == [] && !f.devices[eid].u.activationComplete && f.devices[eid].applied == {}
    {
      BootOk(sizes[eid]);
    }
    var someone :| someone in sizes;
    assert someone in f.devices;
  }

  /** A device all of whose components that were tried went through, and whose activation completed. */
  predicate Clean(s: System) {
    s.u.activationComplete && s.failed == {}
  }

  /**
   The outcome of an update of any devices in any interleaving of their runs: it is undecided exactly while some
   device has not reported; it is Active exactly when every device has activated without a failed transfer, verify
   or apply and without a timeout; and 100 percent is published exactly when every device has activated.
   */
  lemma {:induction false} FleetOutcome(sizes: map<nat, seq<nat>>, lastProgress: nat, steps: seq<Step>)
    requires Updatable(sizes) && IsFleetRun(StartUpdate(sizes, lastProgress), steps)
    ensures var f := FleetRun(StartUpdate(sizes, lastProgress), steps);
            && f.devices.Keys == sizes.Keys
            && (f.merge.activation == Activating <==> exists eid :: eid in f.devices && f.devices[eid].u.reports == [])
            && (f.merge.activation == Active <==> forall eid | eid in f.devices :: Clean(f.devices[eid]))
            && (ACTIVATION_PERCENT in f.published <==> AllActivated(f.devices))
  {
    StartInv(sizes, lastProgress);
    var f0 := StartUpdate(sizes, lastProgress);
    FleetRunKeepsInv(f0, steps);
    var f := FleetRun(f0, steps);
    VerdictIsClean(f);
    ActivationIsUndecided(f);
    HundredIsPublished(f);
  }

  lemma {:induction false} HundredIsPublished(f: Fleet)
    requires FleetInv(f)
    ensures ACTIVATION_PERCENT in f.published <==> AllActivated(f.devices)
  {
    if AllActivated(f.devices) {
      var eid :| eid in f.devices;
      ActivatedHasApplied(f.devices[eid]);
      assert SomeApplied(f.devices);
    }
  }

  lemma {:induction false} ActivationIsUndecided(f: Fleet)
    requires FleetInv(f)
    ensures f.merge.activation == Activating <==> exists eid :: eid in f.devices && f.devices[eid].u.reports == []
  {
    if f.merge.activation == Activating {
      var eid :| eid in f.devices && eid !in f.merge.completion;
      assert f.devices[eid].u.reports == [];
    }
  }

  lemma {:induction false} VerdictIsClean(f: Fleet)
    requires FleetInv(f)
    ensures f.merge.activation == Active <==> forall eid | eid in f.devices :: Clean(f.devices[eid])
  {
    forall eid | eid in f.devices
      ensures Clean(f.devices[eid]) <==> eid in f.merge.completion && f.merge.completion[eid]
    {
      D.InvIsSafe(f.devices[eid]);
    }
    if forall eid | eid in f.devices :: Clean(f.devices[eid]) {
      assert f.merge.completion.Keys == f.devices.Keys;
    }
  }

  // ----- what is published is current

  ghost predicate NoRepeats(xs: seq<nat>) {
    forall i | 0 <= i < |xs| - 1 :: xs[i] != xs[i + 1]
  }

  /** Before anything is published, no device has made progress, or lastProgress happened to hold the least already. */
  ghost predicate Current(f: Fleet, initial: nat) {
    && f.devices != map[] && PercentsOf(f.devices) != {}
    && (f.published != [] ==> f.published[|f.published| - 1] == f.lastProgress)
    && (f.published == [] ==> f.lastProgress == initial)
    && (f.lastProgress == Least(PercentsOf(f.devices)) || (f.published == [] && Least(PercentsOf(f.devices)) == 0))
    && NoRepeats(f.published)
  }

  lemma {:induction false} SilentPercent(s: System, e: Event)
    requires D.Inv(s) && Enabled(s, e) && !Publishes(s, e)
    ensures Percent(Next(s, e)) == Percent(s)
  {
  }

  lemma {:induction false} SamePercents(devices: map<nat, System>, eid: nat, t: System)
    requires eid in devices && Percent(t) == Percent(devices[eid])
    ensures PercentsOf(devices[eid := t]) == PercentsOf(devices)
  {
    var next := devices[eid := t];
    forall x | x in PercentsOf(devices) ensures x in PercentsOf(next) {
      var e :| e in devices && x == Percent(devices[e]);
      assert e in next && x == Percent(next[e]);
    }
    forall x | x in PercentsOf(next) ensures x in PercentsOf(devices) {
      var e :| e in next && x == Percent(next[e]);
      assert e in devices && x == Percent(devices[e]);
    }
  }

  lemma {:induction false} SomePercent(devices: map<nat, System>)
    requires devices != map[]
    ensures PercentsOf(devices) != {}
  {
    var eid :| eid in devices;
    assert Percent(devices[eid]) in PercentsOf(devices);
  }

  lemma {:induction false} CurrentStays(f: Fleet, eid: nat, t: System, publishes: bool, initial: nat)
    requires Current(f, initial) && eid in f.devices
    requires !publishes ==> Percent(t) == Percent(f.devices[eid])
    ensures Current(FleetStep(f, eid, t, publishes), initial)
  {
    var g := FleetStep(f, eid, t, publishes);
    assert eid in g.devices;
    SomePercent(g.devices);
    if !publishes {
      SamePercents(f.devices, eid, t);
    }
  }

  lemma {:induction false} RunStaysCurrent(f: Fleet, steps: seq<Step>, initial: nat)
    requires FleetInv(f) && IsFleetRun(f, steps) && Current(f, initial)
    ensures Current(FleetRun(f, steps), initial)
    decreases |steps|
  {
    if steps != [] {
      var s, e := f.devices[steps[0].eid], steps[0].event;
      FleetNextKeepsInv(f, steps[0]);
      assert DeviceOk(s);
      if !Publishes(s, e) {
        SilentPercent(s, e);
      }
      CurrentStays(f, steps[0].eid, Next(s, e), Publishes(s, e), initial);
      RunStaysCurrent(FleetNext(f, steps[0]), steps[1..], initial);
    }
  }

  lemma {:induction false} BootPercent(sizes: seq<nat>)
    requires sizes != []
    ensures Percent(Boot(sizes)) == 0
  {
    var ps := Boot(sizes).u.progress;
    if TotalSize(ps) > 0 {
      DeviceBetweenComponents(ps, 0, 0);
    }
  }

  lemma {:induction false} StartIsCurrent(sizes: map<nat, seq<nat>>, lastProgress: nat)
    requires Updatable(sizes)
    ensures Current(StartUpdate(sizes, lastProgress), lastProgress)
  {
    var f := StartUpdate(sizes, lastProgress);
    var someone :| someone in sizes;
    assert someone in f.devices;
    SomePercent(f.devices);
    forall eid | eid in f.devices ensures Percent(f.devices[eid]) == 0 {
      BootPercent(sizes[eid]);
    }
  }

  /**
   In any interleaving, the value published last is always the least progress of the devices, no value is published
   twice in a row, and nothing is published only while no progress was made or lastProgress started as the least.
   */
  lemma {:induction false} FleetPublishes(sizes: map<nat, seq<nat>>, lastProgress: nat, steps: seq<Step>)
    requires Updatable(sizes) && IsFleetRun(StartUpdate(sizes, lastProgress), steps)
    ensures var f := FleetRun(StartUpdate(sizes, lastProgress), steps);
            && PercentsOf(f.devices) != {} && NoRepeats(f.published)
            && (f.published != [] ==> f.published[|f.published| - 1] == Least(PercentsOf(f.devices)))
            && (f.published == [] ==> Least(PercentsOf(f.devices)) == 0 || Least(PercentsOf(f.devices)) == lastProgress)
  {
    StartInv(sizes, lastProgress);
    StartIsCurrent(sizes, lastProgress);
    RunStaysCurrent(StartUpdate(sizes, lastProgress), steps, lastProgress);
  }

  // ----- each device on its own

  /** The events of one device. */
  function EventsOf(steps: seq<Step>, eid: nat): seq<Event> {
    if steps == [] then [] else (if steps[0].eid == eid then [steps[0].event] else []) + EventsOf(steps[1..], eid)
  }

  /** Whatever the others do, each device goes through a run of its own. */
  lemma {:induction false} DeviceRuns(f: Fleet, steps: seq<Step>, eid: nat)
    requires IsFleetRun(f, steps) && eid in f.devices
    ensures eid in FleetRun(f, steps).devices
    ensures IsRun(f.devices[eid], EventsOf(steps, eid))
    ensures FleetRun(f, steps).devices[eid] == RunFrom(f.devices[eid], EventsOf(steps, eid))
    decreases |steps|
  {
    if steps != [] {
      var g := FleetNext(f, steps[0]);
      assert g.devices == f.devices[steps[0].eid := Next(f.devices[steps[0].eid], steps[0].event)];
      DeviceRuns(g, steps[1..], eid);
      if steps[0].eid == eid {
        assert EventsOf(steps, eid)[1..] == EventsOf(steps[1..], eid);
      } else {
        assert EventsOf(steps, eid) == EventsOf(steps[1..], eid);
      }
    }
  }
}
