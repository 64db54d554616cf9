/**
 Progress of a firmware update: UpdateProgress and DeviceUpdater::getProgress of fw-update/device_updater.cpp. The
 quotients are far below 2^46, so that std::floor of the double division is integer division.
 */
module UpdateProgress {
  import opened Bytes

  const XFER_PERCENT: nat := 97
  const VERIFY_PERCENT: nat := 98
  const APPLY_PERCENT: nat := 99
  const ACTIVATION_PERCENT: nat := 100

  datatype Stage = Update | Verify | Apply

  /** One UpdateProgress object; totalSize and totalUpdated are uint32_t. */
  datatype Progress = Progress(percent: nat, totalSize: nat, totalUpdated: nat, stage: Stage)

  function Fresh(totalSize: nat): Progress {
    Progress(0, totalSize, 0, Update)
  }

  function UpdateState(p: Progress, stage: Stage): Progress {
    match stage
    case Update => p.(stage := Update)
    case Verify => p.(stage := Verify, percent := VERIFY_PERCENT)
    case Apply => p.(stage := Apply, percent := APPLY_PERCENT)
  }

  /** The guards of reportFwUpdate, with its uint32_t addition. */
  predicate Counted(p: Progress, amount: nat) {
    p.stage.Update? && amount <= p.totalSize && Add32(amount, p.totalUpdated) <= p.totalSize && p.totalSize != 0
  }

  function ReportFwUpdate(p: Progress, amount: nat): Progress {
    if !Counted(p, amount) then p
    else
      var total := Add32(p.totalUpdated, amount);
      p.(totalUpdated := total, percent := XFER_PERCENT * total / p.totalSize)
  }

  /** What every sequence of reports and state changes keeps. */
  predicate Sound(p: Progress) {
    && p.totalUpdated <= p.totalSize < U32
    && p.percent <= APPLY_PERCENT
    && (p.stage.Verify? ==> p.percent == 98) && (p.stage.Apply? ==> p.percent == 99)
    && (p.stage.Update? ==>
          p.percent == if p.totalSize == 0 then 0 else XFER_PERCENT * p.totalUpdated / p.totalSize)
  }

  lemma {:induction false} DivBetween(lo: nat, x: nat, hi: nat, d: nat)
    requires d > 0 && lo * d <= x <= hi * d
    ensures lo <= x / d <= hi
  {
    var q := x / d;
    assert q * d <= x < q * d + d;
    if q < lo {
      MulMono(q + 1, lo, d);
    }
    if q > hi {
      MulMono(hi + 1, q, d);
    }
  }

  lemma {:induction false} DivMono(a: nat, b: nat, d: nat)
    requires a <= b && d > 0
    ensures a / d <= b / d
  {
    var q, r := a / d, b / d;
    assert q * d <= a && b < r * d + d;
    if q > r {
      MulMono(r + 1, q, d);
    }
  }

  /** Transfer gives at most 97 percent. */
  lemma {:induction false} TransferAtMost97(p: Progress)
    requires Sound(p) && p.stage.Update?
    ensures p.percent <= XFER_PERCENT
  {
    if p.totalSize > 0 {
      DivBetween(0, XFER_PERCENT * p.totalUpdated, XFER_PERCENT, p.totalSize);
    }
  }

  lemma {:induction false} ReportKeepsSound(p: Progress, amount: nat)
    requires Sound(p)
    ensures Sound(ReportFwUpdate(p, amount))
  {
    var q := ReportFwUpdate(p, amount);
    if Counted(p, amount) {
      DivBetween(0, XFER_PERCENT * q.totalUpdated, XFER_PERCENT, q.totalSize);
    }
  }

  /**
   The uint32_t addition lets the transferred total fall, and exactly when a counted amount wraps around. The
   transfer-length limit of 4096 rules that out for components of up to 2^32 - 1 - 4096 bytes.
   */
  lemma {:induction false} TotalFallsIffWrap(p: Progress, amount: nat)
    requires Sound(p) && amount < U32
    ensures ReportFwUpdate(p, amount).totalUpdated < p.totalUpdated
       <==> Counted(p, amount) && amount + p.totalUpdated >= U32
  {
  }

  lemma {:induction false} TransferNeverDecreases(p: Progress, amount: nat)
    requires Sound(p) && amount <= 4096 && p.totalSize + 4096 < U32
    ensures p.percent <= ReportFwUpdate(p, amount).percent
    ensures p.totalUpdated <= ReportFwUpdate(p, amount).totalUpdated
  {
    var q := ReportFwUpdate(p, amount);
    if Counted(p, amount) {
      DivMono(XFER_PERCENT * p.totalUpdated, XFER_PERCENT * q.totalUpdated, p.totalSize);
    }
  }

  // ----- the progress of a device

  function TotalSize(ps: seq<Progress>): nat {
    if ps == [] then 0 else TotalSize(ps[..|ps| - 1]) + ps[|ps| - 1].totalSize
  }

  function Weighted(ps: seq<Progress>): nat {
    if ps == [] then 0 else Weighted(ps[..|ps| - 1]) + ps[|ps| - 1].totalSize * ps[|ps| - 1].percent
  }

  function DeviceProgress(ps: seq<Progress>, activationComplete: bool): nat {
    if ps == [] then 0
    else if activationComplete then ACTIVATION_PERCENT
    else if TotalSize(ps) == 0 then 0
    else Weighted(ps) / TotalSize(ps)
  }

  /** getProgress: a summing loop over the components. */
  method GetProgress(ps: seq<Progress>, activationComplete: bool) returns (percent: nat)
    ensures percent == DeviceProgress(ps, activationComplete)
  {
    if |ps| == 0 {
      return 0;
    }
    if activationComplete {
      return ACTIVATION_PERCENT;
    }
    var totalSize, weightedProgress := 0, 0;
    for i := 0 to |ps|
      invariant totalSize == TotalSize(ps[..i]) && weightedProgress == Weighted(ps[..i])
    {
      assert ps[..i + 1][..i] == ps[..i];
      totalSize := totalSize + ps[i].totalSize;
      weightedProgress := weightedProgress + ps[i].totalSize * ps[i].percent;
    }
    assert ps[..|ps|] == ps;
    if totalSize == 0 {
      return 0;
    }
    percent := weightedProgress / totalSize;
  }

  lemma {:induction false} Distribute(k: int, a: int, b: int)
    ensures k * (a + b) == k * a + k * b
  {
  }

  lemma {:induction false} WeightedBetween(ps: seq<Progress>, lo: nat, hi: nat)
    requires forall p | p in ps :: lo <= p.percent <= hi
    ensures lo * TotalSize(ps) <= Weighted(ps) <= hi * TotalSize(ps)
    decreases |ps|
  {
    if ps != [] {
      var last := ps[|ps| - 1];
      WeightedBetween(ps[..|ps| - 1], lo, hi);
      assert last in ps;
      MulMono(lo, last.percent, last.totalSize);
      MulMono(last.percent, hi, last.totalSize);
      Distribute(lo, TotalSize(ps[..|ps| - 1]), last.totalSize);
      Distribute(hi, TotalSize(ps[..|ps| - 1]), last.totalSize);
    }
  }

  /** Before activation, the device's progress lies between its least and its greatest component progress. */
  lemma {:induction false} DeviceBetweenComponents(ps: seq<Progress>, lo: nat, hi: nat)
    requires ps != [] && TotalSize(ps) > 0
    requires forall p | p in ps :: lo <= p.percent <= hi
    ensures lo <= DeviceProgress(ps, false) <= hi
  {
    WeightedBetween(ps, lo, hi);
    DivBetween(lo, Weighted(ps), hi, TotalSize(ps));
  }

  predicate AllSound(ps: seq<Progress>) {
    forall p | p in ps :: Sound(p)
  }

  /** The device is at 100 percent exactly when its activation has completed. */
  lemma {:induction false} HundredIffActivated(ps: seq<Progress>, activationComplete: bool)
    requires ps != [] && AllSound(ps)
    ensures DeviceProgress(ps, activationComplete) <= ACTIVATION_PERCENT
    ensures DeviceProgress(ps, activationComplete) == ACTIVATION_PERCENT <==> activationComplete
  {
    if !activationComplete && TotalSize(ps) > 0 {
      DeviceBetweenComponents(ps, 0, APPLY_PERCENT);
    }
  }

  // ----- the mean, spelled out

  /** The partial sums of the component sizes. */
  ghost predicate SizesAddUp(ps: seq<Progress>, sums: seq<nat>) {
    && |sums| == |ps| + 1 && sums[0] == 0
    && forall k | 0 <= k < |ps| :: sums[k + 1] == sums[k] + ps[k].totalSize
  }

  /** The partial sums of the sizes, each times the progress of its component. */
  ghost predicate WeightsAddUp(ps: seq<Progress>, sums: seq<nat>) {
    && |sums| == |ps| + 1 && sums[0] == 0
    && forall k | 0 <= k < |ps| :: sums[k + 1] == sums[k] + ps[k].totalSize * ps[k].percent
  }

  lemma {:induction false} SumsAre(ps: seq<Progress>, sizes: seq<nat>, weights: seq<nat>, n: nat)
    requires SizesAddUp(ps, sizes) && WeightsAddUp(ps, weights) && n <= |ps|
    ensures sizes[n] == TotalSize(ps[..n]) && weights[n] == Weighted(ps[..n])
  {
    if n > 0 {
      SumsAre(ps, sizes, weights, n - 1);
      assert ps[..n][..n - 1] == ps[..n - 1];
    }
  }

  lemma {:induction false} SumsExist(ps: seq<Progress>) returns (sizes: seq<nat>, weights: seq<nat>)
    ensures SizesAddUp(ps, sizes) && WeightsAddUp(ps, weights)
    decreases |ps|
  {
    if ps == [] {
      sizes, weights := [0], [0];
    } else {
      var n := |ps| - 1;
      sizes, weights := SumsExist(ps[..n]);
      assert forall k | 0 <= k < n :: ps[..n][k] == ps[k];
      sizes := sizes + [sizes[n] + ps[n].totalSize];
      weights := weights + [weights[n] + ps[n].totalSize * ps[n].percent];
    }
  }

  /**
   The progress of a device is 100 after its activation and before that the mean of its components, weighted by
   size and rounded down; 0 if they have no bytes.
   */
  lemma {:induction false} DeviceProgressIsMean(
    ps: seq<Progress>, activationComplete: bool, sizes: seq<nat>, weights: seq<nat>)
    requires ps != [] && SizesAddUp(ps, sizes) && WeightsAddUp(ps, weights)
    ensures var mean, total, weight := DeviceProgress(ps, activationComplete), sizes[|ps|], weights[|ps|];
            if activationComplete then mean == 100
            else if total == 0 then mean == 0
            else mean * total <= weight < mean * total + total
  {
    SumsAre(ps, sizes, weights, |ps|);
    assert ps[..|ps|] == ps;
  }
}
