/**
 The progress of a transfer together with the range checks of requestFwData (fw-update/device_updater.cpp): which
 requests are counted, and when the progress can fall.
 */
module TransferProgress {
  import opened Bytes
  import opened PackageParser
  import opened FirmwareData
  import opened UpdateProgress
  import opened DeviceUpdater

  // ----- the progress after a transfer

  /** reportFwUpdate for each of the requests in turn. */
  function After(p: Progress, lengths: seq<nat>): Progress {
    if lengths == [] then p else ReportFwUpdate(After(p, lengths[..|lengths| - 1]), lengths[|lengths| - 1])
  }

  /** Back-to-back requests within the image are counted byte for byte. */
  lemma {:induction false} InOrderIsCounted(package: seq<Byte>, c: Component, lengths: seq<nat>)
    requires Placed(package, c) && BackToBack(package, c, lengths) && Sum(lengths) <= c.size
    ensures var p := After(Fresh(c.size), lengths);
            && p.stage.Update? && p.totalSize == c.size && p.totalUpdated == Sum(lengths)
            && Sound(p)
    decreases |lengths|
  {
    if lengths != [] {
      var before, last := lengths[..|lengths| - 1], lengths[|lengths| - 1];
      InOrderIsCounted(package, c, before);
      ReportKeepsSound(After(Fresh(c.size), before), last);
    }
  }

  lemma {:induction false} OneMoreRequest(package: seq<Byte>, c: Component, before: seq<nat>, last: nat)
    requires Placed(package, c) && BackToBack(package, c, before)
    requires LengthOk(last) && Sum(before) + last <= c.size
    ensures BackToBack(package, c, before + [last]) && Sum(before + [last]) == Sum(before) + last
  {
    assert (before + [last])[..|before|] == before;
    ServedIff(package, c, Sum(before), last);
  }

  /** Any number of bytes from 32 up to the image's size can be fetched by accepted requests. */
  lemma {:induction false} CanFetch(package: seq<Byte>, c: Component, n: nat) returns (lengths: seq<nat>)
    requires Placed(package, c) && BASELINE_TRANSFER_SIZE <= n <= c.size
    ensures BackToBack(package, c, lengths) && Sum(lengths) == n
    decreases n
  {
    if n <= MAXIMUM_TRANSFER_SIZE {
      OneMoreRequest(package, c, [], n);
      lengths := [] + [n];
    } else {
      var last := if n - MAXIMUM_TRANSFER_SIZE >= BASELINE_TRANSFER_SIZE then MAXIMUM_TRANSFER_SIZE else 64;
      var before := CanFetch(package, c, n - last);
      OneMoreRequest(package, c, before, last);
      lengths := before + [last];
    }
  }

  // ----- when it falls

  /** After fetching part of the image in order, one more request, answered and not wrapping, lowers the progress. */
  ghost predicate Falls(package: seq<Byte>, c: Component, lengths: seq<nat>, offset: nat, length: nat) {
    && Placed(package, c) && BackToBack(package, c, lengths) && Sum(lengths) <= c.size
    && offset + length < U32 && Served(package, c, offset, length).Data?
    && ReportFwUpdate(After(Fresh(c.size), lengths), length).percent < After(Fresh(c.size), lengths).percent
  }

  /**
   For an image within 4096 bytes of the largest size, asking again for its beginning once all of it was transferred
   throws the progress from 97 percent back to zero: the transferred total wraps around.
   */
  lemma {:induction false} WrapLosesProgress(package: seq<Byte>, c: Component, lengths: seq<nat>)
    requires Placed(package, c) && c.size + MAXIMUM_TRANSFER_SIZE >= U32
    requires BackToBack(package, c, lengths) && Sum(lengths) == c.size
    ensures var p := After(Fresh(c.size), lengths);
            p.percent == XFER_PERCENT && ReportFwUpdate(p, U32 - c.size).percent == 0
    ensures Falls(package, c, lengths, 0, U32 - c.size)
  {
    InOrderIsCounted(package, c, lengths);
    DivBetween(XFER_PERCENT, XFER_PERCENT * c.size, XFER_PERCENT, c.size);
    DivBetween(0, 0, 0, c.size);
  }

  /** An in-order transfer followed by one more accepted request can lose progress exactly for such sizes. */
  lemma {:induction false} ProgressFallsIff(package: seq<Byte>, c: Component)
    requires Placed(package, c)
    ensures (exists lengths, offset, length :: Falls(package, c, lengths, offset, length))
       <==> c.size + MAXIMUM_TRANSFER_SIZE >= U32
  {
    if c.size + MAXIMUM_TRANSFER_SIZE >= U32 {
      var lengths := CanFetch(package, c, c.size);
      WrapLosesProgress(package, c, lengths);
    } else {
      forall lengths, offset, length ensures !Falls(package, c, lengths, offset, length) {
        NeverFalls(package, c, lengths, offset, length);
      }
    }
  }

  lemma {:induction false} NeverFalls(package: seq<Byte>, c: Component, lengths: seq<nat>, offset: nat, length: nat)
    requires Placed(package, c) && c.size + MAXIMUM_TRANSFER_SIZE < U32
    ensures !Falls(package, c, lengths, offset, length)
  {
    if BackToBack(package, c, lengths) && Sum(lengths) <= c.size && length <= MAXIMUM_TRANSFER_SIZE {
      InOrderIsCounted(package, c, lengths);
      TransferNeverDecreases(After(Fresh(c.size), lengths), length);
    }
  }

  // ----- runs in which the requests are answered from a package

  /** A request is accepted exactly when requestFwData serves it, for the component being updated. */
  ghost predicate Answered(package: seq<Byte>, comps: seq<Component>, s: System, e: Event) {
    e.RequestFirmwareData? ==>
      && s.u.componentIndex < |comps| && e.length < U32
      && exists offset: nat :: AcceptedAsServed(package, comps[s.u.componentIndex], offset, e.length, e.accepted)
  }

  predicate AcceptedAsServed(package: seq<Byte>, c: Component, offset: nat, length: nat, accepted: bool) {
    && c.size < U32 && c.offset < U32 && offset < U32 && length < U32
    && accepted == Served(package, c, offset, length).Data?
  }

  ghost predicate AnsweredRun(package: seq<Byte>, comps: seq<Component>, s: System, events: seq<Event>)
    decreases |events|
  {
    events == [] || (Answered(package, comps, s, events[0]) && AnsweredRun(package, comps, Next(s, events[0]), events[1..]))
  }

  lemma {:induction false} AnsweredIsWithin(package: seq<Byte>, comps: seq<Component>, s: System, events: seq<Event>)
    requires AnsweredRun(package, comps, s, events)
    ensures WithinTransferSize(events)
    decreases |events|
  {
    if events != [] {
      AnsweredIsWithin(package, comps, Next(s, events[0]), events[1..]);
      forall e | e in events && e.RequestFirmwareData? && e.accepted ensures e.length <= 4096 {
        assert e == events[0] || e in events[1..];
      }
    }
  }

  /** So in every run whose requests are answered from a package, transfer progress never decreases. */
  lemma {:induction false} AnsweredRunMonotone(
    package: seq<Byte>, comps: seq<Component>, s: System, events: seq<Event>, j: nat)
    requires AllSound(s.u.progress) && j < |s.u.progress| && s.u.progress[j].totalSize + MAXIMUM_TRANSFER_SIZE < U32
    requires AnsweredRun(package, comps, s, events)
    ensures |RunFrom(s, events).u.progress| == |s.u.progress|
    ensures var p, q := s.u.progress[j], RunFrom(s, events).u.progress[j];
            q.stage.Update? ==> p.stage.Update? && p.percent <= q.percent
  {
    AnsweredIsWithin(package, comps, s, events);
    RunTransferMonotone(s, events, j);
  }
}
