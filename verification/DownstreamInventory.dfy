/**
 The inventory of downstream devices, which arrives in parts: queryDownstreamIdentifiers of
 fw-update/inventory_manager.cpp (Table 16 of DSP0267 1.1.0).
 */
module DownstreamInventory {
  import opened Wrappers
  import opened PackageMatching

  /** One decoded downstream device: its index and its descriptors. */
  datatype Downstream = Downstream(index: nat, descriptors: seq<Descriptor>)

  datatype Flag = Start | Middle | End | StartAndEnd | UnknownFlag

  /**
   A response to QueryDownstreamIdentifiers. Of a part whose devices cannot all be decoded, `devices` are those
   before the failure.
   */
  datatype Response =
    | NoResponse
    | Undecodable
    | ErrorCode
    | Part(flag: Flag, next: nat, devices: seq<Downstream>, complete: bool)

  type Table = map<nat, seq<Descriptor>>

  type Tables = map<nat, Table>

  // ----- one response

  /** emplace: an index that is already there keeps its descriptors. */
  function Add(table: Table, d: Downstream): Table {
    if d.index in table then table else table[d.index := d.descriptors]
  }

  function AddAll(table: Table, ds: seq<Downstream>): Table {
    if ds == [] then table else Add(AddAll(table, ds[..|ds| - 1]), ds[|ds| - 1])
  }

  lemma {:induction false} AddAllNext(table: Table, ds: seq<Downstream>, i: nat)
    requires i < |ds|
    ensures AddAll(table, ds[..i + 1]) == Add(AddAll(table, ds[..i]), ds[i])
  {
    assert ds[..i + 1][..i] == ds[..i];
  }

  predicate IsStart(flag: Flag) { flag.Start? || flag.StartAndEnd? }

  /** What a response makes of the table of the endpoint it is from. */
  function Receive(table: Option<Table>, r: Response): Option<Table> {
    if !r.Part? then table
    else if IsStart(r.flag) then if r.complete then Some(AddAll(map[], r.devices)) else table
    else if table.None? then None
    else Some(AddAll(table.value, r.devices))
  }

  /** The requests that follow: for the next part, or for the firmware parameters after the last one. */
  datatype Request = NextPart(eid: nat, handle: nat) | FirmwareParameters(eid: nat)

  function Follows(eid: nat, r: Response): seq<Request> {
    if !r.Part? || !r.complete || r.flag.UnknownFlag? then []
    else if r.flag.Start? || r.flag.Middle? then [NextPart(eid, r.next)]
    else [FirmwareParameters(eid)]
  }

  function TableOf(tables: Tables, eid: nat): Option<Table> {
    if eid in tables then Some(tables[eid]) else None
  }

  class InventoryManager {
    /** The endpoints of descriptorMap. */
    var known: set<nat>
    var downstreamDescriptorMap: Tables
    var sent: seq<Request>

    method QueryDownstreamIdentifiers(eid: nat, r: Response)
      modifies this
      ensures TableOf(downstreamDescriptorMap, eid) == Receive(old(TableOf(downstreamDescriptorMap, eid)), r)
      ensures forall e | e != eid :: TableOf(downstreamDescriptorMap, e) == old(TableOf(downstreamDescriptorMap, e))
      ensures sent == old(sent) + Follows(eid, r)
      ensures known == if r.NoResponse? then old(known) - {eid} else old(known)
    {
      if r.NoResponse? {
        known := known - {eid};
        return;
      }
      if !r.Part? {
        return;
      }
      var initial: Table := map[];
      var inPlace := eid in downstreamDescriptorMap && r.flag != Start && r.flag != StartAndEnd;
      ghost var before := downstreamDescriptorMap;
      for i := 0 to |r.devices|
        invariant sent == old(sent) && known == old(known)
        invariant inPlace ==> downstreamDescriptorMap == before[eid := AddAll(before[eid], r.devices[..i])]
        invariant !inPlace ==> downstreamDescriptorMap == before && initial == AddAll(map[], r.devices[..i])
      {
        var d := r.devices[i];
        if inPlace {
          AddAllNext(before[eid], r.devices, i);
          var table: Table := downstreamDescriptorMap[eid];
          if d.index !in table {
            table := table[d.index := d.descriptors];
            downstreamDescriptorMap := downstreamDescriptorMap[eid := table];
          }
        } else {
          AddAllNext(map[], r.devices, i);
          if d.index !in initial {
            initial := initial[d.index := d.descriptors];
          }
        }
      }
      assert r.devices[..|r.devices|] == r.devices;
      if !r.complete {
        return;
      }
      match r.flag {
        case Start =>
          downstreamDescriptorMap := downstreamDescriptorMap[eid := initial];
          sent := sent + [NextPart(eid, r.next)];
        case Middle => sent := sent + [NextPart(eid, r.next)];
        case StartAndEnd =>
          downstreamDescriptorMap := downstreamDescriptorMap[eid := initial];
          sent := sent + [FirmwareParameters(eid)];
        case End => sent := sent + [FirmwareParameters(eid)];
        case UnknownFlag =>
      }
    }
  }

  // ----- responses of all endpoints, in any order

  datatype Message = Message(eid: nat, response: Response)

  /** A step of the manager, as its method's contract gives it. */
  function Step(tables: Tables, m: Message): Tables {
    match Receive(TableOf(tables, m.eid), m.response)
    case None => tables
    case Some(table) => tables[m.eid := table]
  }

  function StepAll(tables: Tables, ms: seq<Message>): Tables
    decreases |ms|
  {
    if ms == [] then tables else StepAll(Step(tables, ms[0]), ms[1..])
  }

  function ReceiveAll(table: Option<Table>, rs: seq<Response>): Option<Table>
    decreases |rs|
  {
    if rs == [] then table else ReceiveAll(Receive(table, rs[0]), rs[1..])
  }

  /** The responses of one endpoint. */
  function Own(ms: seq<Message>, eid: nat): seq<Response> {
    if ms == [] then [] else (if ms[0].eid == eid then [ms[0].response] else []) + Own(ms[1..], eid)
  }

  /** The step of the value model is the method's contract, endpoint by endpoint. */
  lemma {:induction false} StepPerEndpoint(tables: Tables, m: Message, e: nat)
    ensures TableOf(Step(tables, m), e)
         == if e == m.eid then Receive(TableOf(tables, e), m.response) else TableOf(tables, e)
  {
  }

  /** However the endpoints interleave, the table of one is what its own responses make of it. */
  lemma {:induction false} OnlyOwnResponsesCount(tables: Tables, ms: seq<Message>, eid: nat)
    ensures TableOf(StepAll(tables, ms), eid) == ReceiveAll(TableOf(tables, eid), Own(ms, eid))
    decreases |ms|
  {
    if ms != [] {
      StepPerEndpoint(tables, ms[0], eid);
      OnlyOwnResponsesCount(Step(tables, ms[0]), ms[1..], eid);
      if ms[0].eid == eid {
        assert Own(ms, eid)[1..] == Own(ms[1..], eid);
      } else {
        assert Own(ms, eid) == Own(ms[1..], eid);
      }
    }
  }

  lemma {:induction false} ReceiveAllAppend(table: Option<Table>, a: seq<Response>, b: seq<Response>)
    ensures ReceiveAll(table, a + b) == ReceiveAll(ReceiveAll(table, a), b)
    decreases |a|
  {
    if a == [] {
      assert a + b == b;
    } else {
      assert (a + b)[1..] == a[1..] + b;
      ReceiveAllAppend(Receive(table, a[0]), a[1..], b);
    }
  }

  // ----- a whole discovery

  /** START, MIDDLE*, END, or one START_AND_END; a part may still fail to decode. */
  predicate Flagged(parts: seq<Response>) {
    && parts != []
    && (forall i | 0 <= i < |parts| :: parts[i].Part?)
    && (forall i | 0 <= i < |parts| ::
          parts[i].flag == if |parts| == 1 then StartAndEnd
                           else if i == 0 then Start
                           else if i == |parts| - 1 then End
                           else Middle)
  }

  /** All of them decoded. */
  predicate IsDiscovery(parts: seq<Response>) {
    Flagged(parts) && forall i | 0 <= i < |parts| :: parts[i].complete
  }

  /** The devices of the parts, one after the other. */
  function DevicesOf(parts: seq<Response>): seq<Downstream> {
    if parts == [] then []
    else (if parts[0].Part? then parts[0].devices else []) + DevicesOf(parts[1..])
  }

  /** Parts that go on with a table: they add to it. */
  predicate Continue(parts: seq<Response>) {
    forall r | r in parts :: r.Part? && !IsStart(r.flag)
  }

  lemma {:induction false} AddAllAppend(table: Table, a: seq<Downstream>, b: seq<Downstream>)
    ensures AddAll(table, a + b) == AddAll(AddAll(table, a), b)
    decreases |b|
  {
    if b == [] {
      assert a + b == a;
    } else {
      var last := |b| - 1;
      assert (a + b)[..|a + b| - 1] == a + b[..last];
      AddAllAppend(table, a, b[..last]);
    }
  }

  lemma {:induction false} ContinueAdds(table: Table, parts: seq<Response>)
    requires Continue(parts)
    ensures ReceiveAll(Some(table), parts) == Some(AddAll(table, DevicesOf(parts)))
    decreases |parts|
  {
    if parts != [] {
      assert parts[0] in parts;
      ContinueAdds(AddAll(table, parts[0].devices), parts[1..]);
      AddAllAppend(table, parts[0].devices, DevicesOf(parts[1..]));
    }
  }

  lemma {:induction false} LaterPartsContinue(parts: seq<Response>)
    requires Flagged(parts)
    ensures Continue(parts[1..])
  {
    forall r | r in parts[1..] ensures r.Part? && !IsStart(r.flag) {
      var i :| 0 <= i < |parts[1..]| && parts[1..][i] == r;
      assert parts[i + 1] == r;
    }
  }

  /** Without a table, parts that go on with one are lost. */
  lemma {:induction false} ContinueLost(parts: seq<Response>)
    requires Continue(parts)
    ensures ReceiveAll(None, parts) == None
    decreases |parts|
  {
    if parts != [] {
      assert parts[0] in parts;
      ContinueLost(parts[1..]);
    }
  }

  /**
   What a sequence of parts makes of a table: a decoded START replaces it by the merge of all parts; otherwise the
   later parts are merged into what is there, its entries winning, or are lost if nothing is there.
   */
  lemma {:induction false} PartsMake(table: Option<Table>, parts: seq<Response>)
    requires Flagged(parts)
    ensures ReceiveAll(table, parts)
         == if parts[0].complete then Some(AddAll(map[], DevicesOf(parts)))
            else if table.None? then None
            else Some(AddAll(table.value, DevicesOf(parts[1..])))
  {
    var first, rest := parts[0], parts[1..];
    LaterPartsContinue(parts);
    if first.complete {
      ContinueAdds(AddAll(map[], first.devices), rest);
      AddAllAppend(map[], first.devices, DevicesOf(rest));
    } else if table.None? {
      ContinueLost(rest);
    } else {
      ContinueAdds(table.value, rest);
    }
  }

  lemma {:induction false} DiscoveryReplaces(table: Option<Table>, parts: seq<Response>)
    requires IsDiscovery(parts)
    ensures ReceiveAll(table, parts) == Some(AddAll(map[], DevicesOf(parts)))
  {
    PartsMake(table, parts);
  }

  /** The parts replace whatever table was there by their own merge if and only if the START was decoded. */
  lemma {:induction false} ReplacesIffStartDecoded(parts: seq<Response>)
    requires Flagged(parts)
    ensures (forall table :: ReceiveAll(table, parts) == Some(AddAll(map[], DevicesOf(parts)))) <==> parts[0].complete
  {
    forall table: Option<Table>
      ensures parts[0].complete ==> ReceiveAll(table, parts) == Some(AddAll(map[], DevicesOf(parts)))
    {
      PartsMake(table, parts);
    }
    PartsMake(None, parts);
  }

  /** With a table from an earlier discovery and an undecoded START, a stale entry wins over a new one. */
  lemma {:induction false} StaleEntryWins(stale: seq<Descriptor>, fresh0: seq<Descriptor>, fresh1: seq<Descriptor>)
    ensures var parts := [Part(Start, 5, [], false),
                          Part(End, 0, [Downstream(0, fresh0), Downstream(1, fresh1)], true)];
            Flagged(parts) && ReceiveAll(Some(map[0 := stale]), parts) == Some(map[0 := stale, 1 := fresh1])
  {
    var ds := [Downstream(0, fresh0), Downstream(1, fresh1)];
    var parts := [Part(Start, 5, [], false), Part(End, 0, ds, true)];
    PartsMake(Some(map[0 := stale]), parts);
    assert parts[1..] == [parts[1]] && DevicesOf([parts[1]]) == ds;
    assert ds[..1] == [ds[0]] && ds[..1][..0] == [];
    assert AddAll(map[0 := stale], ds[..1]) == map[0 := stale];
  }

  /** Device k is the first of its index. */
  ghost predicate FirstOfIndex(ds: seq<Downstream>, k: nat) {
    k < |ds| && forall j | 0 <= j < k :: ds[j].index != ds[k].index
  }

  /** The merge holds exactly the indexes that occur, each with the descriptors of its earliest entry. */
  ghost predicate EarliestWins(table: Table, ds: seq<Downstream>) {
    && (forall index :: index in table <==> exists k :: 0 <= k < |ds| && ds[k].index == index)
    && (forall k: nat | FirstOfIndex(ds, k) :: ds[k].index in table && table[ds[k].index] == ds[k].descriptors)
  }

  /** One more entry, where `small` holds the merge of those before it. */
  lemma {:induction false} EarliestWinsAppend(small: Table, ds: seq<Downstream>)
    requires ds != [] && EarliestWins(small, ds[..|ds| - 1])
    ensures EarliestWins(Add(small, ds[|ds| - 1]), ds)
  {
    var last := |ds| - 1;
    var before, table := ds[..last], Add(small, ds[last]);
    forall index ensures index in table <==> exists k :: 0 <= k < |ds| && ds[k].index == index {
      IndexInPrefix(ds, last, index);
    }
    forall k: nat | FirstOfIndex(ds, k)
      ensures ds[k].index in table && table[ds[k].index] == ds[k].descriptors
    {
      if k < last {
        assert FirstOfIndex(before, k);
      } else {
        IndexInPrefix(ds, last, ds[k].index);
        assert ds[k].index !in small;
      }
    }
  }

  lemma {:induction false} MergeIsEarliestWins(ds: seq<Downstream>)
    ensures EarliestWins(AddAll(map[], ds), ds)
    decreases |ds|
  {
    if ds != [] {
      MergeIsEarliestWins(ds[..|ds| - 1]);
      EarliestWinsAppend(AddAll(map[], ds[..|ds| - 1]), ds);
    }
  }

  lemma {:induction false} IndexInPrefix(ds: seq<Downstream>, last: nat, index: nat)
    requires |ds| == last + 1
    ensures (exists k :: 0 <= k < |ds| && ds[k].index == index)
       <==> (exists k :: 0 <= k < last && ds[..last][k].index == index) || ds[last].index == index
  {
    if k :| 0 <= k < |ds| && ds[k].index == index {
      assert k < last ==> ds[..last][k].index == index;
    }
  }

  /**
   After a whole discovery of an endpoint, with parts of other endpoints in between in any order and whatever came
   before, its table is the index-wise merge of its own parts, the earliest entry winning.
   */
  lemma {:induction false} DiscoveryMergesOwnParts(
    tables: Tables, ms: seq<Message>, eid: nat, before: seq<Response>, parts: seq<Response>)
    requires Own(ms, eid) == before + parts && IsDiscovery(parts)
    ensures eid in StepAll(tables, ms) && EarliestWins(StepAll(tables, ms)[eid], DevicesOf(parts))
  {
    OnlyOwnResponsesCount(tables, ms, eid);
    ReceiveAllAppend(TableOf(tables, eid), before, parts);
    DiscoveryReplaces(ReceiveAll(TableOf(tables, eid), before), parts);
    MergeIsEarliestWins(DevicesOf(parts));
  }

  /** The same over any interleaving, when the START was not decoded: own later parts go into the old table. */
  lemma {:induction false} UndecodedStartKeepsOld(
    tables: Tables, ms: seq<Message>, eid: nat, before: seq<Response>, parts: seq<Response>)
    requires Own(ms, eid) == before + parts && Flagged(parts) && !parts[0].complete
    ensures var prior := ReceiveAll(TableOf(tables, eid), before);
            TableOf(StepAll(tables, ms), eid)
            == if prior.None? then None else Some(AddAll(prior.value, DevicesOf(parts[1..])))
  {
    OnlyOwnResponsesCount(tables, ms, eid);
    ReceiveAllAppend(TableOf(tables, eid), before, parts);
    PartsMake(ReceiveAll(TableOf(tables, eid), before), parts);
  }

  /** A response that creates a table. */
  predicate Creates(r: Response) { r.Part? && IsStart(r.flag) && r.complete }

  lemma {:induction false} TableStays(table: Table, rs: seq<Response>)
    ensures ReceiveAll(Some(table), rs).Some?
    decreases |rs|
  {
    if rs != [] {
      TableStays(Receive(Some(table), rs[0]).value, rs[1..]);
    }
  }

  /** A new endpoint has a table exactly when one of its START parts was decoded: its parts before that are lost. */
  lemma {:induction false} TableIffStarted(rs: seq<Response>)
    ensures ReceiveAll(None, rs).Some? <==> exists k :: 0 <= k < |rs| && Creates(rs[k])
    decreases |rs|
  {
    if rs != [] {
      if Creates(rs[0]) {
        TableStays(Receive(None, rs[0]).value, rs[1..]);
      } else {
        TableIffStarted(rs[1..]);
        if k :| 0 <= k < |rs| && Creates(rs[k]) {
          assert rs[1..][k - 1] == rs[k];
        }
      }
    }
  }

  // ----- the requests of a discovery

  function FollowsAll(eid: nat, rs: seq<Response>): seq<Request> {
    if rs == [] then [] else Follows(eid, rs[0]) + FollowsAll(eid, rs[1..])
  }

  /** The request that follows part i of a discovery. */
  function RequestAfter(eid: nat, parts: seq<Response>, i: nat): Request
    requires IsDiscovery(parts) && i < |parts|
  {
    if i < |parts| - 1 then NextPart(eid, parts[i].next) else FirmwareParameters(eid)
  }

  lemma {:induction false} FollowsFrom(eid: nat, parts: seq<Response>, n: nat)
    requires IsDiscovery(parts) && n <= |parts|
    ensures |FollowsAll(eid, parts[n..])| == |parts| - n
    ensures forall j | 0 <= j < |parts| - n :: FollowsAll(eid, parts[n..])[j] == RequestAfter(eid, parts, n + j)
    decreases |parts| - n
  {
    if n < |parts| {
      FollowsFrom(eid, parts, n + 1);
      var rest := FollowsAll(eid, parts[n + 1..]);
      assert parts[n..][0] == parts[n] && parts[n..][1..] == parts[n + 1..];
      assert FollowsAll(eid, parts[n..]) == [RequestAfter(eid, parts, n)] + rest;
      forall j | 0 <= j < |parts| - n ensures FollowsAll(eid, parts[n..])[j] == RequestAfter(eid, parts, n + j) {
        if j > 0 {
          assert rest[j - 1] == RequestAfter(eid, parts, n + 1 + (j - 1));
        }
      }
    }
  }

  /** Each part but the last is followed by a request for the next, and the last by one for the parameters. */
  lemma {:induction false} DiscoveryRequests(eid: nat, parts: seq<Response>)
    requires IsDiscovery(parts)
    ensures |FollowsAll(eid, parts)| == |parts|
    ensures forall i: nat | i < |parts| :: FollowsAll(eid, parts)[i] == RequestAfter(eid, parts, i)
  {
    FollowsFrom(eid, parts, 0);
    assert parts[0..] == parts;
    forall i: nat | i < |parts| ensures FollowsAll(eid, parts)[i] == RequestAfter(eid, parts, i) {
      assert FollowsAll(eid, parts[0..])[i] == RequestAfter(eid, parts, 0 + i);
    }
  }

  /** What is sent over any traffic. */
  function SentOver(ms: seq<Message>): seq<Request> {
    if ms == [] then []
    else SentOver(ms[..|ms| - 1]) + Follows(ms[|ms| - 1].eid, ms[|ms| - 1].response)
  }

  /** All of the part was decoded, and its flag is one of the four. */
  predicate FullyDecoded(m: Message) {
    m.response.Part? && m.response.complete
    && (m.response.flag.Start? || m.response.flag.Middle? || m.response.flag.End? || m.response.flag.StartAndEnd?)
  }

  /** A START or MIDDLE part asks for the one it points to, an END or START_AND_END part for the parameters. */
  ghost predicate GoesOnWith(m: Message, req: Request) {
    FullyDecoded(m)
    && (m.response.flag == Start || m.response.flag == Middle ==> req == NextPart(m.eid, m.response.next))
    && (m.response.flag == End || m.response.flag == StartAndEnd ==> req == FirmwareParameters(m.eid))
  }

  /** The requests are, in order, one for each message picked. */
  ghost predicate OneForEach(picked: seq<Message>, requests: seq<Request>) {
    |requests| == |picked| && forall k | 0 <= k < |picked| :: GoesOnWith(picked[k], requests[k])
  }

  lemma {:induction false} OneMoreRequest(picked: seq<Message>, requests: seq<Request>, m: Message)
    requires OneForEach(picked, requests)
    ensures OneForEach(picked + if FullyDecoded(m) then [m] else [], requests + Follows(m.eid, m.response))
  {
    if !FullyDecoded(m) {
      assert picked + [] == picked && requests + [] == requests;
    }
  }

  /** Exactly the fully decoded parts are followed up, once each and in order. */
  ghost predicate FollowedUp(ms: seq<Message>, requests: seq<Request>) {
    exists picked :: Picks(picked, ms, (m: Message) => FullyDecoded(m)) && OneForEach(picked, requests)
  }

  lemma {:induction false} NothingFollowedUp()
    ensures FollowedUp([], [])
  {
    PicksNothing((m: Message) => FullyDecoded(m));
    assert OneForEach([], []);
  }

  lemma {:induction false} OneMoreFollowedUp(ms: seq<Message>, requests: seq<Request>, m: Message, more: seq<Message>)
    requires FollowedUp(ms, requests) && more == ms + [m]
    ensures FollowedUp(more, requests + Follows(m.eid, m.response))
  {
    var picked :| Picks(picked, ms, (x: Message) => FullyDecoded(x)) && OneForEach(picked, requests);
    PicksAppend(picked, ms, (x: Message) => FullyDecoded(x), m);
    OneMoreRequest(picked, requests, m);
  }

  /** Whatever arrives from whichever endpoint. */
  lemma {:induction false} TrafficRequests(ms: seq<Message>)
    ensures FollowedUp(ms, SentOver(ms))
    decreases |ms|
  {
    if ms == [] {
      NothingFollowedUp();
    } else {
      var before, last := ms[..|ms| - 1], ms[|ms| - 1];
      var requests := SentOver(before);
      TrafficRequests(before);
      OneMoreFollowedUp(before, requests, last, ms);
      assert SentOver(ms) == requests + Follows(last.eid, last.response);
    }
  }
}
