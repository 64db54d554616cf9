/**
 PDR repository change events: the change-record loop of pldmPDRRepositoryChgEvent and getPDRRecordHandles
 (libpldmresponder/platform.cpp).
 */
module RepositoryChange {
  import opened Wrappers
  import opened Bytes

  type Handle = x: int | 0 <= x < U32

  /** A change record: its operation and the handles of the changed PDRs. */
  datatype Record = Record(op: Byte, handles: seq<Handle>)

  const RECORDS_DELETED: Byte := 1
  const RECORDS_MODIFIED: Byte := 3

  const REFRESH_ENTIRE_REPOSITORY: Byte := 0
  const FORMAT_IS_PDR_TYPES: Byte := 1
  const FORMAT_IS_PDR_HANDLES: Byte := 2

  // ----- handles as bytes

  function Split(h: Handle): (r: seq<Byte>)
    ensures |r| == 4
  {
    var x1 := h / 256;
    var x2 := x1 / 256;
    [h % 256, x1 % 256, x2 % 256, x2 / 256]
  }

  lemma {:induction false} JoinSplit(h: Handle)
    ensures var s := Split(h); Le32(s[0], s[1], s[2], s[3]) == h
  {
  }

  lemma {:induction false} DigitOf(lo: Byte, hi: nat)
    ensures (lo + 256 * hi) / 256 == hi && (lo + 256 * hi) % 256 == lo
  {
  }

  lemma {:induction false} SplitJoin(a: Byte, b: Byte, c: Byte, d: Byte)
    ensures Split(Le32(a, b, c, d)) == [a, b, c, d]
  {
    DigitOf(a, b + 256 * (c + 256 * d));
    DigitOf(b, c + 256 * d);
    DigitOf(c, d);
  }

  // ----- change records as bytes

  function HandleBytes(handles: seq<Handle>): (r: seq<Byte>)
    ensures |r| == 4 * |handles|
  {
    if handles == [] then [] else HandleBytes(handles[..|handles| - 1]) + Split(handles[|handles| - 1])
  }

  predicate Encodable(r: Record) { |r.handles| < 256 }

  function Encode(rs: seq<Record>): seq<Byte>
    requires forall r | r in rs :: Encodable(r)
  {
    if rs == [] then []
    else
      assert rs[0] in rs && Encodable(rs[0]);
      var count: Byte := |rs[0].handles|;
      [rs[0].op, count] + HandleBytes(rs[0].handles) + Encode(rs[1..])
  }

  function HandleAt(data: seq<Byte>, p: nat, i: nat): Handle
    requires p + 4 * i + 4 <= |data|
  {
    var q := p + 4 * i;
    Le32(data[q], data[q + 1], data[q + 2], data[q + 3])
  }

  function HandlesAt(data: seq<Byte>, p: nat, n: nat): (r: seq<Handle>)
    requires p + 4 * n <= |data|
    ensures |r| == n
  {
    seq(n, i requires 0 <= i < n => HandleAt(data, p, i))
  }

  /** A whole record starts at p. */
  predicate RecordAt(data: seq<Byte>, p: nat) {
    p + 2 <= |data| && p + 2 + 4 * (data[p + 1] as int) <= |data|
  }

  function NextRecord(data: seq<Byte>, p: nat): (q: nat)
    requires RecordAt(data, p)
    ensures p < q <= |data|
  {
    p + 2 + 4 * (data[p + 1] as int)
  }

  function ReadRecord(data: seq<Byte>, p: nat): Record
    requires RecordAt(data, p)
  {
    Record(data[p], HandlesAt(data, p + 2, data[p + 1]))
  }

  /** The records from p to the end of the data; none when the data does not end with a record. */
  function Decode(data: seq<Byte>, p: nat): Option<seq<Record>>
    requires p <= |data|
    decreases |data| - p
  {
    if p == |data| then Some([])
    else if !RecordAt(data, p) then None
    else
      match Decode(data, NextRecord(data, p))
      case None => None
      case Some(rest) => Some([ReadRecord(data, p)] + rest)
  }

  // ----- the two undo each other

  lemma {:induction false} HandleBytesAt(handles: seq<Handle>, i: nat)
    requires i < |handles|
    ensures HandleBytes(handles)[4 * i..4 * i + 4] == Split(handles[i])
    decreases |handles|
  {
    var before := handles[..|handles| - 1];
    if i < |before| {
      HandleBytesAt(before, i);
    }
  }

  lemma {:induction false} HandleReadsBack(data: seq<Byte>, p: nat, handles: seq<Handle>, i: nat)
    requires p + 4 * |handles| <= |data| && data[p..p + 4 * |handles|] == HandleBytes(handles) && i < |handles|
    ensures HandleAt(data, p, i) == handles[i]
  {
    var s := Split(handles[i]);
    HandleBytesAt(handles, i);
    SliceOfSlice(data, p, p + 4 * |handles|, 4 * i, 4 * i + 4);
    var four := data[p + 4 * i..p + 4 * i + 4];
    assert four == s;
    assert forall k | 0 <= k < 4 :: four[k] == data[p + 4 * i + k];
    JoinSplit(handles[i]);
  }

  lemma {:induction false} HandlesReadBack(data: seq<Byte>, p: nat, handles: seq<Handle>)
    requires p + 4 * |handles| <= |data| && data[p..p + 4 * |handles|] == HandleBytes(handles)
    ensures HandlesAt(data, p, |handles|) == handles
  {
    forall i | 0 <= i < |handles| ensures HandleAt(data, p, i) == handles[i] {
      HandleReadsBack(data, p, handles, i);
    }
  }

  lemma {:induction false} HandleWritesBack(data: seq<Byte>, p: nat, i: nat)
    requires p + 4 * i + 4 <= |data|
    ensures Split(HandleAt(data, p, i)) == data[p + 4 * i..p + 4 * i + 4]
  {
    var q := p + 4 * i;
    SplitJoin(data[q], data[q + 1], data[q + 2], data[q + 3]);
    assert data[q..q + 4] == [data[q], data[q + 1], data[q + 2], data[q + 3]];
  }

  lemma {:induction false} HandlesWriteBack(data: seq<Byte>, p: nat, n: nat)
    requires p + 4 * n <= |data|
    ensures HandleBytes(HandlesAt(data, p, n)) == data[p..p + 4 * n]
  {
    if n > 0 {
      var hs, q := HandlesAt(data, p, n), p + 4 * (n - 1);
      assert hs[..n - 1] == HandlesAt(data, p, n - 1);
      HandlesWriteBack(data, p, n - 1);
      HandleWritesBack(data, p, n - 1);
      assert data[p..q + 4] == data[p..q] + data[q..q + 4];
    }
  }

  /** The first record of an encoding, wherever it stands in the data. */
  lemma {:induction false} RecordReadsBack(data: seq<Byte>, p: nat, rs: seq<Record>)
    requires rs != [] && (forall r | r in rs :: Encodable(r)) && p <= |data| && data[p..] == Encode(rs)
    ensures RecordAt(data, p) && ReadRecord(data, p) == rs[0]
    ensures data[NextRecord(data, p)..] == Encode(rs[1..])
  {
    var r, n: nat := rs[0], |rs[0].handles|;
    assert r in rs && Encodable(r);
    var tail := data[p..];
    var rest := Encode(rs[1..]);
    var count: Byte := n;
    assert tail == [r.op, count] + HandleBytes(r.handles) + rest;
    assert tail[0] == r.op && tail[1] == n && |tail| == 2 + 4 * n + |rest|;
    assert data[p] == tail[0] && data[p + 1] == tail[1];
    assert data[p + 2..p + 2 + 4 * n] == tail[2..2 + 4 * n] == HandleBytes(r.handles);
    HandlesReadBack(data, p + 2, r.handles);
    assert data[p + 2 + 4 * n..] == tail[2 + 4 * n..] == rest;
  }

  lemma {:induction false} DecodeReadsBack(data: seq<Byte>, p: nat, rs: seq<Record>)
    requires (forall r | r in rs :: Encodable(r)) && p <= |data| && data[p..] == Encode(rs)
    ensures Decode(data, p) == Some(rs)
    decreases |rs|
  {
    if rs == [] {
      assert |data[p..]| == 0;
    } else {
      RecordReadsBack(data, p, rs);
      DecodeReadsBack(data, NextRecord(data, p), rs[1..]);
      assert rs == [rs[0]] + rs[1..];
    }
  }

  /** Decoding the encoding of any records with at most 255 entries gives those records. */
  lemma {:induction false} DecodeInvertsEncode(rs: seq<Record>)
    requires forall r | r in rs :: Encodable(r)
    ensures Decode(Encode(rs), 0) == Some(rs)
  {
    assert Encode(rs)[0..] == Encode(rs);
    DecodeReadsBack(Encode(rs), 0, rs);
  }

  /** A record read from the data, in front of records that encode to the rest of it. */
  lemma {:induction false} RecordWritesBack(data: seq<Byte>, p: nat, rest: seq<Record>)
    requires RecordAt(data, p) && (forall r | r in rest :: Encodable(r)) && Encode(rest) == data[NextRecord(data, p)..]
    ensures forall r | r in [ReadRecord(data, p)] + rest :: Encodable(r)
    ensures Encode([ReadRecord(data, p)] + rest) == data[p..]
  {
    var q, n: nat := NextRecord(data, p), data[p + 1];
    assert ([ReadRecord(data, p)] + rest)[1..] == rest;
    HandlesWriteBack(data, p + 2, n);
    assert data[p..] == [data[p], data[p + 1]] + data[p + 2..q] + data[q..];
  }

  /** And data that decodes is the encoding of the records it decodes to: every byte is accounted for. */
  lemma {:induction false} EncodeInvertsDecode(data: seq<Byte>, p: nat)
    requires p <= |data| && Decode(data, p).Some?
    ensures forall r | r in Decode(data, p).value :: Encodable(r)
    ensures Encode(Decode(data, p).value) == data[p..]
    decreases |data| - p
  {
    if p < |data| {
      var q := NextRecord(data, p);
      EncodeInvertsDecode(data, q);
      RecordWritesBack(data, p, Decode(data, q).value);
    }
  }

  // ----- what the records ask for

  /** The handles of all records, in order. */
  function AllHandles(rs: seq<Record>): seq<Handle> {
    if rs == [] then [] else rs[0].handles + AllHandles(rs[1..])
  }

  /** The operation the code goes by: that of the last record. */
  function LastOp(rs: seq<Record>, otherwise: Byte): Byte {
    if rs == [] then otherwise else rs[|rs| - 1].op
  }

  /** A record at or after p whose header could be read is about modified PDRs. */
  predicate MentionsModified(data: seq<Byte>, p: nat)
    requires p <= |data|
    decreases |data| - p
  {
    p + 2 <= |data| &&
    (data[p] == RECORDS_MODIFIED || (RecordAt(data, p) && MentionsModified(data, NextRecord(data, p))))
  }

  lemma {:induction false} MentionsModifiedIff(data: seq<Byte>, p: nat)
    requires p <= |data| && Decode(data, p).Some?
    ensures MentionsModified(data, p) <==> exists r :: r in Decode(data, p).value && r.op == RECORDS_MODIFIED
    decreases |data| - p
  {
    if p < |data| {
      MentionsModifiedIff(data, NextRecord(data, p));
      var rs, rest := Decode(data, p).value, Decode(data, NextRecord(data, p)).value;
      assert rs == [ReadRecord(data, p)] + rest;
    }
  }

  // ----- the handler

  /** What is asked of the host PDR handler. */
  datatype Call = DeletePdrs(handles: seq<Handle>) | FetchPdrs(handles: seq<Handle>)

  class HostPdrHandler {
    var isHostPdrModified: bool
    /** Terminus handles with their terminus identifiers. */
    var tlPDRInfo: map<nat, nat>
    /** The terminus handles whose PDRs were removed from the repository. */
    var removedTermini: set<nat>
    var calls: seq<Call>

    constructor (tlPDRInfo: map<nat, nat>)
      ensures this.tlPDRInfo == tlPDRInfo && !isHostPdrModified && removedTermini == {} && calls == []
    {
      this.tlPDRInfo := tlPDRInfo;
      isHostPdrModified, removedTermini, calls := false, {}, [];
    }

    /** The loop that erases the termini of a TID while it iterates over them. */
    method RemoveTermini(tid: nat)
      modifies `tlPDRInfo, `removedTermini
      ensures tlPDRInfo == map h | h in old(tlPDRInfo) && old(tlPDRInfo)[h] != tid :: old(tlPDRInfo)[h]
      ensures removedTermini == old(removedTermini) + set h | h in old(tlPDRInfo) && old(tlPDRInfo)[h] == tid
    {
      var left := tlPDRInfo.Keys;
      while left != {}
        invariant left <= tlPDRInfo.Keys <= old(tlPDRInfo).Keys
        invariant forall h | h in tlPDRInfo :: tlPDRInfo[h] == old(tlPDRInfo)[h]
        invariant forall h | h in old(tlPDRInfo) && h !in left :: h in tlPDRInfo <==> old(tlPDRInfo)[h] != tid
        invariant removedTermini == old(removedTermini) + set h | h in old(tlPDRInfo) && h !in tlPDRInfo
        decreases |left|
      {
        var h :| h in left;
        left := left - {h};
        if tlPDRInfo[h] == tid {
          removedTermini := removedTermini + {h};
          tlPDRInfo := tlPDRInfo - {h};
        }
      }
    }
  }

  datatype Error = InvalidLength | InvalidData

  /** getPDRRecordHandles: the entries at p are appended unless there are fewer than announced. */
  method GetPDRRecordHandles(data: seq<Byte>, p: nat, n: nat, handles: seq<Handle>)
    returns (ok: bool, more: seq<Handle>)
    requires p <= |data|
    ensures ok <==> p + 4 * n <= |data|
    ensures more == if ok then handles + HandlesAt(data, p, n) else handles
  {
    more := handles;
    if n > (|data| - p) / 4 {
      return false, more;
    }
    for i := 0 to n
      invariant more == handles + HandlesAt(data, p, i)
    {
      assert HandlesAt(data, p, i + 1) == HandlesAt(data, p, i) + [HandleAt(data, p, i)];
      more := more + [HandleAt(data, p, i)];
    }
    ok := true;
  }

  lemma {:induction false} AllHandlesAppend(rs: seq<Record>, r: Record)
    ensures AllHandles(rs + [r]) == AllHandles(rs) + r.handles
    decreases |rs|
  {
    if rs == [] {
      assert [r][1..] == [];
    } else {
      AllHandlesAppend(rs[1..], r);
      assert (rs + [r])[1..] == rs[1..] + [r];
    }
  }

  /** The records that have been read and those still to be decoded make up all of them. */
  ghost predicate ReadSoFar(data: seq<Byte>, rs: seq<Record>, p: nat) {
    && p <= |data|
    && (Decode(data, 0).Some? <==> Decode(data, p).Some?)
    && (Decode(data, 0).Some? ==> Decode(data, 0).value == rs + Decode(data, p).value)
  }

  lemma {:induction false} ReadOneMore(data: seq<Byte>, rs: seq<Record>, p: nat)
    requires ReadSoFar(data, rs, p) && RecordAt(data, p)
    ensures ReadSoFar(data, rs + [ReadRecord(data, p)], NextRecord(data, p))
  {
    if Decode(data, p).Some? {
      var rest := Decode(data, NextRecord(data, p)).value;
      assert rs + ([ReadRecord(data, p)] + rest) == rs + [ReadRecord(data, p)] + rest;
    }
  }

  /** The change-record loop; `data` is what follows the event's own two bytes. */
  method WalkChangeRecords(data: seq<Byte>, host: HostPdrHandler?)
    returns (error: Option<Error>, op: Byte, handles: seq<Handle>)
    modifies host
    ensures error.None? <==> Decode(data, 0).Some?
    ensures error.None? ==> var rs := Decode(data, 0).value; handles == AllHandles(rs) && op == LastOp(rs, 0)
    ensures host != null ==>
              && host.isHostPdrModified == (old(host.isHostPdrModified) || MentionsModified(data, 0))
              && host.tlPDRInfo == old(host.tlPDRInfo) && host.removedTermini == old(host.removedTermini)
              && host.calls == old(host.calls)
  {
    var p: nat, remaining: nat := 0, |data|;
    ghost var rs := [];
    op, handles := 0, [];
    while remaining != 0
      invariant p + remaining == |data| && ReadSoFar(data, rs, p)
      invariant handles == AllHandles(rs) && op == LastOp(rs, 0)
      invariant host != null ==>
          && (old(host.isHostPdrModified) || MentionsModified(data, 0)
              <==> host.isHostPdrModified || MentionsModified(data, p))
          && host.tlPDRInfo == old(host.tlPDRInfo) && host.removedTermini == old(host.removedTermini)
          && host.calls == old(host.calls)
      decreases remaining
    {
      if remaining < 2 {
        return Some(InvalidLength), op, handles;
      }
      op := data[p];
      var n: nat := data[p + 1];
      if host != null && op == RECORDS_MODIFIED {
        host.isHostPdrModified := true;
      }
      var ok, more := GetPDRRecordHandles(data, p + 2, n, handles);
      if !ok {
        return Some(InvalidData), op, handles;
      }
      handles := more;
      ghost var r := ReadRecord(data, p);
      ReadOneMore(data, rs, p);
      AllHandlesAppend(rs, r);
      rs := rs + [r];
      p := p + (2 + n * 4);
      remaining := remaining - (2 + n * 4);
    }
    assert rs + [] == rs;
    error := None;
  }

  /** What an accepted event asks of the handler. */
  function Asked(format: Byte, rs: seq<Record>): Call {
    if format == FORMAT_IS_PDR_HANDLES && LastOp(rs, 0) == RECORDS_DELETED then DeletePdrs(AllHandles(rs))
    else if format == FORMAT_IS_PDR_HANDLES then FetchPdrs(AllHandles(rs))
    else FetchPdrs([])
  }

  /** The records of an event: only the format with handles has any. */
  function RecordsOf(event: seq<Byte>): Option<seq<Record>>
    requires |event| >= 2
  {
    if event[0] == FORMAT_IS_PDR_HANDLES then Decode(event[2..], 0) else Some([])
  }

  predicate Accepted(event: seq<Byte>) {
    |event| >= 2 && event[0] != FORMAT_IS_PDR_TYPES && RecordsOf(event).Some?
  }

  /** pldmPDRRepositoryChgEvent; byte 1 of the event, the number of change records, is decoded and never looked at. */
  method PldmPDRRepositoryChgEvent(event: seq<Byte>, tid: nat, host: HostPdrHandler?) returns (error: Option<Error>)
    modifies host
    ensures error.None? <==> Accepted(event)
    ensures host != null && !Accepted(event) ==>
              host.calls == old(host.calls) && host.tlPDRInfo == old(host.tlPDRInfo)
    ensures host != null && Accepted(event) ==>
              && host.calls == old(host.calls) + [Asked(event[0], RecordsOf(event).value)]
              && host.tlPDRInfo == (map h | h in old(host.tlPDRInfo)
                                            && !(event[0] == REFRESH_ENTIRE_REPOSITORY && old(host.tlPDRInfo)[h] == tid)
                                    :: old(host.tlPDRInfo)[h])
    ensures host != null ==>
              host.removedTermini == old(host.removedTermini)
                + if !Accepted(event) || event[0] != REFRESH_ENTIRE_REPOSITORY then {}
                  else set h | h in old(host.tlPDRInfo) && old(host.tlPDRInfo)[h] == tid
    ensures host != null ==>
              host.isHostPdrModified == (old(host.isHostPdrModified) || (|event| >= 2
                && event[0] == FORMAT_IS_PDR_HANDLES && MentionsModified(event[2..], 0)))
  {
    if |event| < 2 {
      return Some(InvalidLength);
    }
    var format := event[0];
    if format == FORMAT_IS_PDR_TYPES {
      return Some(InvalidData);
    }
    var op, handles := 0, [];
    if format == FORMAT_IS_PDR_HANDLES {
      error, op, handles := WalkChangeRecords(event[2..], host);
      if error.Some? {
        return;
      }
    }
    if host != null {
      if format == REFRESH_ENTIRE_REPOSITORY {
        host.RemoveTermini(tid);
      }
      if op == RECORDS_DELETED {
        host.calls := host.calls + [DeletePdrs(handles)];
      } else {
        host.calls := host.calls + [FetchPdrs(handles)];
      }
    }
    error := None;
  }

  // ----- one operation for all records

  /** Each handle is deleted or fetched as its own record says. */
  ghost predicate TreatedAsAsked(rs: seq<Record>, call: Call) {
    forall i, k | 0 <= i < |rs| && 0 <= k < |rs[i].handles| ::
      var deleted := rs[i].op == RECORDS_DELETED;
      rs[i].handles[k] in call.handles && (call.DeletePdrs? <==> deleted)
  }

  lemma {:induction false} HandleIsAmongAll(rs: seq<Record>, i: nat, h: Handle)
    requires i < |rs| && h in rs[i].handles
    ensures h in AllHandles(rs)
    decreases |rs|
  {
    if i > 0 {
      HandleIsAmongAll(rs[1..], i - 1, h);
    }
  }

  /**
   All handles are treated by the operation of the last record; this is what each record asks for exactly when no
   record that has handles differs from the last in being about deleted PDRs.
   */
  lemma {:induction false} TreatedAsAskedIff(rs: seq<Record>)
    ensures TreatedAsAsked(rs, Asked(FORMAT_IS_PDR_HANDLES, rs))
       <==> forall i | 0 <= i < |rs| && rs[i].handles != [] ::
              rs[i].op == RECORDS_DELETED <==> rs[|rs| - 1].op == RECORDS_DELETED
  {
    var call := Asked(FORMAT_IS_PDR_HANDLES, rs);
    forall i, k | 0 <= i < |rs| && 0 <= k < |rs[i].handles| ensures rs[i].handles[k] in call.handles {
      HandleIsAmongAll(rs, i, rs[i].handles[k]);
    }
    if TreatedAsAsked(rs, call) {
      forall i | 0 <= i < |rs| && rs[i].handles != []
        ensures rs[i].op == RECORDS_DELETED <==> rs[|rs| - 1].op == RECORDS_DELETED
      {
        assert rs[i].handles[0] in call.handles;
      }
    }
  }

  /** An event that reports a deleted PDR and then an added one has both fetched. */
  lemma {:induction false} MixedEventFetchesDeleted()
    ensures var rs := [Record(RECORDS_DELETED, [7]), Record(2, [8])];
            Asked(FORMAT_IS_PDR_HANDLES, rs) == FetchPdrs([7, 8])
  {
    AllHandlesAppend([Record(RECORDS_DELETED, [7])], Record(2, [8]));
    AllHandlesAppend([], Record(RECORDS_DELETED, [7]));
    assert [] + [Record(RECORDS_DELETED, [7])] == [Record(RECORDS_DELETED, [7])];
    assert [Record(RECORDS_DELETED, [7])] + [Record(2, [8])] == [Record(RECORDS_DELETED, [7]), Record(2, [8])];
  }

  // ----- byte by byte

  /** Four bytes of a little-endian handle. */
  predicate HandleLaid(data: seq<Byte>, q: nat, h: Handle) {
    && q + 3 < |data|
    && data[q] as int + 0x100 * (data[q + 1] as int) + 0x1_0000 * (data[q + 2] as int)
       + 0x100_0000 * (data[q + 3] as int) == h
  }

  /** A change record from p to end: the operation, the number of entries, and the entries. */
  ghost predicate RecordLaid(data: seq<Byte>, p: nat, end: nat, r: Record) {
    && p + 1 < |data| && end == p + 2 + 4 * |r.handles| <= |data|
    && data[p] == r.op && data[p + 1] == |r.handles|
    && forall i | 0 <= i < |r.handles| :: HandleLaid(data, p + 2 + 4 * i, r.handles[i])
  }

  /** The records stand one after the other from p on, up to the end of the data. */
  ghost predicate RecordsLaid(data: seq<Byte>, p: nat, rs: seq<Record>, at: seq<nat>) {
    && |at| == |rs| + 1 && at[0] == p && at[|rs|] == |data|
    && forall k | 0 <= k < |rs| :: RecordLaid(data, at[k], at[k + 1], rs[k])
  }

  lemma {:induction false} ReadIsLaid(data: seq<Byte>, p: nat, r: Record)
    requires p <= |data|
    ensures (exists end :: RecordLaid(data, p, end, r)) <==> RecordAt(data, p) && ReadRecord(data, p) == r
    ensures forall end | RecordLaid(data, p, end, r) :: RecordAt(data, p) && end == NextRecord(data, p)
  {
    if RecordAt(data, p) {
      forall i: nat | p + 2 + 4 * i + 4 <= |data|
        ensures HandleAt(data, p + 2, i) == data[p + 2 + 4 * i] as int + 0x100 * (data[p + 2 + 4 * i + 1] as int)
                  + 0x1_0000 * (data[p + 2 + 4 * i + 2] as int) + 0x100_0000 * (data[p + 2 + 4 * i + 3] as int)
      {
        var q := p + 2 + 4 * i;
        LittleEndian(data[q], data[q + 1], data[q + 2], data[q + 3]);
      }
      if ReadRecord(data, p) == r {
        forall i | 0 <= i < |r.handles| ensures HandleLaid(data, p + 2 + 4 * i, r.handles[i]) {
          assert r.handles[i] == HandleAt(data, p + 2, i);
        }
        assert RecordLaid(data, p, NextRecord(data, p), r);
      }
      if end :| RecordLaid(data, p, end, r) {
        forall i | 0 <= i < |r.handles| ensures r.handles[i] == HandleAt(data, p + 2, i) {
          assert HandleLaid(data, p + 2 + 4 * i, r.handles[i]);
        }
        assert ReadRecord(data, p).handles == r.handles;
      }
    }
  }

  lemma {:induction false} DecodedIsLaid(data: seq<Byte>, p: nat) returns (at: seq<nat>)
    requires p <= |data| && Decode(data, p).Some?
    ensures RecordsLaid(data, p, Decode(data, p).value, at)
    decreases |data| - p
  {
    if p == |data| {
      at := [p];
    } else {
      var next, r := NextRecord(data, p), ReadRecord(data, p);
      var rest := DecodedIsLaid(data, next);
      var rs := Decode(data, next).value;
      ReadIsLaid(data, p, r);
      var end :| RecordLaid(data, p, end, r);
      at := [p] + rest;
      LaidCons(data, p, r, next, rs, rest);
    }
  }

  lemma {:induction false} LaidCons(data: seq<Byte>, p: nat, r: Record, next: nat, rs: seq<Record>, at: seq<nat>)
    requires RecordsLaid(data, next, rs, at) && RecordLaid(data, p, next, r)
    ensures RecordsLaid(data, p, [r] + rs, [p] + at)
  {
    var all, more := [r] + rs, [p] + at;
    forall k | 0 <= k < |all| ensures RecordLaid(data, more[k], more[k + 1], all[k]) {
      assert k > 0 ==> RecordLaid(data, at[k - 1], at[k], rs[k - 1]);
    }
  }

  lemma {:induction false} LaidIsDecoded(data: seq<Byte>, p: nat, rs: seq<Record>, at: seq<nat>)
    requires p <= |data| && RecordsLaid(data, p, rs, at)
    ensures Decode(data, p) == Some(rs)
    decreases |rs|
  {
    if rs != [] {
      assert RecordLaid(data, at[0], at[1], rs[0]);
      ReadIsLaid(data, p, rs[0]);
      forall k | 0 <= k < |rs[1..]| ensures RecordLaid(data, at[1..][k], at[1..][k + 1], rs[1..][k]) {
        assert RecordLaid(data, at[k + 1], at[k + 2], rs[k + 1]);
      }
      LaidIsDecoded(data, at[1], rs[1..], at[1..]);
      assert rs == [rs[0]] + rs[1..];
    }
  }

  /** The loop accepts data exactly when records stand in it one after the other up to its end, and gets those. */
  lemma {:induction false} DecodesIff(data: seq<Byte>, rs: seq<Record>)
    ensures Decode(data, 0) == Some(rs) <==> exists at :: RecordsLaid(data, 0, rs, at)
  {
    if Decode(data, 0) == Some(rs) {
      var at := DecodedIsLaid(data, 0);
    }
    if at :| RecordsLaid(data, 0, rs, at) {
      LaidIsDecoded(data, 0, rs, at);
    }
  }

  /** The handles of the records, one record after the other. */
  ghost predicate Concatenates(all: seq<Handle>, rs: seq<Record>, starts: seq<nat>) {
    && |starts| == |rs| + 1 && starts[0] == 0 && starts[|rs|] == |all|
    && forall k | 0 <= k < |rs| ::
         && starts[k + 1] == starts[k] + |rs[k].handles| <= |all|
         && all[starts[k]..starts[k + 1]] == rs[k].handles
  }

  lemma {:induction false} ConcatenatesAppend(all: seq<Handle>, rs: seq<Record>, starts: seq<nat>, r: Record)
    requires Concatenates(all, rs, starts)
    ensures Concatenates(all + r.handles, rs + [r], starts + [|all + r.handles|])
  {
    var al, rr, ss := all + r.handles, rs + [r], starts + [|all + r.handles|];
    forall k | 0 <= k < |rr|
      ensures ss[k + 1] == ss[k] + |rr[k].handles| <= |al| && al[ss[k]..ss[k + 1]] == rr[k].handles
    {
      if k < |rs| {
        assert all[starts[k]..starts[k + 1]] == rs[k].handles;
        assert al[ss[k]..ss[k + 1]] == all[starts[k]..starts[k + 1]];
      }
    }
  }

  lemma {:induction false} AllHandlesConcatenate(rs: seq<Record>) returns (starts: seq<nat>)
    ensures Concatenates(AllHandles(rs), rs, starts)
    decreases |rs|
  {
    if rs == [] {
      starts := [0];
    } else {
      var before, last := rs[..|rs| - 1], rs[|rs| - 1];
      assert rs == before + [last];
      starts := AllHandlesConcatenate(before);
      AllHandlesAppend(before, last);
      ConcatenatesAppend(AllHandles(before), before, starts, last);
      starts := starts + [|AllHandles(rs)|];
    }
  }

  /**
   What an accepted event asks for. A refresh of the whole repository has nothing in particular fetched; a list of
   handles has all of them, one record after the other, deleted if the last record says so and else fetched.
   */
  lemma {:induction false} AskedMeans(event: seq<Byte>)
    requires Accepted(event)
    ensures event[0] != 1
    ensures event[0] != 2 ==> Asked(event[0], RecordsOf(event).value) == FetchPdrs([])
    ensures event[0] == 2 ==>
              exists rs: seq<Record>, at, starts ::
                && RecordsLaid(event[2..], 0, rs, at)
                && (var call := Asked(event[0], RecordsOf(event).value);
                    && Concatenates(call.handles, rs, starts)
                    && (call.DeletePdrs? <==> rs != [] && rs[|rs| - 1].op == 1))
  {
    if event[0] == 2 {
      var rs := RecordsOf(event).value;
      var at := DecodedIsLaid(event[2..], 0);
      var starts := AllHandlesConcatenate(rs);
      assert RecordsLaid(event[2..], 0, rs, at);
      assert Concatenates(Asked(event[0], rs).handles, rs, starts);
    }
  }
}
