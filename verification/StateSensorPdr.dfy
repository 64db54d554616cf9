/**
 State sensor PDRs: the writer with its separate sizing and writing passes (libpldmresponder/pdr_state_sensor.hpp),
 the parser (libpldmresponder/pdr_utils.cpp) and the searches that step through the composite entries
 (common/utils.cpp).
 */
module StateSensorPdr {
  import opened Wrappers
  import opened Bytes

  // ----- what the configuration says

  /** One sensor of a composite: its state set, and whether its D-Bus object can be looked up. */
  datatype Sensor = Sensor(id: nat, size: nat, states: seq<Byte>, found: bool)

  datatype Entity = Entity(kind: nat, instance: nat, container: nat)

  /** One entry: the entity its path is associated with, if any, the one it names itself, and its sensors. */
  datatype Entry = Entry(associated: Option<Entity>, own: Entity, sensors: seq<Sensor>)

  predicate EntityFits(e: Entity) {
    e.kind < 0x10000 && e.instance < 0x10000 && e.container < 0x10000
  }

  /** The state set fits its declared size; a size of 0 is refused by the code. */
  predicate SensorFits(s: Sensor) {
    s.id < 0x10000 && s.size < 256 && (s.size > 0 ==> forall x | x in s.states :: x < 8 * s.size)
  }

  predicate EntryFits(e: Entry) {
    && EntityFits(e.own) && (e.associated.Some? ==> EntityFits(e.associated.value))
    && forall s | s in e.sensors :: SensorFits(s)
  }

  function EntityOf(e: Entry): Entity {
    if e.associated.Some? then e.associated.value else e.own
  }

  // ----- layout

  const HEADER := 23
  const HDR_SIZE := 10

  /** Where entry i starts, counted from the first. */
  function Offset(sensors: seq<Sensor>, i: nat): nat
    requires i <= |sensors|
  {
    if i == 0 then 0 else Offset(sensors, i - 1) + 3 + sensors[i - 1].size
  }

  function Size(sensors: seq<Sensor>): nat { HEADER + Offset(sensors, |sensors|) }

  function Header(size: nat, sensorId: nat, e: Entity, count: Byte): (r: seq<Byte>)
    ensures |r| == HEADER
  {
    [0, 0, 0, 0, 1, 4, 0, 0, size % 256, size / 256 % 256]
    + [1, 0, sensorId % 256, sensorId / 256 % 256, e.kind % 256, e.kind / 256 % 256]
    + [e.instance % 256, e.instance / 256 % 256, e.container % 256, e.container / 256 % 256, 0, 0, count]
  }

  /** State x is set in the bit field that starts at q. */
  predicate HasState(b: seq<Byte>, q: nat, x: nat) {
    q + x / 8 < |b| && Bit(b[q + x / 8], x % 8)
  }

  /** The bytes from p on are the entry of the sensor: its set id, its size, and exactly its states. */
  ghost predicate EntryAt(b: seq<Byte>, p: nat, s: Sensor) {
    && p + 3 + s.size <= |b|
    && Le16(b[p], b[p + 1]) == s.id && b[p + 2] == s.size
    && forall x: nat | x < 8 * s.size :: HasState(b, p + 3, x) <==> x in s.states
  }

  ghost predicate EntriesAt(b: seq<Byte>, sensors: seq<Sensor>, n: nat)
    requires n <= |sensors|
  {
    forall i: nat | i < n :: Placed(b, sensors, i)
  }

  ghost predicate Placed(b: seq<Byte>, sensors: seq<Sensor>, i: nat)
    requires i < |sensors|
  {
    EntryAt(b, HEADER + Offset(sensors, i), sensors[i])
  }

  ghost predicate ZeroFrom(b: seq<Byte>, p: nat) {
    forall k | p <= k < |b| :: b[k] == 0
  }

  /** The sensors before the first whose D-Bus object cannot be looked up. */
  function Mapped(sensors: seq<Sensor>, from: nat): (m: nat)
    requires from <= |sensors|
    ensures from <= m <= |sensors|
    ensures forall i | from <= i < m :: sensors[i].found
    ensures m < |sensors| ==> !sensors[m].found
    decreases |sensors| - from
  {
    if from == |sensors| || !sensors[from].found then from else Mapped(sensors, from + 1)
  }

  /** The entries that are written: the one whose lookup fails is the last. */
  function Written(sensors: seq<Sensor>): (w: nat)
    ensures w <= |sensors|
  {
    var m := Mapped(sensors, 0);
    if m < |sensors| then m + 1 else m
  }

  /** The record for an entry: its header, the entries up to the last one written, and zeros in the rest. */
  ghost predicate Describes(b: seq<Byte>, e: Entry, sensorId: nat) {
    && |e.sensors| <= 8
    && WrittenTo(b, e.sensors, Written(e.sensors))
    && b[..HEADER] == Header(|b| - HDR_SIZE, sensorId, EntityOf(e), |e.sensors|)
  }

  lemma {:induction false} OffsetMonotone(sensors: seq<Sensor>, i: nat, j: nat)
    requires i <= j <= |sensors|
    ensures Offset(sensors, i) + 3 * (j - i) <= Offset(sensors, j)
    ensures i < j ==> Offset(sensors, i) + 3 + sensors[i].size <= Offset(sensors, j)
    decreases j
  {
    if i < j {
      OffsetMonotone(sensors, i, j - 1);
    }
  }

  // ----- the writer

  /** The sizing pass; none when a sensor declares no states. */
  method SizingPass(sensors: seq<Sensor>) returns (r: Option<nat>)
    ensures r.None? <==> exists s :: s in sensors && s.size == 0
    ensures r.Some? ==> r.value == Size(sensors)
  {
    var pdrSize := 0;
    for i := 0 to |sensors|
      invariant pdrSize == Offset(sensors, i)
      invariant forall k | 0 <= k < i :: sensors[k].size != 0
    {
      if sensors[i].size == 0 {
        return None;
      }
      pdrSize := pdrSize + 4 - 1 + sensors[i].size;
    }
    r := Some(pdrSize + 24 - 1);
  }

  lemma {:induction false} SameHasState(b: seq<Byte>, c: seq<Byte>, q: nat, x: nat)
    requires |b| == |c| && (q + x / 8 < |b| ==> b[q + x / 8] == c[q + x / 8])
    ensures HasState(b, q, x) == HasState(c, q, x)
  {
  }

  lemma {:induction false} SameEntry(b: seq<Byte>, c: seq<Byte>, p: nat, s: Sensor, q: nat)
    requires EntryAt(b, p, s) && |b| == |c| && p + 3 + s.size <= q <= |b|
    requires forall k | p <= k < q :: b[k] == c[k]
    ensures EntryAt(c, p, s)
  {
    forall x: nat | x < 8 * s.size ensures HasState(c, p + 3, x) <==> x in s.states {
      SameHasState(b, c, p + 3, x);
    }
  }

  lemma {:induction false} StateIsSet(b: seq<Byte>, c: seq<Byte>, q: nat, s: nat, x: nat)
    requires q + s / 8 < |b| && c == b[q + s / 8 := SetByteBit(b[q + s / 8], s % 8)]
    ensures HasState(c, q, x) <==> x == s || HasState(b, q, x)
  {
    if x / 8 == s / 8 {
      assert x == s <==> x % 8 == s % 8;
    }
  }

  lemma {:induction false} NoStateInZeros(b: seq<Byte>, q: nat, x: nat)
    requires q + x / 8 < |b| ==> b[q + x / 8] == 0
    ensures !HasState(b, q, x)
  {
    ZeroBits(x % 8);
  }

  /** The loop that sets the bits of the states in a cleared bit field. */
  method SetStates(entry: array<Byte>, field: nat, size: nat, states: seq<Byte>)
    requires field + size <= entry.Length && (forall x | x in states :: x < 8 * size)
    requires ZeroFrom(entry[..], field)
    modifies entry
    ensures forall x: nat :: HasState(entry[..], field, x) <==> x in states
    ensures forall j | 0 <= j < field || field + size <= j < entry.Length :: entry[j] == old(entry[j])
  {
    forall x: nat ensures !HasState(entry[..], field, x) {
      NoStateInZeros(entry[..], field, x);
    }
    for k := 0 to |states|
      invariant forall x: nat :: HasState(entry[..], field, x) <==> x in states[..k]
      invariant forall j | 0 <= j < field || field + size <= j < entry.Length :: entry[j] == old(entry[j])
    {
      var state := states[k];
      assert state in states;
      var index := state / 8;
      var bit := state - index * 8;
      ghost var before := entry[..];
      entry[field + index] := SetByteBit(entry[field + index], bit);
      assert entry[..] == before[field + index := SetByteBit(before[field + index], bit)];
      forall x: nat ensures HasState(entry[..], field, x) <==> x == state || HasState(before, field, x) {
        StateIsSet(before, entry[..], field, state, x);
      }
      assert states[..k + 1] == states[..k] + [state];
    }
    assert states[..|states|] == states;
  }

  /** The body of the writing loop: set id, size and bit field of one sensor, from `start` on. */
  method WriteEntry(entry: array<Byte>, start: nat, s: Sensor)
    requires SensorFits(s) && s.size > 0 && start + 3 + s.size <= entry.Length
    requires ZeroFrom(entry[..], start)
    modifies entry
    ensures EntryAt(entry[..], start, s)
    ensures forall k | 0 <= k < start :: entry[k] == old(entry[k])
    ensures ZeroFrom(entry[..], start + 3 + s.size)
  {
    entry[start], entry[start + 1], entry[start + 2] := s.id % 256, s.id / 256 % 256, s.size;
    SetStates(entry, start + 3, s.size, s.states);
    BytesOf16(s.id);
  }

  /** The first n entries are written, and nothing after them. */
  ghost predicate WrittenTo(b: seq<Byte>, sensors: seq<Sensor>, n: nat) {
    && n <= |sensors| && |b| == Size(sensors)
    && EntriesAt(b, sensors, n) && ZeroFrom(b, HEADER + Offset(sensors, n))
  }

  /** One more entry, after those already written. */
  method WriteNext(entry: array<Byte>, start: nat, sensors: seq<Sensor>, n: nat)
    requires n < |sensors| && SensorFits(sensors[n]) && sensors[n].size > 0
    requires start == HEADER + Offset(sensors, n) && WrittenTo(entry[..], sensors, n)
    modifies entry
    ensures WrittenTo(entry[..], sensors, n + 1)
    ensures forall k | 0 <= k < HEADER :: entry[k] == old(entry[k])
  {
    OffsetMonotone(sensors, n + 1, |sensors|);
    ghost var before := entry[..];
    WriteEntry(entry, start, sensors[n]);
    EarlierEntriesStay(before, entry[..], sensors, n);
    assert Placed(entry[..], sensors, n);
  }

  /** The writing pass: it stops after the first sensor whose lookup fails, and counts those that succeeded. */
  method WritingPass(entry: array<Byte>, sensors: seq<Sensor>) returns (mapped: nat)
    requires forall s | s in sensors :: SensorFits(s) && s.size > 0
    requires entry.Length == Size(sensors) && ZeroFrom(entry[..], HEADER)
    modifies entry
    ensures forall k | 0 <= k < HEADER :: entry[k] == old(entry[k])
    ensures mapped == Mapped(sensors, 0)
    ensures WrittenTo(entry[..], sensors, Written(sensors))
  {
    var start: nat := HEADER;
    mapped := 0;
    while mapped < |sensors|
      invariant mapped <= |sensors| && start == HEADER + Offset(sensors, mapped)
      invariant Mapped(sensors, 0) == Mapped(sensors, mapped)
      invariant forall k | 0 <= k < HEADER :: entry[k] == old(entry[k])
      invariant WrittenTo(entry[..], sensors, mapped)
    {
      var s := sensors[mapped];
      assert s in sensors;
      WriteNext(entry, start, sensors, mapped);
      start := start + 2 + 1 + s.size;
      if !s.found {
        break;
      }
      mapped := mapped + 1;
    }
  }

  lemma {:induction false} EarlierEntryStays(b: seq<Byte>, c: seq<Byte>, sensors: seq<Sensor>, i: nat, n: nat)
    requires i < n <= |sensors| && Placed(b, sensors, i) && |b| == |c| && HEADER + Offset(sensors, n) <= |b|
    requires forall k | HEADER <= k < HEADER + Offset(sensors, n) :: b[k] == c[k]
    ensures Placed(c, sensors, i)
  {
    OffsetMonotone(sensors, i, n);
    SameEntry(b, c, HEADER + Offset(sensors, i), sensors[i], HEADER + Offset(sensors, n));
  }

  /** Entries before the one being written are not touched. */
  lemma {:induction false} EarlierEntriesStay(b: seq<Byte>, c: seq<Byte>, sensors: seq<Sensor>, n: nat)
    requires n <= |sensors| && EntriesAt(b, sensors, n) && |b| == |c| && HEADER + Offset(sensors, n) <= |b|
    requires forall k | HEADER <= k < HEADER + Offset(sensors, n) :: b[k] == c[k]
    ensures EntriesAt(c, sensors, n)
  {
    forall i: nat | i < n ensures Placed(c, sensors, i) {
      EarlierEntryStays(b, c, sensors, i, n);
    }
  }

  method WriteHeader(entry: array<Byte>, e: Entity, count: Byte)
    requires HEADER <= entry.Length && EntityFits(e)
    modifies entry
    ensures entry[..HEADER] == Header(entry.Length - HDR_SIZE, 0, e, count)
    ensures forall k | HEADER <= k < entry.Length :: entry[k] == old(entry[k])
  {
    var header := Header(entry.Length - HDR_SIZE, 0, e, count);
    for i := 0 to HEADER
      invariant forall k | 0 <= k < i :: entry[k] == header[k]
      invariant forall k | HEADER <= k < entry.Length :: entry[k] == old(entry[k])
    {
      entry[i] := header[i];
    }
  }

  /** What becomes of an entry. */
  datatype Outcome = Throws | NoRecord | Record(bytes: seq<Byte>)

  predicate Refused(e: Entry) {
    exists s :: s in e.sensors && s.size == 0
  }

  /** The entity type is looked at only for an entry that names its entity itself. */
  predicate Unnamed(e: Entry) {
    e.associated.None? && e.own.kind == 0
  }

  predicate TooMany(e: Entry) { |e.sensors| > 8 }

  predicate Emitted(e: Entry) {
    !Unnamed(e) && Mapped(e.sensors, 0) > 0
  }

  predicate Aborts(e: Entry) {
    Refused(e) || (!Unnamed(e) && TooMany(e))
  }

  /** The sensor identifier goes to bytes 12 and 13. */
  lemma {:induction false} SetSensorId(b: seq<Byte>, c: seq<Byte>, e: Entry, id: nat)
    requires Describes(b, e, 0) && c == b[12 := id % 256][13 := id / 256 % 256]
    ensures Describes(c, e, id)
  {
    assert c[..HEADER] == Header(|c| - HDR_SIZE, id, EntityOf(e), |e.sensors|);
    OffsetMonotone(e.sensors, Written(e.sensors), |e.sensors|);
    EarlierEntriesStay(b, c, e.sensors, Written(e.sensors));
  }

  /** One round of generateStateSensorPDR. */
  method GenerateOne(e: Entry, nextSensorId: nat) returns (r: Outcome)
    requires EntryFits(e)
    ensures r.Throws? <==> Aborts(e)
    ensures r.Record? <==> !Aborts(e) && Emitted(e)
    ensures r.Record? ==> Describes(r.bytes, e, nextSensorId)
  {
    var pdrSize := SizingPass(e.sensors);
    if pdrSize.None? {
      return Throws;
    }
    if Unnamed(e) {
      return NoRecord;
    }
    if |e.sensors| > 8 {
      return Throws;
    }
    var entry := new Byte[pdrSize.value](_ => 0);
    WriteHeader(entry, EntityOf(e), |e.sensors|);
    ghost var header := entry[..HEADER];
    var mapped := WritingPass(entry, e.sensors);
    assert entry[..HEADER] == header;
    if mapped == 0 {
      return NoRecord;
    }
    ghost var before := entry[..];
    assert before[..HEADER] == entry[..HEADER];
    entry[12], entry[13] := nextSensorId % 256, nextSensorId / 256 % 256;
    SetSensorId(before, entry[..], e, nextSensorId);
    r := Record(entry[..]);
  }

  /** The entries for which a record is added, in order. */
  function EmittedOf(entries: seq<Entry>): seq<Entry> {
    if entries == [] then []
    else
      var e := entries[|entries| - 1];
      EmittedOf(entries[..|entries| - 1]) + if Emitted(e) then [e] else []
  }

  /** ++nextSensorId on a uint16_t. */
  function SensorIdAfter(id: nat, n: nat): nat { (id + n) % 0x10000 }

  ghost predicate DescribesAll(records: seq<seq<Byte>>, entries: seq<Entry>, nextSensorId: nat) {
    && |records| == |entries|
    && forall i | 0 <= i < |records| :: Describes(records[i], entries[i], SensorIdAfter(nextSensorId, i + 1))
  }

  lemma {:induction false} DescribesOneMore(
    records: seq<seq<Byte>>, entries: seq<Entry>, nextSensorId: nat, b: seq<Byte>, e: Entry)
    requires DescribesAll(records, entries, nextSensorId)
    requires Describes(b, e, SensorIdAfter(nextSensorId, |records| + 1))
    ensures DescribesAll(records + [b], entries + [e], nextSensorId)
  {
    var rs, es := records + [b], entries + [e];
    forall i | 0 <= i < |rs| ensures Describes(rs[i], es[i], SensorIdAfter(nextSensorId, i + 1)) {
      if i < |records| {
        assert rs[i] == records[i] && es[i] == entries[i];
      }
    }
  }

  // ----- the same, byte by byte

  /** The entry gives a record: it has an entity, and the first D-Bus lookup succeeds. */
  predicate GivesRecord(e: Entry) {
    (e.associated.Some? || e.own.kind != 0) && e.sensors != [] && e.sensors[0].found
  }

  /** The entry makes the generation throw. */
  predicate GivesError(e: Entry) {
    || (exists s :: s in e.sensors && s.size == 0)
    || ((e.associated.Some? || e.own.kind != 0) && |e.sensors| > 8)
  }

  lemma {:induction false} EmittedIff(e: Entry)
    ensures Aborts(e) <==> GivesError(e)
    ensures Emitted(e) <==> GivesRecord(e)
  {
  }

  lemma {:induction false} EmittedPicks(entries: seq<Entry>)
    ensures Picks(EmittedOf(entries), entries, (e: Entry) => GivesRecord(e))
    decreases |entries|
  {
    var gives := (e: Entry) => GivesRecord(e);
    if entries == [] {
      PicksNothing(gives);
    } else {
      var last, before := entries[|entries| - 1], entries[..|entries| - 1];
      EmittedPicks(before);
      EmittedIff(last);
      PicksAppend(EmittedOf(before), before, gives, last);
      assert entries == before + [last];
    }
  }

  /** The two bytes at a position are the number. */
  predicate Holds16(b: seq<Byte>, p: nat, x: nat) {
    p + 1 < |b| && (b[p] as int) + 0x100 * (b[p + 1] as int) == x
  }

  /** The common header, the fields of the PDR, and the number of sensors. */
  ghost predicate HeaderLaid(b: seq<Byte>, sensorId: nat, e: Entity, count: nat) {
    && |b| >= 23
    && b[0] == b[1] == b[2] == b[3] == 0 && b[4] == 1 && b[5] == 4 && b[6] == b[7] == 0
    && Holds16(b, 8, |b| - 10) && Holds16(b, 10, 1) && Holds16(b, 12, sensorId)
    && Holds16(b, 14, e.kind) && Holds16(b, 16, e.instance) && Holds16(b, 18, e.container)
    && b[20] == b[21] == 0 && b[22] == count
  }

  /** Bit x mod 8 of byte x / 8 of the field is set. */
  predicate StateBit(b: seq<Byte>, field: nat, x: nat) {
    Pow2(x % 8) > 0 && field + x / 8 < |b| && b[field + x / 8] / Pow2(x % 8) % 2 == 1
  }

  ghost predicate SensorLaid(b: seq<Byte>, p: nat, s: Sensor) {
    && Holds16(b, p, s.id) && p + 3 + s.size <= |b| && b[p + 2] == s.size
    && forall x: nat | x < 8 * s.size :: StateBit(b, p + 3, x) <==> x in s.states
  }

  ghost predicate FoundBefore(sensors: seq<Sensor>, i: nat)
    requires i <= |sensors|
  {
    forall j | 0 <= j < i :: sensors[j].found
  }

  /** Sensor i starts at starts[i]; it is there if all lookups before it succeed, and else everything from there is 0. */
  ghost predicate SensorsLaid(b: seq<Byte>, sensors: seq<Sensor>, starts: seq<nat>) {
    && |starts| == |sensors| + 1 && starts[0] == 23 && starts[|sensors|] == |b|
    && (forall i | 0 <= i < |sensors| :: starts[i + 1] == starts[i] + 3 + sensors[i].size)
    && (forall i | 0 <= i < |sensors| ::
          if FoundBefore(sensors, i) then SensorLaid(b, starts[i], sensors[i]) else ZeroFrom(b, starts[i]))
  }

  /** The whole record of an entry. */
  ghost predicate Laid(b: seq<Byte>, e: Entry, sensorId: nat) {
    && HeaderLaid(b, sensorId, if e.associated.Some? then e.associated.value else e.own, |e.sensors|)
    && exists starts :: SensorsLaid(b, e.sensors, starts)
  }

  lemma {:induction false} StateBitIff(b: seq<Byte>, field: nat, x: nat)
    ensures StateBit(b, field, x) <==> HasState(b, field, x)
  {
    if field + x / 8 < |b| {
      BitIsParity(b[field + x / 8], x % 8);
    }
  }

  lemma {:induction false} EntryIsLaid(b: seq<Byte>, p: nat, s: Sensor)
    requires EntryAt(b, p, s)
    ensures SensorLaid(b, p, s)
  {
    forall x: nat | x < 8 * s.size ensures StateBit(b, p + 3, x) <==> x in s.states {
      StateBitIff(b, p + 3, x);
    }
  }

  lemma {:induction false} FoundBeforeIff(sensors: seq<Sensor>, i: nat)
    requires i < |sensors|
    ensures FoundBefore(sensors, i) <==> i < Written(sensors)
  {
    var m := Mapped(sensors, 0);
    if i > m {
      assert !sensors[m].found;
    }
  }

  lemma {:induction false} SensorIsLaid(b: seq<Byte>, sensors: seq<Sensor>, i: nat)
    requires WrittenTo(b, sensors, Written(sensors)) && i < |sensors|
    ensures var p := HEADER + Offset(sensors, i);
            if FoundBefore(sensors, i) then SensorLaid(b, p, sensors[i]) else ZeroFrom(b, p)
  {
    FoundBeforeIff(sensors, i);
    if i < Written(sensors) {
      assert Placed(b, sensors, i);
      EntryIsLaid(b, HEADER + Offset(sensors, i), sensors[i]);
    } else {
      OffsetMonotone(sensors, Written(sensors), i);
    }
  }

  lemma {:induction false} SensorsAreLaid(b: seq<Byte>, sensors: seq<Sensor>)
    requires WrittenTo(b, sensors, Written(sensors))
    ensures exists starts :: SensorsLaid(b, sensors, starts)
  {
    var starts := seq(|sensors| + 1, i requires 0 <= i <= |sensors| => (HEADER + Offset(sensors, i)) as nat);
    forall i | 0 <= i < |sensors|
      ensures if FoundBefore(sensors, i) then SensorLaid(b, starts[i], sensors[i]) else ZeroFrom(b, starts[i])
    {
      SensorIsLaid(b, sensors, i);
    }
    assert SensorsLaid(b, sensors, starts);
  }

  lemma {:induction false} HeaderIsLaid(b: seq<Byte>, sensorId: nat, e: Entity, count: Byte)
    requires EntityFits(e) && sensorId < 0x10000 && HEADER <= |b| && |b| - HDR_SIZE < 0x10000
    requires b[..HEADER] == Header(|b| - HDR_SIZE, sensorId, e, count)
    ensures HeaderLaid(b, sensorId, e, count)
  {
    var size := |b| - HDR_SIZE;
    var h := Header(size, sensorId, e, count);
    assert forall k | 0 <= k < HEADER :: b[k] == b[..HEADER][k] == h[k];
    BytesOf16(size);
    BytesOf16(sensorId);
    BytesOf16(e.kind);
    BytesOf16(e.instance);
    BytesOf16(e.container);
  }

  lemma {:induction false} OffsetBound(sensors: seq<Sensor>, i: nat)
    requires i <= |sensors| && forall s | s in sensors :: SensorFits(s)
    ensures Offset(sensors, i) <= 258 * i
  {
    if i > 0 {
      OffsetBound(sensors, i - 1);
      assert sensors[i - 1] in sensors;
    }
  }

  /** Every generated record is laid out like this. */
  lemma {:induction false} DescribedIsLaid(b: seq<Byte>, e: Entry, sensorId: nat)
    requires EntryFits(e) && Describes(b, e, sensorId) && sensorId < 0x10000
    ensures Laid(b, e, sensorId)
  {
    OffsetBound(e.sensors, |e.sensors|);
    HeaderIsLaid(b, sensorId, EntityOf(e), |e.sensors|);
    SensorsAreLaid(b, e.sensors);
  }

  /** Records for these entries, with the identifiers that follow `nextSensorId` on a uint16_t. */
  ghost predicate AllLaid(records: seq<seq<Byte>>, entries: seq<Entry>, nextSensorId: nat) {
    && |records| == |entries|
    && forall i | 0 <= i < |records| :: Laid(records[i], entries[i], (nextSensorId + i + 1) % 0x10000)
  }

  lemma {:induction false} EmittedFit(entries: seq<Entry>)
    requires forall e | e in entries :: EntryFits(e)
    ensures forall e | e in EmittedOf(entries) :: EntryFits(e)
    decreases |entries|
  {
    if entries != [] {
      EmittedFit(entries[..|entries| - 1]);
    }
  }

  lemma {:induction false} DescribedAreLaid(records: seq<seq<Byte>>, entries: seq<Entry>, nextSensorId: nat)
    requires DescribesAll(records, entries, nextSensorId) && forall e | e in entries :: EntryFits(e)
    ensures AllLaid(records, entries, nextSensorId)
  {
    forall i | 0 <= i < |records| ensures Laid(records[i], entries[i], (nextSensorId + i + 1) % 0x10000) {
      assert entries[i] in entries;
      DescribedIsLaid(records[i], entries[i], SensorIdAfter(nextSensorId, i + 1));
    }
  }

  /** Up to 65536 records have different identifiers. */
  lemma {:induction false} IdentifiersDiffer(
    records: seq<seq<Byte>>, entries: seq<Entry>, nextSensorId: nat, i: nat, j: nat)
    requires AllLaid(records, entries, nextSensorId) && i < j < |records| <= 0x10000
    ensures 13 < |records[i]| && 13 < |records[j]|
    ensures records[i][12] != records[j][12] || records[i][13] != records[j][13]
  {
    var x, y := nextSensorId + i + 1, nextSensorId + j + 1;
    assert Laid(records[i], entries[i], x % 0x10000) && Laid(records[j], entries[j], y % 0x10000);
    RemaindersDiffer(x, y);
  }

  lemma {:induction false} RemaindersDiffer(x: nat, y: nat)
    requires x < y < x + 0x10000
    ensures x % 0x10000 != y % 0x10000
  {
  }

  /** generateStateSensorPDR: records for the entries in order, with consecutive sensor identifiers. */
  method GenerateStateSensorPDR(entries: seq<Entry>, nextSensorId: nat) returns (r: Option<seq<seq<Byte>>>)
    requires forall e | e in entries :: EntryFits(e)
    ensures r.None? <==> exists e :: e in entries && GivesError(e)
    ensures r.Some? ==> DescribesAll(r.value, EmittedOf(entries), nextSensorId)
    ensures r.Some? ==> exists emitted ::
              Picks(emitted, entries, (e: Entry) => GivesRecord(e)) && AllLaid(r.value, emitted, nextSensorId)
  {
    var records := [];
    for i := 0 to |entries|
      invariant forall k | 0 <= k < i :: !GivesError(entries[k])
      invariant DescribesAll(records, EmittedOf(entries[..i]), nextSensorId)
    {
      assert entries[..i + 1][..i] == entries[..i];
      assert entries[i] in entries;
      EmittedIff(entries[i]);
      var outcome := GenerateOne(entries[i], SensorIdAfter(nextSensorId, |records| + 1));
      if outcome.Throws? {
        return None;
      }
      if outcome.Record? {
        DescribesOneMore(records, EmittedOf(entries[..i]), nextSensorId, outcome.bytes, entries[i]);
        records := records + [outcome.bytes];
      }
    }
    assert entries[..|entries|] == entries;
    EmittedPicks(entries);
    EmittedFit(entries);
    DescribedAreLaid(records, EmittedOf(entries), nextSensorId);
    r := Some(records);
  }

  // ----- the readers

  /** What a reader takes an entry for. */
  datatype StateSet = StateSet(id: nat, states: set<nat>)

  /** The readers do not check bounds: the entries must lie within the record. */
  predicate Walkable(b: seq<Byte>, p: nat, n: nat)
    decreases n
  {
    n == 0 || (p + 3 <= |b| && p + 3 + b[p + 2] <= |b| && Walkable(b, p + 3 + b[p + 2], n - 1))
  }

  predicate IsPdr(b: seq<Byte>) {
    HEADER <= |b| && Walkable(b, HEADER, b[22])
  }

  /** PossibleStates is a set of uint8_t. */
  ghost function StatesAt(b: seq<Byte>, q: nat, limit: nat): set<nat> {
    Low8(set x: nat | x < limit && HasState(b, q, x))
  }

  ghost function Low8(xs: set<nat>): set<nat> {
    set x | x in xs :: x % 256
  }

  lemma {:induction false} Low8OfBytes(xs: set<nat>)
    requires forall x | x in xs :: x < 256
    ensures Low8(xs) == xs
  {
    forall x | x in xs ensures x in Low8(xs) {
      assert x == x % 256;
    }
  }

  lemma {:induction false} Low8OneMore(xs: set<nat>, x: nat)
    ensures Low8(xs + {x}) == Low8(xs) + {x % 256}
  {
    var more := Low8(xs) + {x % 256};
    forall y | y in Low8(xs + {x}) ensures y in more {
      var z :| z in xs + {x} && y == z % 256;
      assert z in xs || z == x;
    }
    forall y | y in more ensures y in Low8(xs + {x}) {
      if y == x % 256 {
        assert x in xs + {x};
      } else {
        var z :| z in xs && y == z % 256;
        assert z in xs + {x};
      }
    }
  }

  ghost function EntriesFrom(b: seq<Byte>, p: nat, n: nat): (r: seq<StateSet>)
    requires Walkable(b, p, n)
    ensures |r| == n
    decreases n
  {
    if n == 0 then []
    else
      var size: nat := b[p + 2];
      [StateSet(Le16(b[p], b[p + 1]), StatesAt(b, p + 3, 8 * size))] + EntriesFrom(b, p + 3 + size, n - 1)
  }

  /** The composite entries of a record. */
  ghost function Entries(b: seq<Byte>): seq<StateSet>
    requires IsPdr(b)
  {
    EntriesFrom(b, HEADER, b[22])
  }

  lemma {:induction false} OneMoreState(b: seq<Byte>, q: nat, n: nat)
    ensures StatesAt(b, q, n + 1) == StatesAt(b, q, n) + if HasState(b, q, n) then {n % 256} else {}
  {
    var raw := set x: nat | x < n && HasState(b, q, x);
    var more := set x: nat | x < n + 1 && HasState(b, q, x);
    assert more == raw + if HasState(b, q, n) then {n} else {};
    if HasState(b, q, n) {
      Low8OneMore(raw, n);
    }
  }

  /** The states of one bit field. */
  method ReadStates(b: seq<Byte>, q: nat, size: nat) returns (states: set<nat>)
    requires q + size <= |b|
    ensures states == StatesAt(b, q, 8 * size)
  {
    states := {};
    for pos := 0 to size
      invariant states == StatesAt(b, q, 8 * pos)
    {
      for i := 0 to 8
        invariant states == StatesAt(b, q, 8 * pos + i)
      {
        OneMoreState(b, q, 8 * pos + i);
        if Bit(b[q + pos], i) {
          states := states + {(pos * 8 + i) % 256};
        }
      }
    }
  }

  /** parseStateSensorPDR */
  method ParseStateSensorPDR(b: seq<Byte>)
    returns (terminus: nat, sensorId: nat, entity: Entity, sensors: seq<set<nat>>, stateSetIds: seq<nat>)
    requires IsPdr(b)
    ensures |sensors| == |stateSetIds| == |Entries(b)|
    ensures forall i | 0 <= i < |sensors| :: Entries(b)[i] == StateSet(stateSetIds[i], sensors[i])
    ensures terminus == Le16(b[10], b[11]) && sensorId == SensorId(b) && entity == PdrEntity(b)
  {
    var compositeSensorCount: nat, statesPtr: nat := b[22], HEADER;
    sensors, stateSetIds := [], [];
    while compositeSensorCount > 0
      invariant Walkable(b, statesPtr, compositeSensorCount)
      invariant |sensors| == |stateSetIds|
      invariant |Entries(b)| == |sensors| + compositeSensorCount
      invariant forall i | 0 <= i < |sensors| :: Entries(b)[i] == StateSet(stateSetIds[i], sensors[i])
      invariant Entries(b)[|sensors|..] == EntriesFrom(b, statesPtr, compositeSensorCount)
    {
      compositeSensorCount := compositeSensorCount - 1;
      var size: nat := b[statesPtr + 2];
      var states := ReadStates(b, statesPtr + 3, size);
      ghost var n := |sensors|;
      assert Entries(b)[n] == Entries(b)[n..][0];
      assert Entries(b)[n + 1..] == Entries(b)[n..][1..];
      sensors := sensors + [states];
      stateSetIds := stateSetIds + [Le16(b[statesPtr], b[statesPtr + 1])];
      statesPtr := statesPtr + 4 + size - 1;
    }
    terminus, sensorId, entity := Le16(b[10], b[11]), Le16(b[12], b[13]), PdrEntity(b);
  }

  function SensorId(b: seq<Byte>): nat
    requires IsPdr(b)
  {
    Le16(b[12], b[13])
  }

  function PdrEntity(b: seq<Byte>): Entity
    requires IsPdr(b)
  {
    Entity(Le16(b[14], b[15]), Le16(b[16], b[17]), Le16(b[18], b[19]))
  }

  /** Some entry of the record is for the state set. */
  ghost predicate Offers(b: seq<Byte>, stateSetId: nat)
    requires IsPdr(b)
  {
    exists i :: 0 <= i < |Entries(b)| && Entries(b)[i].id == stateSetId
  }

  /** The walk of both searches over the entries of one record: where `wanted` holds, does one have the set id? */
  method WalkEntries(b: seq<Byte>, wanted: bool, stateSetId: nat) returns (found: bool)
    requires IsPdr(b)
    ensures found <==> wanted && Offers(b, stateSetId)
  {
    var start: nat := HEADER;
    for n := 0 to b[22]
      invariant Walkable(b, start, b[22] - n)
      invariant wanted ==> forall i | 0 <= i < n :: Entries(b)[i].id != stateSetId
      invariant Entries(b)[n..] == EntriesFrom(b, start, b[22] - n)
    {
      assert Entries(b)[n] == Entries(b)[n..][0];
      assert Entries(b)[n + 1..] == Entries(b)[n..][1..];
      if wanted && Le16(b[start], b[start + 1]) == stateSetId {
        return true;
      }
      start := start + b[start + 2] + 2 + 1;
    }
    found := false;
  }

  ghost predicate Fits(b: seq<Byte>, entityType: nat, stateSetId: nat)
    requires IsPdr(b)
  {
    PdrEntity(b).kind == entityType && Offers(b, stateSetId)
  }

  ghost function Fitting(repo: seq<seq<Byte>>, entityType: nat, stateSetId: nat): seq<seq<Byte>>
    requires forall b | b in repo :: IsPdr(b)
  {
    if repo == [] then []
    else
      var b := repo[|repo| - 1];
      assert b in repo;
      Fitting(repo[..|repo| - 1], entityType, stateSetId) + if Fits(b, entityType, stateSetId) then [b] else []
  }

  /** findStateSensorPDR, over the state sensor PDRs of a repository. */
  method FindStateSensorPDR(repo: seq<seq<Byte>>, entityType: nat, stateSetId: nat) returns (pdrs: seq<seq<Byte>>)
    requires forall b | b in repo :: IsPdr(b)
    ensures pdrs == Fitting(repo, entityType, stateSetId)
  {
    pdrs := [];
    for n := 0 to |repo|
      invariant pdrs == Fitting(repo[..n], entityType, stateSetId)
    {
      var b := repo[n];
      assert repo[..n + 1][..n] == repo[..n];
      assert b in repo;
      var found := WalkEntries(b, Le16(b[14], b[15]) == entityType, stateSetId);
      if found {
        pdrs := pdrs + [b];
      }
    }
    assert repo[..|repo|] == repo;
  }

  ghost predicate IsFor(b: seq<Byte>, e: Entity, stateSetId: nat) {
    IsPdr(b) && PdrEntity(b) == e && Offers(b, stateSetId)
  }

  /** The sensor identifier of the first record for the entity that offers the state set. */
  ghost function FirstId(repo: seq<seq<Byte>>, e: Entity, stateSetId: nat): Option<nat>
    requires forall b | b in repo :: IsPdr(b)
  {
    if repo == [] then None
    else
      var b := repo[|repo| - 1];
      assert b in repo;
      var earlier := FirstId(repo[..|repo| - 1], e, stateSetId);
      if earlier.Some? then earlier
      else if IsFor(b, e, stateSetId) then Some(SensorId(b))
      else None
  }

  /** Narrowing the records down by entity type first loses none of them and keeps their order. */
  lemma {:induction false} FirstIdOfFitting(repo: seq<seq<Byte>>, e: Entity, stateSetId: nat)
    requires forall b | b in repo :: IsPdr(b)
    ensures forall b | b in Fitting(repo, e.kind, stateSetId) :: IsPdr(b)
    ensures FirstId(Fitting(repo, e.kind, stateSetId), e, stateSetId) == FirstId(repo, e, stateSetId)
    decreases |repo|
  {
    if repo != [] {
      var b, before := repo[|repo| - 1], repo[..|repo| - 1];
      FirstIdOfFitting(before, e, stateSetId);
      assert b in repo;
      var fitting := Fitting(before, e.kind, stateSetId);
      if Fits(b, e.kind, stateSetId) {
        var more := fitting + [b];
        assert Fitting(repo, e.kind, stateSetId) == more && more[|more| - 1] == b && more[..|more| - 1] == fitting;
      } else {
        assert Fitting(repo, e.kind, stateSetId) == fitting;
      }
    }
  }

  /** findStateSensorId; 0xFFFF when there is none. */
  method FindStateSensorId(repo: seq<seq<Byte>>, e: Entity, stateSetId: nat) returns (sensorId: nat)
    requires forall b | b in repo :: IsPdr(b)
    ensures sensorId == var first := FirstId(repo, e, stateSetId); if first.Some? then first.value else 0xFFFF
  {
    var pdrs := FindStateSensorPDR(repo, e.kind, stateSetId);
    FirstIdOfFitting(repo, e, stateSetId);
    for n := 0 to |pdrs|
      invariant FirstId(pdrs[..n], e, stateSetId).None?
    {
      var b := pdrs[n];
      assert b in pdrs;
      assert pdrs[..n + 1][..n] == pdrs[..n];
      var found := WalkEntries(b, PdrEntity(b) == e, stateSetId);
      if found {
        FirstIdOfPrefix(pdrs, n + 1, e, stateSetId);
        return SensorId(b);
      }
    }
    assert pdrs[..|pdrs|] == pdrs;
    sensorId := 0xFFFF;
  }

  lemma {:induction false} FirstIdOfPrefix(repo: seq<seq<Byte>>, n: nat, e: Entity, stateSetId: nat)
    requires n <= |repo| && (forall b | b in repo :: IsPdr(b)) && FirstId(repo[..n], e, stateSetId).Some?
    ensures FirstId(repo, e, stateSetId) == FirstId(repo[..n], e, stateSetId)
    decreases |repo|
  {
    if n < |repo| {
      var before := repo[..|repo| - 1];
      assert before[..n] == repo[..n];
      FirstIdOfPrefix(before, n, e, stateSetId);
    } else {
      assert repo[..n] == repo;
    }
  }

  /** The identifier is that of a record for the entity and the state set, and of the first such. */
  lemma {:induction false} FirstIdMeaning(repo: seq<seq<Byte>>, e: Entity, stateSetId: nat)
    requires forall b | b in repo :: IsPdr(b)
    ensures var first := FirstId(repo, e, stateSetId);
            if first.None? then forall i | 0 <= i < |repo| :: !IsFor(repo[i], e, stateSetId)
            else exists k: nat :: FirstAt(repo, e, stateSetId, k) && first.value == SensorId(repo[k])
    decreases |repo|
  {
    if repo != [] {
      var last := |repo| - 1;
      var before := repo[..last];
      FirstIdMeaning(before, e, stateSetId);
      if FirstId(before, e, stateSetId).Some? {
        var k: nat :| FirstAt(before, e, stateSetId, k) && FirstId(before, e, stateSetId).value == SensorId(before[k]);
        FirstAtInPrefix(repo, last, e, stateSetId, k);
      } else {
        assert forall i | 0 <= i < last :: before[i] == repo[i];
        assert IsFor(repo[last], e, stateSetId) ==> FirstAt(repo, e, stateSetId, last);
      }
    }
  }

  lemma {:induction false} FirstAtInPrefix(repo: seq<seq<Byte>>, n: nat, e: Entity, stateSetId: nat, k: nat)
    requires n <= |repo| && FirstAt(repo[..n], e, stateSetId, k)
    ensures FirstAt(repo, e, stateSetId, k) && repo[k] == repo[..n][k]
  {
    assert forall i | 0 <= i < n :: repo[..n][i] == repo[i];
  }

  ghost predicate FirstAt(repo: seq<seq<Byte>>, e: Entity, stateSetId: nat, k: nat) {
    k < |repo| && IsFor(repo[k], e, stateSetId) && forall i | 0 <= i < k :: !IsFor(repo[i], e, stateSetId)
  }

  // ----- what the readers make of what the writer wrote

  ghost function StatesOf(s: Sensor): set<nat> { set x: nat | x in s.states }

  /** The state sets of the configuration. */
  ghost function Configured(sensors: seq<Sensor>): seq<StateSet> {
    seq(|sensors|, i requires 0 <= i < |sensors| => StateSet(sensors[i].id, StatesOf(sensors[i])))
  }

  /** What a reader sees after w entries were written: these state sets, and then empty ones with number 0. */
  ghost function SeenAt(sensors: seq<Sensor>, w: nat, i: nat): StateSet
    requires i < |sensors|
  {
    if i < w then StateSet(sensors[i].id, StatesOf(sensors[i])) else StateSet(0, {})
  }

  ghost function Seen(sensors: seq<Sensor>): seq<StateSet> {
    seq(|sensors|, i requires 0 <= i < |sensors| => SeenAt(sensors, Written(sensors), i))
  }

  /** Where a reader finds entry i after w entries were written. */
  function Boundary(sensors: seq<Sensor>, w: nat, i: nat): nat
    requires w <= |sensors|
  {
    if i <= w then HEADER + Offset(sensors, i) else HEADER + Offset(sensors, w) + 3 * (i - w)
  }

  lemma {:induction false} StatesReadBack(b: seq<Byte>, q: nat, limit: nat, states: seq<Byte>)
    requires forall x: nat | x < limit :: HasState(b, q, x) <==> x in states
    requires forall x | x in states :: x < limit
    ensures StatesAt(b, q, limit) == set x: nat | x in states
  {
    var written := set x: nat | x in states;
    assert (set x: nat | x < limit && HasState(b, q, x)) == written;
    Low8OfBytes(written);
  }

  /** A reader at p takes the entry there for `seen` and goes on at `next`. */
  ghost predicate Sees(b: seq<Byte>, p: nat, next: nat, seen: StateSet) {
    p + 3 <= |b| && next <= |b| && EntryRead(b, p) == (seen, next)
  }

  ghost function EntryRead(b: seq<Byte>, p: nat): (StateSet, nat)
    requires p + 3 <= |b|
  {
    var size: nat := b[p + 2];
    (StateSet(Le16(b[p], b[p + 1]), StatesAt(b, p + 3, 8 * size)), p + 3 + size)
  }

  lemma {:induction false} SeesWritten(b: seq<Byte>, p: nat, s: Sensor)
    requires EntryAt(b, p, s) && SensorFits(s) && s.size > 0
    ensures Sees(b, p, p + 3 + s.size, StateSet(s.id, StatesOf(s)))
  {
    StatesReadBack(b, p + 3, 8 * s.size, s.states);
  }

  lemma {:induction false} SeesZeros(b: seq<Byte>, p: nat)
    requires p + 3 <= |b| && b[p] == b[p + 1] == b[p + 2] == 0
    ensures Sees(b, p, p + 3, StateSet(0, {}))
  {
    assert StatesAt(b, p + 3, 0) == {};
  }

  ghost predicate AllFit(sensors: seq<Sensor>) {
    forall s | s in sensors :: SensorFits(s) && s.size > 0
  }

  lemma {:induction false} StepInEntries(b: seq<Byte>, sensors: seq<Sensor>, w: nat, i: nat)
    requires i < w <= |sensors| && Placed(b, sensors, i) && SensorFits(sensors[i]) && sensors[i].size > 0
    ensures Sees(b, Boundary(sensors, w, i), Boundary(sensors, w, i + 1), SeenAt(sensors, w, i))
  {
    SeesWritten(b, HEADER + Offset(sensors, i), sensors[i]);
  }

  lemma {:induction false} StepInZeros(b: seq<Byte>, sensors: seq<Sensor>, w: nat, i: nat)
    requires w <= i < |sensors| && |b| == Size(sensors) && ZeroFrom(b, HEADER + Offset(sensors, w))
    ensures Sees(b, Boundary(sensors, w, i), Boundary(sensors, w, i + 1), SeenAt(sensors, w, i))
  {
    var p := Boundary(sensors, w, i);
    assert Boundary(sensors, w, i + 1) == p + 3 <= |b| by { OffsetMonotone(sensors, w, |sensors|); }
    assert b[p] == b[p + 1] == b[p + 2] == 0;
    SeesZeros(b, p);
  }

  /** One step of a reader: from boundary i to boundary i + 1, seeing entry i. */
  lemma {:induction false} StepReadsBack(b: seq<Byte>, sensors: seq<Sensor>, w: nat, i: nat)
    requires w <= |sensors| && WrittenTo(b, sensors, w) && i < |sensors| && SensorFits(sensors[i]) && sensors[i].size > 0
    ensures Sees(b, Boundary(sensors, w, i), Boundary(sensors, w, i + 1), SeenAt(sensors, w, i))
  {
    if i < w {
      StepInEntries(b, sensors, w, i);
    } else {
      StepInZeros(b, sensors, w, i);
    }
  }

  /** A reader that steps from one of these positions to the next sees these entries. */
  lemma {:induction false} WalkAlong(b: seq<Byte>, bounds: seq<nat>, seen: seq<StateSet>, i: nat)
    requires |bounds| == |seen| + 1 && i <= |seen|
    requires forall k | 0 <= k < |seen| :: Sees(b, bounds[k], bounds[k + 1], seen[k])
    ensures Walkable(b, bounds[i], |seen| - i)
    ensures EntriesFrom(b, bounds[i], |seen| - i) == seen[i..]
    decreases |seen| - i
  {
    if i < |seen| {
      WalkAlong(b, bounds, seen, i + 1);
      assert Sees(b, bounds[i], bounds[i + 1], seen[i]);
      assert seen[i..] == [seen[i]] + seen[i + 1..];
    }
  }

  lemma {:induction false} HeaderReadsBack(b: seq<Byte>, size: nat, sensorId: nat, e: Entity, count: Byte)
    requires EntityFits(e) && sensorId < 0x10000
    requires |b| >= HEADER && b[..HEADER] == Header(size, sensorId, e, count)
    ensures b[22] == count
    ensures Le16(b[10], b[11]) == 1 && Le16(b[12], b[13]) == sensorId
    ensures Le16(b[14], b[15]) == e.kind && Le16(b[16], b[17]) == e.instance && Le16(b[18], b[19]) == e.container
  {
    var h := Header(size, sensorId, e, count);
    assert forall k | 0 <= k < HEADER :: b[k] == b[..HEADER][k];
    BytesOf16(sensorId);
    BytesOf16(e.kind);
    BytesOf16(e.instance);
    BytesOf16(e.container);
  }

  /** The parser returns the identifier, the entity and the state sets of the entry that was written. */
  lemma {:induction false} ParseReadsBack(b: seq<Byte>, e: Entry, sensorId: nat)
    requires EntryFits(e) && !Aborts(e) && Describes(b, e, sensorId) && sensorId < 0x10000
    ensures IsPdr(b) && SensorId(b) == sensorId && PdrEntity(b) == EntityOf(e)
    ensures Entries(b) == Seen(e.sensors)
  {
    HeaderReadsBack(b, |b| - HDR_SIZE, sensorId, EntityOf(e), |e.sensors|);
    EntriesReadBack(b, e.sensors);
  }

  lemma {:induction false} EntriesReadBack(b: seq<Byte>, sensors: seq<Sensor>)
    requires AllFit(sensors) && WrittenTo(b, sensors, Written(sensors))
    ensures Walkable(b, HEADER, |sensors|) && EntriesFrom(b, HEADER, |sensors|) == Seen(sensors)
  {
    var w := Written(sensors);
    var bounds := seq(|sensors| + 1, i requires 0 <= i <= |sensors| => Boundary(sensors, w, i));
    StepsReadBack(b, sensors, w, bounds, Seen(sensors));
    WalkAlong(b, bounds, Seen(sensors), 0);
  }

  lemma {:induction false} StepsReadBack(
    b: seq<Byte>, sensors: seq<Sensor>, w: nat, bounds: seq<nat>, seen: seq<StateSet>)
    requires AllFit(sensors) && w <= |sensors| && WrittenTo(b, sensors, w)
    requires |bounds| == |sensors| + 1 && forall k | 0 <= k < |bounds| :: bounds[k] == Boundary(sensors, w, k)
    requires |seen| == |sensors| && forall k | 0 <= k < |seen| :: seen[k] == SeenAt(sensors, w, k)
    ensures forall k | 0 <= k < |seen| :: Sees(b, bounds[k], bounds[k + 1], seen[k])
  {
    forall k | 0 <= k < |seen| ensures Sees(b, bounds[k], bounds[k + 1], seen[k]) {
      assert sensors[k] in sensors;
      StepReadsBack(b, sensors, w, k);
      assert bounds[k] == Boundary(sensors, w, k) && bounds[k + 1] == Boundary(sensors, w, k + 1);
    }
  }

  lemma {:induction false} NoStatesIff(s: Sensor)
    ensures StatesOf(s) == {} <==> s.states == []
  {
    assert s.states != [] ==> s.states[0] in StatesOf(s);
  }

  /**
   The state sets are the configured ones exactly when every entry after the last one written is an empty set with
   number 0; so they are whenever all D-Bus lookups succeed, or only the last one fails.
   */
  lemma {:induction false} SeenIsConfiguredIff(sensors: seq<Sensor>)
    ensures Seen(sensors) == Configured(sensors)
       <==> forall i | Written(sensors) <= i < |sensors| :: sensors[i].id == 0 && sensors[i].states == []
  {
    var seen, all := Seen(sensors), Configured(sensors);
    if seen == all {
      forall i | Written(sensors) <= i < |sensors| ensures sensors[i].id == 0 && sensors[i].states == [] {
        assert seen[i] == all[i];
        NoStatesIff(sensors[i]);
      }
    }
    if forall i | Written(sensors) <= i < |sensors| :: sensors[i].id == 0 && sensors[i].states == [] {
      forall i | 0 <= i < |sensors| ensures seen[i] == all[i] {
        NoStatesIff(sensors[i]);
      }
    }
  }

  /** With all lookups succeeding, the boundaries are those of the sizing pass, and the last is the record's end. */
  lemma {:induction false} BoundariesOfSizingPass(sensors: seq<Sensor>, i: nat)
    requires i <= |sensors| && forall s | s in sensors :: s.found
    ensures Boundary(sensors, Written(sensors), i) == HEADER + Offset(sensors, i)
    ensures Boundary(sensors, Written(sensors), |sensors|) == Size(sensors)
    ensures Seen(sensors) == Configured(sensors)
  {
    assert Mapped(sensors, 0) == |sensors|;
    SeenIsConfiguredIff(sensors);
  }

  /** A reader of the record finds the state set. */
  ghost predicate Shows(sensors: seq<Sensor>, stateSetId: nat) {
    exists i :: 0 <= i < |sensors| && SeenAt(sensors, Written(sensors), i).id == stateSetId
  }

  /** Some sensor is configured with it. */
  ghost predicate Configures(sensors: seq<Sensor>, stateSetId: nat) {
    exists i :: 0 <= i < |sensors| && sensors[i].id == stateSetId
  }

  ghost predicate WritesSet(sensors: seq<Sensor>, stateSetId: nat) {
    exists i :: 0 <= i < Written(sensors) && sensors[i].id == stateSetId
  }

  /** A record shows the state sets that were written, and set 0 if something was left out. */
  lemma {:induction false} ShowsIff(sensors: seq<Sensor>, stateSetId: nat)
    ensures Shows(sensors, stateSetId)
       <==> WritesSet(sensors, stateSetId) || (stateSetId == 0 && Written(sensors) < |sensors|)
  {
    var w := Written(sensors);
    if i :| 0 <= i < w && sensors[i].id == stateSetId {
      assert SeenAt(sensors, w, i).id == stateSetId;
    }
    if w < |sensors| {
      assert SeenAt(sensors, w, w).id == 0;
    }
    if i :| 0 <= i < |sensors| && SeenAt(sensors, w, i).id == stateSetId {
      assert i < w ==> sensors[i].id == stateSetId;
    }
  }

  /** Every entry that was left out is for set 0 or for a set that was written, and if there is one, 0 is configured. */
  ghost predicate NothingMissed(sensors: seq<Sensor>) {
    var w := Written(sensors);
    w < |sensors| ==>
      && Configures(sensors, 0)
      && forall i | w <= i < |sensors| :: sensors[i].id == 0 || WritesSet(sensors, sensors[i].id)
  }

  /** A record shows exactly the configured state sets, in the eyes of a search, if and only if nothing is missed. */
  lemma {:induction false} ShowsConfiguredIff(sensors: seq<Sensor>)
    ensures (forall id: nat :: Shows(sensors, id) <==> Configures(sensors, id)) <==> NothingMissed(sensors)
  {
    var w := Written(sensors);
    forall id: nat ensures Shows(sensors, id) <==> WritesSet(sensors, id) || (id == 0 && w < |sensors|) {
      ShowsIff(sensors, id);
    }
    if forall id: nat :: Shows(sensors, id) <==> Configures(sensors, id) {
      assert w < |sensors| ==> Shows(sensors, 0) && Configures(sensors, 0);
      forall i | w <= i < |sensors| ensures sensors[i].id == 0 || WritesSet(sensors, sensors[i].id) {
        assert Configures(sensors, sensors[i].id) && Shows(sensors, sensors[i].id);
      }
    }
    if NothingMissed(sensors) {
      forall id: nat ensures Shows(sensors, id) <==> Configures(sensors, id) {
        if i :| 0 <= i < |sensors| && sensors[i].id == id {
          assert i < w ==> WritesSet(sensors, id);
        }
      }
    }
  }

  /** A search for an entity type and a state set finds a generated record exactly when the record shows them. */
  lemma {:induction false} FindsGenerated(b: seq<Byte>, e: Entry, sensorId: nat, entityType: nat, stateSetId: nat)
    requires EntryFits(e) && !Aborts(e) && Describes(b, e, sensorId) && sensorId < 0x10000
    ensures IsPdr(b)
    ensures Fits(b, entityType, stateSetId) <==> EntityOf(e).kind == entityType && Shows(e.sensors, stateSetId)
  {
    ParseReadsBack(b, e, sensorId);
    var entries := Entries(b);
    assert forall i | 0 <= i < |entries| :: entries[i] == SeenAt(e.sensors, Written(e.sensors), i);
    if i :| 0 <= i < |e.sensors| && SeenAt(e.sensors, Written(e.sensors), i).id == stateSetId {
      assert entries[i].id == stateSetId;
    }
  }

  /** A record with an entry left out is found for set 0, which none of its sensors need be configured with. */
  lemma {:induction false} LeftOutIsFoundAsZero(b: seq<Byte>, e: Entry, sensorId: nat)
    requires EntryFits(e) && !Aborts(e) && Describes(b, e, sensorId) && sensorId < 0x10000
    requires Written(e.sensors) < |e.sensors|
    ensures IsPdr(b) && Fits(b, EntityOf(e).kind, 0)
  {
    FindsGenerated(b, e, sensorId, EntityOf(e).kind, 0);
    ShowsIff(e.sensors, 0);
  }

  /** The entry is for the entity type, and its record shows the state set. */
  ghost predicate Answers(e: Entry, entityType: nat, stateSetId: nat) {
    EntityOf(e).kind == entityType && Shows(e.sensors, stateSetId)
  }

  /** The records of the entries that answer, in order. */
  ghost function RecordsAnswering(records: seq<seq<Byte>>, entries: seq<Entry>, entityType: nat, stateSetId: nat): seq<seq<Byte>>
    requires |records| == |entries|
  {
    if records == [] then []
    else
      var last := |records| - 1;
      RecordsAnswering(records[..last], entries[..last], entityType, stateSetId)
      + if Answers(entries[last], entityType, stateSetId) then [records[last]] else []
  }

  lemma {:induction false} DescribesPrefix(records: seq<seq<Byte>>, entries: seq<Entry>, nextSensorId: nat)
    requires records != [] && DescribesAll(records, entries, nextSensorId)
    ensures var last := |records| - 1;
            && DescribesAll(records[..last], entries[..last], nextSensorId)
            && Describes(records[last], entries[last], SensorIdAfter(nextSensorId, last + 1))
  {
    var last := |records| - 1;
    forall i | 0 <= i < last
      ensures Describes(records[..last][i], entries[..last][i], SensorIdAfter(nextSensorId, i + 1))
    {
      assert records[..last][i] == records[i] && entries[..last][i] == entries[i];
    }
  }

  ghost predicate Generates(e: Entry) { EntryFits(e) && !Aborts(e) }

  /** Searching all that was generated finds exactly the records that show the entity type and state set, in order. */
  lemma {:induction false} SearchOfGenerated(
    records: seq<seq<Byte>>, entries: seq<Entry>, nextSensorId: nat, entityType: nat, stateSetId: nat)
    requires DescribesAll(records, entries, nextSensorId) && forall i | 0 <= i < |entries| :: Generates(entries[i])
    ensures forall b | b in records :: IsPdr(b)
    ensures Fitting(records, entityType, stateSetId) == RecordsAnswering(records, entries, entityType, stateSetId)
    decreases |records|
  {
    if records != [] {
      var last := |records| - 1;
      DescribesPrefix(records, entries, nextSensorId);
      SearchOfGenerated(records[..last], entries[..last], nextSensorId, entityType, stateSetId);
      assert Generates(entries[last]);
      FindsGenerated(records[last], entries[last], SensorIdAfter(nextSensorId, last + 1), entityType, stateSetId);
      assert forall b | b in records :: b in records[..last] || b == records[last];
    }
  }

  // ----- the readers, byte by byte

  /** The positions of the entries: the first is 23, and each is followed by the next 3 bytes and its size later. */
  ghost predicate StartsAt(b: seq<Byte>, starts: seq<nat>) {
    && |b| >= 23 && |starts| == b[22] && (starts != [] ==> starts[0] == 23)
    && (forall i | 0 <= i < |starts| :: starts[i] + 2 < |b|)
    && (forall i | 0 <= i < |starts| - 1 :: starts[i + 1] == starts[i] + 3 + b[starts[i] + 2])
  }

  ghost function StartsFrom(b: seq<Byte>, p: nat, n: nat): (r: seq<nat>)
    requires Walkable(b, p, n)
    ensures |r| == n
    decreases n
  {
    if n == 0 then [] else [p] + StartsFrom(b, p + 3 + b[p + 2], n - 1)
  }

  /** The state is in the set exactly when its bit is set; states are taken modulo 256. */
  ghost predicate SetRead(b: seq<Byte>, p: nat, read: StateSet) {
    && Holds16(b, p, read.id) && p + 2 < |b|
    && forall y: nat :: y in read.states <==> exists x: nat :: x < 8 * (b[p + 2] as int) && StateBit(b, p + 3, x) && y == x % 256
  }

  lemma {:induction false} StatesAtRead(b: seq<Byte>, q: nat, limit: nat, y: nat)
    ensures y in StatesAt(b, q, limit) <==> exists x: nat :: x < limit && StateBit(b, q, x) && y == x % 256
  {
    forall x: nat ensures StateBit(b, q, x) <==> HasState(b, q, x) {
      StateBitIff(b, q, x);
    }
    var raw := set x: nat | x < limit && HasState(b, q, x);
    assert StatesAt(b, q, limit) == Low8(raw);
    if x: nat :| x < limit && StateBit(b, q, x) && y == x % 256 {
      assert x in raw;
    }
    if y in StatesAt(b, q, limit) {
      var x :| x in raw && y == x % 256;
    }
  }

  lemma {:induction false} FirstEntryRead(b: seq<Byte>, p: nat, n: nat)
    requires Walkable(b, p, n) && n > 0
    ensures SetRead(b, p, EntriesFrom(b, p, n)[0])
  {
    var limit := 8 * (b[p + 2] as int);
    forall y: nat
      ensures y in EntriesFrom(b, p, n)[0].states <==> exists x: nat :: x < limit && StateBit(b, p + 3, x) && y == x % 256 {
      StatesAtRead(b, p + 3, limit, y);
    }
  }

  lemma {:induction false} EntriesFromRead(b: seq<Byte>, p: nat, n: nat, i: nat)
    requires Walkable(b, p, n) && i < n
    ensures SetRead(b, StartsFrom(b, p, n)[i], EntriesFrom(b, p, n)[i])
    decreases n
  {
    if i == 0 {
      FirstEntryRead(b, p, n);
    } else {
      EntriesFromRead(b, p + 3 + b[p + 2], n - 1, i - 1);
    }
  }

  lemma {:induction false} StartsFromAt(b: seq<Byte>, p: nat, n: nat, i: nat)
    requires Walkable(b, p, n) && i < n
    ensures i == 0 ==> StartsFrom(b, p, n)[i] == p
    ensures i > 0 ==> var before := StartsFrom(b, p, n)[i - 1];
                      before + 2 < |b| && StartsFrom(b, p, n)[i] == before + 3 + b[before + 2]
    ensures StartsFrom(b, p, n)[i] + 2 < |b|
    decreases n
  {
    if i > 0 {
      StartsFromAt(b, p + 3 + b[p + 2], n - 1, i - 1);
    }
  }

  lemma {:induction false} StartsUnique(b: seq<Byte>, p: nat, n: nat, starts: seq<nat>, i: nat)
    requires Walkable(b, p, n) && |starts| == n && i < n && starts[0] == p
    requires forall k | 0 <= k < n :: starts[k] + 2 < |b|
    requires forall k | 0 <= k < n - 1 :: starts[k + 1] == starts[k] + 3 + b[starts[k] + 2]
    ensures starts[i] == StartsFrom(b, p, n)[i]
    decreases i
  {
    StartsFromAt(b, p, n, i);
    if i > 0 {
      StartsUnique(b, p, n, starts, i - 1);
    }
  }

  lemma {:induction false} StartsFromStartsAt(b: seq<Byte>)
    requires IsPdr(b)
    ensures StartsAt(b, StartsFrom(b, HEADER, b[22]))
  {
    var n: nat := b[22];
    var starts := StartsFrom(b, HEADER, n);
    forall i | 0 <= i < n ensures starts[i] + 2 < |b| && (i == 0 ==> starts[i] == HEADER) {
      StartsFromAt(b, HEADER, n, i);
    }
    forall i | 0 <= i < n - 1 ensures starts[i + 1] == starts[i] + 3 + b[starts[i] + 2] {
      StartsFromAt(b, HEADER, n, i + 1);
    }
  }

  /** What the parser and the searches take a record for: at each position its state set, with the bits as they are. */
  lemma {:induction false} EntriesAreRead(b: seq<Byte>)
    requires IsPdr(b)
    ensures var starts := StartsFrom(b, HEADER, b[22]);
            StartsAt(b, starts) && forall i | 0 <= i < |starts| :: SetRead(b, starts[i], Entries(b)[i])
  {
    StartsFromStartsAt(b);
    var n: nat := b[22];
    forall i | 0 <= i < n ensures SetRead(b, StartsFrom(b, HEADER, n)[i], EntriesFrom(b, HEADER, n)[i]) {
      EntriesFromRead(b, HEADER, n, i);
    }
  }

  /** The record is for the entity type, and an entry of it has the state set number. */
  ghost predicate Carries(b: seq<Byte>, entityType: nat, stateSetId: nat) {
    Holds16(b, 14, entityType) && CarriesSet(b, stateSetId)
  }

  ghost predicate CarriesSet(b: seq<Byte>, stateSetId: nat) {
    exists starts, i :: StartsAt(b, starts) && 0 <= i < |starts| && Holds16(b, starts[i], stateSetId)
  }

  lemma {:induction false} OffersIff(b: seq<Byte>, stateSetId: nat)
    requires IsPdr(b)
    ensures Offers(b, stateSetId) <==> CarriesSet(b, stateSetId)
  {
    EntriesAreRead(b);
    var starts := StartsFrom(b, HEADER, b[22]);
    if i :| 0 <= i < |Entries(b)| && Entries(b)[i].id == stateSetId {
      assert SetRead(b, starts[i], Entries(b)[i]);
    }
    if other, i :| StartsAt(b, other) && 0 <= i < |other| && Holds16(b, other[i], stateSetId) {
      StartsUnique(b, HEADER, b[22], other, i);
      assert SetRead(b, starts[i], Entries(b)[i]);
    }
  }

  /** findStateSensorPDR returns, in order, exactly the records that carry the entity type and the state set. */
  lemma {:induction false} FittingPicks(repo: seq<seq<Byte>>, entityType: nat, stateSetId: nat)
    requires forall b | b in repo :: IsPdr(b)
    ensures Picks(Fitting(repo, entityType, stateSetId), repo, (b: seq<Byte>) => Carries(b, entityType, stateSetId))
    decreases |repo|
  {
    var has := (b: seq<Byte>) => Carries(b, entityType, stateSetId);
    if repo == [] {
      PicksNothing(has);
    } else {
      var last, before := repo[|repo| - 1], repo[..|repo| - 1];
      assert last in repo;
      FittingPicks(before, entityType, stateSetId);
      OffersIff(last, stateSetId);
      PicksAppend(Fitting(before, entityType, stateSetId), before, has, last);
      assert repo == before + [last];
    }
  }

  /** findStateSensorId gives bytes 12 and 13 of the first record for the entity that carries the state set. */
  lemma {:induction false} FirstIdCarries(repo: seq<seq<Byte>>, e: Entity, stateSetId: nat)
    requires forall b | b in repo :: IsPdr(b)
    ensures var first := FirstId(repo, e, stateSetId);
            if first.None? then forall i | 0 <= i < |repo| :: !CarriesFor(repo[i], e, stateSetId)
            else exists k: nat :: k < |repo| && CarriesFor(repo[k], e, stateSetId) && Holds16(repo[k], 12, first.value)
                                  && forall i | 0 <= i < k :: !CarriesFor(repo[i], e, stateSetId)
  {
    FirstIdMeaning(repo, e, stateSetId);
    forall i | 0 <= i < |repo| ensures CarriesFor(repo[i], e, stateSetId) <==> IsFor(repo[i], e, stateSetId) {
      assert repo[i] in repo;
      OffersIff(repo[i], stateSetId);
    }
    if FirstId(repo, e, stateSetId).Some? {
      var k: nat :| FirstAt(repo, e, stateSetId, k) && FirstId(repo, e, stateSetId).value == SensorId(repo[k]);
      assert CarriesFor(repo[k], e, stateSetId) && Holds16(repo[k], 12, SensorId(repo[k]));
    }
  }

  /** The record is for the entity, in all three numbers, and carries the state set. */
  ghost predicate CarriesFor(b: seq<Byte>, e: Entity, stateSetId: nat) {
    Carries(b, e.kind, stateSetId) && Holds16(b, 16, e.instance) && Holds16(b, 18, e.container)
  }
}
