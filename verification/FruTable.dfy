/**
 The FRU record table (Table 2 of DSP0257 1.0.0): built by FruImpl::populateRecords, edited by
 FruImpl::deleteFRURecord (libpldmresponder/fru.cpp) and read by parseFruRecordTable
 (libpldmresponder/pdr_utils.cpp). The three walk the same bytes with code of their own.
 */
module FruTable {
  import opened Wrappers
  import opened Bytes

  datatype Field = Field(kind: Byte, value: seq<Byte>)

  datatype Record = Record(rsi: nat, recType: Byte, encType: Byte, fields: seq<Field>)

  const RECORD_HEADER: nat := 5   // identifier (2), record type, number of fields, encoding type
  const MIN_TABLE: nat := 7       // fruRecordDataFormatLength
  const FIELD_HEADER: nat := 2    // field type, field length
  const SIZEOF_TLV: nat := 3      // sizeof(pldm_fru_record_tlv), which counts one value byte
  const U16: nat := 0x1_0000

  /** `++` on a uint16_t counter. */
  function Inc16(n: nat): nat {
    if n + 1 >= U16 then 0 else n + 1
  }

  /** `--` on a uint16_t counter, d times. */
  function Less16(n: nat, d: nat): nat {
    if d <= n then n - d else (n - d) % U16
  }

  // ----- the format

  predicate FieldFits(f: Field) { |f.value| < 256 }

  predicate RecordFits(r: Record) {
    r.rsi < U16 && |r.fields| < 256 && forall f | f in r.fields :: FieldFits(f)
  }

  function EncodeField(f: Field): seq<Byte> {
    [f.kind, Low(|f.value|)] + f.value
  }

  function EncodeFields(fields: seq<Field>): seq<Byte> {
    if fields == [] then [] else EncodeField(fields[0]) + EncodeFields(fields[1..])
  }

  function Header(rsi: nat, recType: Byte, count: nat, encType: Byte): seq<Byte> {
    [Low(rsi), Low(High(rsi)), recType, Low(count), encType]
  }

  function EncodeRecord(r: Record): seq<Byte> {
    Header(r.rsi, r.recType, |r.fields|, r.encType) + EncodeFields(r.fields)
  }

  function Encode(rs: seq<Record>): seq<Byte> {
    if rs == [] then [] else EncodeRecord(rs[0]) + Encode(rs[1..])
  }

  // ----- decoding, from a position in the table on

  datatype Fields = CutFields | Fields(fields: seq<Field>, end: nat)

  function DecodeFields(data: seq<Byte>, at: nat, count: nat): Fields
    requires at <= |data|
    decreases count
  {
    if count == 0 then Fields([], at)
    else if |data| - at < FIELD_HEADER || |data| - at - FIELD_HEADER < data[at + 1] then CutFields
    else
      var end := at + FIELD_HEADER + data[at + 1];
      Ahead([Field(data[at], data[at + FIELD_HEADER..end])], DecodeFields(data, end, count - 1))
  }

  function Ahead(fields: seq<Field>, r: Fields): Fields {
    if r.CutFields? then r else r.(fields := fields + r.fields)
  }

  lemma {:induction false} DecodedFieldsWithin(data: seq<Byte>, at: nat, count: nat)
    requires at <= |data|
    ensures var r := DecodeFields(data, at, count);
            r.Fields? ==> at <= r.end <= |data| && |r.fields| == count && forall f | f in r.fields :: FieldFits(f)
    decreases count
  {
    if count > 0 && |data| - at >= FIELD_HEADER && |data| - at - FIELD_HEADER >= data[at + 1] {
      DecodedFieldsWithin(data, at + FIELD_HEADER + data[at + 1], count - 1);
    }
  }

  datatype Records = CutRecords | Records(records: seq<Record>)

  function RecordAt(data: seq<Byte>, at: nat, fields: seq<Field>): Record
    requires at + RECORD_HEADER <= |data|
  {
    Record(Le16(data[at], data[at + 1]), data[at + 2], data[at + 4], fields)
  }

  function DecodeRecords(data: seq<Byte>, at: nat): Records
    requires at <= |data|
    decreases |data| - at
  {
    if at == |data| then Records([])
    else if |data| - at < RECORD_HEADER then CutRecords
    else
      DecodedFieldsWithin(data, at + RECORD_HEADER, data[at + 3]);
      var r := DecodeFields(data, at + RECORD_HEADER, data[at + 3]);
      if r.CutFields? then CutRecords
      else AheadRecords([RecordAt(data, at, r.fields)], DecodeRecords(data, r.end))
  }

  function AheadRecords(rs: seq<Record>, r: Records): Records {
    if r.CutRecords? then r else Records(rs + r.records)
  }

  /** What parseFruRecordTable returns: nothing for a table that is too short or damaged. */
  function ParseTable(data: seq<Byte>): seq<Record> {
    if |data| < MIN_TABLE then []
    else var r := DecodeRecords(data, 0); if r.CutRecords? then [] else r.records
  }

  // ----- decoding and encoding undo each other

  /** `bytes` stand in `data` from position `at` on. */
  predicate Holds(data: seq<Byte>, at: nat, bytes: seq<Byte>) {
    at + |bytes| <= |data| && data[at..at + |bytes|] == bytes
  }

  lemma {:induction false} HoldsSplit(data: seq<Byte>, at: nat, a: seq<Byte>, b: seq<Byte>)
    requires Holds(data, at, a + b)
    ensures Holds(data, at, a) && Holds(data, at + |a|, b)
  {
    var both := data[at..at + |a + b|];
    assert both[..|a|] == a && both[|a|..] == b;
    assert data[at..at + |a|] == both[..|a|];
    assert data[at + |a|..at + |a| + |b|] == both[|a|..];
  }

  lemma {:induction false} FieldLayout(data: seq<Byte>, at: nat, f: Field)
    requires FieldFits(f) && Holds(data, at, EncodeField(f))
    ensures data[at] == f.kind && data[at + 1] == |f.value|
    ensures data[at + FIELD_HEADER..at + FIELD_HEADER + |f.value|] == f.value
  {
    var bytes := data[at..at + |EncodeField(f)|];
    assert data[at] == bytes[0] && data[at + 1] == bytes[1];
    assert bytes[FIELD_HEADER..] == f.value;
  }

  /** A decoder at the encoding of a field reads that field and goes on behind it. */
  lemma {:induction false} FieldReadsBack(data: seq<Byte>, at: nat, f: Field, rest: seq<Field>, end: nat)
    requires FieldFits(f) && Holds(data, at, EncodeField(f))
    requires var tail := DecodeFields(data, at + |EncodeField(f)|, |rest|);
             tail.Fields? && tail.fields == rest && tail.end == end
    ensures var r := DecodeFields(data, at, |rest| + 1); r.Fields? && r.fields == [f] + rest && r.end == end
  {
    FieldLayout(data, at, f);
  }

  lemma {:induction false} DecodeEncodeFields(data: seq<Byte>, at: nat, fields: seq<Field>)
    requires forall f | f in fields :: FieldFits(f)
    requires Holds(data, at, EncodeFields(fields))
    ensures var r := DecodeFields(data, at, |fields|);
            r.Fields? && r.fields == fields && r.end == at + |EncodeFields(fields)|
    decreases |fields|
  {
    if fields != [] {
      var f, rest := fields[0], fields[1..];
      var end := at + |EncodeFields(fields)|;
      assert EncodeFields(fields) == EncodeField(f) + EncodeFields(rest);
      HoldsSplit(data, at, EncodeField(f), EncodeFields(rest));
      DecodeEncodeFields(data, at + |EncodeField(f)|, rest);
      assert FieldFits(f);
      FieldReadsBack(data, at, f, rest, end);
      assert |rest| + 1 == |fields| && [f] + rest == fields;
    }
  }

  /** The header of an encoded record, and its fields, as the readers find them. */
  lemma {:induction false} HeaderLayout(data: seq<Byte>, at: nat, r: Record)
    requires RecordFits(r) && Holds(data, at, EncodeRecord(r))
    ensures at + RECORD_HEADER <= |data| && RecordAt(data, at, r.fields) == r && data[at + 3] == |r.fields|
    ensures Holds(data, at + RECORD_HEADER, EncodeFields(r.fields))
  {
    var header := Header(r.rsi, r.recType, |r.fields|, r.encType);
    HoldsSplit(data, at, header, EncodeFields(r.fields));
    var bytes := data[at..at + RECORD_HEADER];
    assert data[at] == bytes[0] && data[at + 1] == bytes[1] && data[at + 2] == bytes[2]
        && data[at + 3] == bytes[3] && data[at + 4] == bytes[4];
  }

  /** A decoder at the encoding of a record reads that record and goes on behind it. */
  lemma {:induction false} RecordReadsBack(data: seq<Byte>, at: nat, r: Record, rest: seq<Record>)
    requires RecordFits(r) && Holds(data, at, EncodeRecord(r))
    requires var tail := DecodeRecords(data, at + |EncodeRecord(r)|); tail.Records? && tail.records == rest
    ensures DecodeRecords(data, at).Records? && DecodeRecords(data, at).records == [r] + rest
  {
    HeaderLayout(data, at, r);
    DecodeEncodeFields(data, at + RECORD_HEADER, r.fields);
  }

  lemma {:induction false} DecodeEncode(data: seq<Byte>, at: nat, rs: seq<Record>)
    requires forall r | r in rs :: RecordFits(r)
    requires Holds(data, at, Encode(rs)) && at + |Encode(rs)| == |data|
    ensures DecodeRecords(data, at).Records? && DecodeRecords(data, at).records == rs
    decreases |rs|
  {
    if rs != [] {
      var r, rest := rs[0], rs[1..];
      assert Encode(rs) == EncodeRecord(r) + Encode(rest);
      HoldsSplit(data, at, EncodeRecord(r), Encode(rest));
      DecodeEncode(data, at + |EncodeRecord(r)|, rest);
      assert RecordFits(r);
      RecordReadsBack(data, at, r, rest);
      assert [r] + rest == rs;
    }
  }

  lemma {:induction false} FieldWritesBack(data: seq<Byte>, at: nat, next: nat)
    requires at + FIELD_HEADER <= next <= |data| && next == at + FIELD_HEADER + data[at + 1]
    ensures EncodeField(Field(data[at], data[at + FIELD_HEADER..next])) == data[at..next]
  {
  }

  lemma {:induction false} EncodeFieldsCons(f: Field, fields: seq<Field>)
    ensures EncodeFields([f] + fields) == EncodeField(f) + EncodeFields(fields)
  {
    assert ([f] + fields)[1..] == fields;
  }

  lemma {:induction false} EncodeDecodeFields(data: seq<Byte>, at: nat, count: nat, r: Fields)
    requires at <= |data| && r == DecodeFields(data, at, count) && r.Fields?
    ensures at <= r.end <= |data| && EncodeFields(r.fields) == data[at..r.end]
    decreases count
  {
    if count > 0 {
      var next := at + FIELD_HEADER + data[at + 1];
      var f, tail := Field(data[at], data[at + FIELD_HEADER..next]), DecodeFields(data, next, count - 1);
      assert r == Ahead([f], tail);
      EncodeDecodeFields(data, next, count - 1, tail);
      FieldWritesBack(data, at, next);
      EncodeFieldsCons(f, tail.fields);
      assert data[at..next] + data[next..tail.end] == data[at..tail.end];
    }
  }

  lemma {:induction false} EncodedRecordAt(data: seq<Byte>, at: nat, fields: seq<Field>, end: nat)
    requires at + RECORD_HEADER <= end <= |data|
    requires |fields| == data[at + 3] && EncodeFields(fields) == data[at + RECORD_HEADER..end]
    ensures EncodeRecord(RecordAt(data, at, fields)) == data[at..end]
  {
    var r := RecordAt(data, at, fields);
    var header := Header(r.rsi, r.recType, |r.fields|, r.encType);
    assert header == data[at..at + RECORD_HEADER];
    assert header + data[at + RECORD_HEADER..end] == data[at..end];
  }

  /** A record that was read fits the format and encodes to the bytes it was read from. */
  lemma {:induction false} RecordWritesBack(data: seq<Byte>, at: nat, f: Fields)
    requires at + RECORD_HEADER <= |data| && f.Fields?
    requires f == DecodeFields(data, at + RECORD_HEADER, data[at + 3])
    ensures at < f.end <= |data| && RecordFits(RecordAt(data, at, f.fields))
    ensures EncodeRecord(RecordAt(data, at, f.fields)) == data[at..f.end]
  {
    DecodedFieldsWithin(data, at + RECORD_HEADER, data[at + 3]);
    EncodeDecodeFields(data, at + RECORD_HEADER, data[at + 3], f);
    EncodedRecordAt(data, at, f.fields, f.end);
  }

  lemma {:induction false} EncodeCons(r: Record, rs: seq<Record>)
    ensures Encode([r] + rs) == EncodeRecord(r) + Encode(rs)
  {
    assert ([r] + rs)[1..] == rs;
  }

  lemma {:induction false} EncodedFrom(data: seq<Byte>, at: nat, end: nat, r: Record, rs: seq<Record>)
    requires at <= end <= |data| && EncodeRecord(r) == data[at..end] && Encode(rs) == data[end..]
    ensures Encode([r] + rs) == data[at..]
  {
    EncodeCons(r, rs);
    assert data[at..] == data[at..end] + data[end..];
  }

  lemma {:induction false} EncodeDecode(data: seq<Byte>, at: nat)
    requires at <= |data| && DecodeRecords(data, at).Records?
    ensures var rs := DecodeRecords(data, at).records;
            Encode(rs) == data[at..] && forall r | r in rs :: RecordFits(r)
    decreases |data| - at
  {
    if at < |data| {
      var f := DecodeFields(data, at + RECORD_HEADER, data[at + 3]);
      RecordWritesBack(data, at, f);
      EncodeDecode(data, f.end);
      var r, rs := RecordAt(data, at, f.fields), DecodeRecords(data, f.end).records;
      assert DecodeRecords(data, at).records == [r] + rs;
      EncodedFrom(data, at, f.end, r, rs);
    }
  }

  lemma {:induction false} EncodedLength(rs: seq<Record>)
    requires forall r | r in rs :: |r.fields| > 0
    ensures |Encode(rs)| >= MIN_TABLE * |rs|
  {
    if rs != [] {
      EncodedLength(rs[1..]);
    }
  }

  /** The parser inverts the encoding of every list of records with at least one field and byte-sized lengths. */
  lemma {:induction false} ParseInvertsEncode(rs: seq<Record>)
    requires forall r | r in rs :: RecordFits(r) && |r.fields| > 0
    ensures ParseTable(Encode(rs)) == rs
  {
    DecodeEncode(Encode(rs), 0, rs);
    EncodedLength(rs);
  }

  /** Whatever bytes the parser turns into records, encoding those records gives the bytes back. */
  lemma {:induction false} EncodeInvertsParse(data: seq<Byte>)
    requires ParseTable(data) != []
    ensures Encode(ParseTable(data)) == data
    ensures forall r | r in ParseTable(data) :: RecordFits(r)
  {
    EncodeDecode(data, 0);
    assert data[0..] == data;
  }

  /** A table of at least the minimal length is parsed exactly when it is the encoding of some records. */
  lemma {:induction false} ParsedIffEncoding(data: seq<Byte>)
    requires |data| >= MIN_TABLE
    ensures ParseTable(data) != [] <==> exists rs: seq<Record> :: (forall r | r in rs :: RecordFits(r)) && Encode(rs) == data
  {
    if ParseTable(data) != [] {
      EncodeInvertsParse(data);
    }
    forall rs: seq<Record> | (forall r | r in rs :: RecordFits(r)) && Encode(rs) == data
      ensures ParseTable(data) != []
    {
      DecodeEncode(data, 0, rs);
    }
  }

  // ----- the parser

  method ParseFields(data: seq<Byte>, start: nat, count: Byte) returns (ok: bool, fields: seq<Field>, index: nat)
    requires start <= |data|
    ensures start <= index <= |data|
    ensures DecodeFields(data, start, count) == if ok then Fields(fields, index) else CutFields
  {
    index, fields := start, [];
    for field := 0 to count
      invariant start <= index <= |data|
      invariant DecodeFields(data, start, count) == Ahead(fields, DecodeFields(data, index, count - field))
    {
      if FIELD_HEADER > |data| - index {
        return false, [], index;
      }
      var kind, length := data[index], data[index + 1];
      if length > |data| - (index + FIELD_HEADER) {
        return false, [], index;
      }
      var f := Field(kind, data[index + FIELD_HEADER..index + FIELD_HEADER + length]);
      ghost var next := index + FIELD_HEADER + length;
      assert DecodeFields(data, index, count - field) == Ahead([f], DecodeFields(data, next, count - field - 1));
      AheadTwice(fields, f, DecodeFields(data, next, count - field - 1));
      index := index + FIELD_HEADER + length;
      fields := fields + [f];
    }
    ok := true;
  }

  lemma {:induction false} AheadTwice(fields: seq<Field>, f: Field, r: Fields)
    ensures Ahead(fields, Ahead([f], r)) == Ahead(fields + [f], r)
  {
    if r.Fields? {
      assert fields + ([f] + r.fields) == (fields + [f]) + r.fields;
    }
  }

  lemma {:induction false} AheadRecordsTwice(rs: seq<Record>, x: Record, r: Records)
    ensures AheadRecords(rs, AheadRecords([x], r)) == AheadRecords(rs + [x], r)
  {
    if r.Records? {
      assert rs + ([x] + r.records) == (rs + [x]) + r.records;
    }
  }

  method ParseFruRecordTable(data: seq<Byte>) returns (frus: seq<Record>)
    ensures frus == ParseTable(data)
  {
    if |data| < MIN_TABLE {
      return [];
    }
    frus := [];
    var index := 0;
    while index < |data|
      invariant index <= |data|
      invariant DecodeRecords(data, 0) == AheadRecords(frus, DecodeRecords(data, index))
      decreases |data| - index
    {
      if RECORD_HEADER > |data| - index {
        return [];
      }
      var record := index;
      var ok, fields;
      ok, fields, index := ParseFields(data, index + RECORD_HEADER, data[record + 3]);
      if !ok {
        return [];
      }
      var fru := RecordAt(data, record, fields);
      AheadRecordsTwice(frus, fru, DecodeRecords(data, index));
      frus := frus + [fru];
    }
  }

  // ----- deletion

  /** The records that survive the deletion of an identifier; identifier 0 deletes everything. */
  function Keep(rs: seq<Record>, rsi: nat): (kept: seq<Record>)
    ensures |kept| <= |rs|
  {
    if rs == [] then []
    else (if rs[0].rsi != rsi && rsi != 0 then [rs[0]] else []) + Keep(rs[1..], rsi)
  }

  /** populateRecords never stores an empty value, nor a record without fields. */
  predicate Solid(r: Record) {
    RecordFits(r) && |r.fields| > 0 && forall f | f in r.fields :: |f.value| > 0
  }

  lemma {:induction false} KeepSolid(rs: seq<Record>, rsi: nat)
    requires forall r | r in rs :: Solid(r)
    ensures forall r | r in Keep(rs, rsi) :: Solid(r) && r in rs
  {
    if rs != [] {
      KeepSolid(rs[1..], rsi);
    }
  }

  datatype End = Cut | At(pos: nat)

  /**
   The end of `count` fields as deleteFRURecord computes it. It asks for one value byte beyond each field header,
   so a trailing empty field counts as damage.
   */
  function FieldsEnd(table: seq<Byte>, at: nat, count: nat): (r: End)
    requires at <= |table|
    ensures r.At? ==> at <= r.pos <= |table|
    decreases count
  {
    if count == 0 then At(at)
    else if |table| - at < SIZEOF_TLV || |table| - at < FIELD_HEADER + table[at + 1] then Cut
    else FieldsEnd(table, at + FIELD_HEADER + table[at + 1], count - 1)
  }

  function RecordEnd(table: seq<Byte>, at: nat): (r: End)
    requires at <= |table|
    ensures r.At? ==> at + RECORD_HEADER <= r.pos <= |table|
  {
    if |table| - at < RECORD_HEADER + SIZEOF_TLV then Cut
    else FieldsEnd(table, at + RECORD_HEADER, table[at + 3])
  }

  /** The last field has a value, so that the walk finds the byte it asks for. */
  predicate EndsWithValue(fields: seq<Field>) {
    fields != [] && fields[|fields| - 1].value != []
  }

  lemma {:induction false} FieldsEndOfEncoded(data: seq<Byte>, at: nat, fields: seq<Field>)
    requires forall f | f in fields :: FieldFits(f)
    requires Holds(data, at, EncodeFields(fields))
    ensures var end := at + |EncodeFields(fields)|;
            FieldsEnd(data, at, |fields|)
            == if fields == [] || EndsWithValue(fields) || end < |data| then At(end) else Cut
    decreases |fields|
  {
    if fields != [] {
      var f, rest := fields[0], fields[1..];
      assert FieldFits(f);
      assert EncodeFields(fields) == EncodeField(f) + EncodeFields(rest);
      HoldsSplit(data, at, EncodeField(f), EncodeFields(rest));
      FieldLayout(data, at, f);
      FieldsEndOfEncoded(data, at + |EncodeField(f)|, rest);
      if rest != [] {
        assert EncodeFields(rest) == EncodeField(rest[0]) + EncodeFields(rest[1..]);
        assert rest[|rest| - 1] == fields[|fields| - 1];
      }
    }
  }

  lemma {:induction false} ValueTakesBytes(fields: seq<Field>)
    ensures EndsWithValue(fields) ==> |EncodeFields(fields)| >= SIZEOF_TLV
  {
    if |fields| > 1 {
      assert EncodeFields(fields) == EncodeField(fields[0]) + EncodeFields(fields[1..]);
      assert EncodeFields(fields[1..]) == EncodeField(fields[1]) + EncodeFields(fields[1..][1..]);
    } else if fields != [] {
      assert EncodeFields(fields) == EncodeField(fields[0]) + EncodeFields(fields[1..]);
    }
  }

  /** The end of an encoded record is found unless it is the end of the table and the last value is missing. */
  lemma {:induction false} RecordEndOfEncoded(data: seq<Byte>, at: nat, r: Record)
    requires RecordFits(r) && Holds(data, at, EncodeRecord(r))
    requires var end := at + |EncodeRecord(r)|; end == |data| || end + RECORD_HEADER <= |data|
    ensures var end := at + |EncodeRecord(r)|;
            RecordEnd(data, at) == if EndsWithValue(r.fields) || end < |data| then At(end) else Cut
  {
    HeaderLayout(data, at, r);
    FieldsEndOfEncoded(data, at + RECORD_HEADER, r.fields);
    ValueTakesBytes(r.fields);
  }

  /** The inner loop of deleteFRURecord. */
  method MeasureRecord(table: seq<Byte>, pos: nat) returns (ok: bool, recordLen: nat)
    requires pos < |table|
    ensures RecordEnd(table, pos) == if ok then At(pos + recordLen) else Cut
    ensures ok ==> RECORD_HEADER <= recordLen <= |table| - pos
  {
    if |table| - pos < RECORD_HEADER + SIZEOF_TLV {
      return false, 0;
    }
    recordLen := RECORD_HEADER;
    for i := 0 to table[pos + 3]
      invariant RECORD_HEADER <= recordLen <= |table| - pos
      invariant RecordEnd(table, pos) == FieldsEnd(table, pos + recordLen, table[pos + 3] - i)
    {
      if |table| - pos < recordLen + SIZEOF_TLV {
        return false, 0;
      }
      var len := FIELD_HEADER + table[pos + recordLen + 1];
      if |table| - pos < recordLen + len {
        return false, 0;
      }
      recordLen := recordLen + len;
    }
    ok := true;
  }

  datatype Filtered = Damaged | Filtered(bytes: seq<Byte>, dropped: nat)

  function AheadFiltered(bytes: seq<Byte>, dropped: nat, r: Filtered): Filtered {
    if r.Damaged? then r else Filtered(bytes + r.bytes, dropped + r.dropped)
  }

  /** The outer loop of deleteFRURecord on any bytes: the bytes kept and the number of records dropped. */
  function FilterFrom(table: seq<Byte>, at: nat, rsi: nat): Filtered
    requires at <= |table|
    decreases |table| - at
  {
    if at == |table| then Filtered([], 0)
    else var e := RecordEnd(table, at);
      if e.Cut? then Damaged
      else if Le16(table[at], table[at + 1]) != rsi && rsi != 0
      then AheadFiltered(table[at..e.pos], 0, FilterFrom(table, e.pos, rsi))
      else AheadFiltered([], 1, FilterFrom(table, e.pos, rsi))
  }

  /** The records that deletion counts off, up to the end of the table or to where it gives up. */
  function DroppedFrom(table: seq<Byte>, at: nat, rsi: nat): nat
    requires at <= |table|
    decreases |table| - at
  {
    if at == |table| then 0
    else var e := RecordEnd(table, at);
      if e.Cut? then 0
      else (if Le16(table[at], table[at + 1]) != rsi && rsi != 0 then 0 else 1) + DroppedFrom(table, e.pos, rsi)
  }

  lemma {:induction false} DroppedOfFiltered(table: seq<Byte>, at: nat, rsi: nat)
    requires at <= |table|
    ensures var f := FilterFrom(table, at, rsi); f.Filtered? ==> f.dropped == DroppedFrom(table, at, rsi)
    decreases |table| - at
  {
    if at < |table| && RecordEnd(table, at).At? {
      DroppedOfFiltered(table, RecordEnd(table, at).pos, rsi);
    }
  }

  lemma {:induction false} AheadFilteredTwice(a: seq<Byte>, m: nat, b: seq<Byte>, n: nat, r: Filtered)
    ensures AheadFiltered(a, m, AheadFiltered(b, n, r)) == AheadFiltered(a + b, m + n, r)
  {
    if r.Filtered? {
      assert a + (b + r.bytes) == (a + b) + r.bytes;
    }
  }

  /** One record of the walk. */
  lemma {:induction false} FilterStep(table: seq<Byte>, at: nat, rsi: nat, end: nat)
    requires at < |table| && RecordEnd(table, at) == At(end)
    ensures var kept := Le16(table[at], table[at + 1]) != rsi && rsi != 0;
            FilterFrom(table, at, rsi) ==
            AheadFiltered(if kept then table[at..end] else [], if kept then 0 else 1, FilterFrom(table, end, rsi))
            && DroppedFrom(table, at, rsi) == (if kept then 0 else 1) + DroppedFrom(table, end, rsi)
  {
  }

  /** The same, seen from what has been kept and counted off before it. */
  lemma {:induction false} FilterRound(
    table: seq<Byte>, pos: nat, rsi: nat, end: nat, updated: seq<Byte>, removed: nat, updated': seq<Byte>, removed': nat)
    requires pos < |table| && RecordEnd(table, pos) == At(end)
    requires if Le16(table[pos], table[pos + 1]) != rsi && rsi != 0
             then updated' == updated + table[pos..end] && removed' == removed
             else updated' == updated && removed' == removed + 1
    ensures AheadFiltered(updated, removed, FilterFrom(table, pos, rsi))
         == AheadFiltered(updated', removed', FilterFrom(table, end, rsi))
    ensures removed + DroppedFrom(table, pos, rsi) == removed' + DroppedFrom(table, end, rsi)
  {
    var rest := FilterFrom(table, end, rsi);
    FilterStep(table, pos, rsi, end);
    if Le16(table[pos], table[pos + 1]) != rsi && rsi != 0 {
      AheadFilteredTwice(updated, removed, table[pos..end], 0, rest);
    } else {
      AheadFilteredTwice(updated, removed, [], 1, rest);
      assert updated + [] == updated;
    }
  }

  /** deleteFRURecord's walk. `removed` counts the decrements of numRecs, made even when it then gives up. */
  method FilterTable(table: seq<Byte>, rsi: nat) returns (ok: bool, updated: seq<Byte>, removed: nat)
    ensures FilterFrom(table, 0, rsi) == if ok then Filtered(updated, removed) else Damaged
    ensures removed == DroppedFrom(table, 0, rsi)
  {
    updated, removed := [], 0;
    var pos := 0;
    ghost var whole, left := FilterFrom(table, 0, rsi), DroppedFrom(table, 0, rsi);
    while pos < |table|
      invariant pos <= |table|
      invariant whole == AheadFiltered(updated, removed, FilterFrom(table, pos, rsi))
      invariant left == removed + DroppedFrom(table, pos, rsi)
    {
      var measured, recordLen := MeasureRecord(table, pos);
      if !measured {
        return false, updated, removed;
      }
      ghost var before, dropped := updated, removed;
      if Le16(table[pos], table[pos + 1]) != rsi && rsi != 0 {
        updated := updated + table[pos..pos + recordLen];
      } else {
        removed := removed + 1;
      }
      FilterRound(table, pos, rsi, pos + recordLen, before, dropped, updated, removed);
      pos := pos + recordLen;
    }
    ok := true;
  }

  predicate AllSolid(rs: seq<Record>) {
    forall r | r in rs :: Solid(r)
  }

  lemma {:induction false} KeepFirst(left: seq<Record>, rsi: nat)
    requires left != []
    ensures var kept := left[0].rsi != rsi && rsi != 0;
            && Encode(Keep(left, rsi)) == (if kept then EncodeRecord(left[0]) else []) + Encode(Keep(left[1..], rsi))
            && |Keep(left, rsi)| == (if kept then 1 else 0) + |Keep(left[1..], rsi)|
  {
    if left[0].rsi != rsi && rsi != 0 {
      assert Keep(left, rsi)[1..] == Keep(left[1..], rsi);
    } else {
      assert Keep(left, rsi) == Keep(left[1..], rsi);
    }
  }

  /** A table that deletion can walk to its end. */
  predicate Walkable(recs: seq<Record>) {
    recs == [] || EndsWithValue(recs[|recs| - 1].fields)
  }

  /** The encoding of a nonempty list has at least a record header. */
  lemma {:induction false} EncodedHeader(recs: seq<Record>)
    ensures recs != [] ==> |Encode(recs)| >= RECORD_HEADER
  {
  }

  /** The walk over the encoding of any records: it gives up, or equals the filter. */
  ghost predicate FilterAgrees(f: Filtered, recs: seq<Record>, rsi: nat) {
    if Walkable(recs)
    then f.Filtered? && f.bytes == Encode(Keep(recs, rsi)) && f.dropped == |recs| - |Keep(recs, rsi)|
    else f.Damaged?
  }

  lemma {:induction false} FilterOfEncoding(data: seq<Byte>, at: nat, recs: seq<Record>, rsi: nat)
    requires forall r | r in recs :: RecordFits(r)
    requires Holds(data, at, Encode(recs)) && at + |Encode(recs)| == |data|
    ensures FilterAgrees(FilterFrom(data, at, rsi), recs, rsi)
    decreases |recs|
  {
    if recs != [] {
      var r, rest := recs[0], recs[1..];
      var end := at + |EncodeRecord(r)|;
      assert RecordFits(r);
      assert Encode(recs) == EncodeRecord(r) + Encode(rest);
      HoldsSplit(data, at, EncodeRecord(r), Encode(rest));
      EncodedHeader(rest);
      RecordEndOfEncoded(data, at, r);
      if end < |data| || EndsWithValue(r.fields) {
        FilterOfEncoding(data, end, rest, rsi);
        FilterFirst(data, at, recs, rsi);
      }
    }
  }

  lemma {:induction false} FilterFirst(data: seq<Byte>, at: nat, recs: seq<Record>, rsi: nat)
    requires recs != [] && RecordFits(recs[0]) && Holds(data, at, EncodeRecord(recs[0]))
    requires at < |data| && RecordEnd(data, at) == At(at + |EncodeRecord(recs[0])|)
    requires FilterAgrees(FilterFrom(data, at + |EncodeRecord(recs[0])|, rsi), recs[1..], rsi)
    requires Walkable(recs) <==> Walkable(recs[1..])
    ensures FilterAgrees(FilterFrom(data, at, rsi), recs, rsi)
  {
    var r := recs[0];
    HeaderLayout(data, at, r);
    FilterStep(data, at, rsi, at + |EncodeRecord(r)|);
    KeepFirst(recs, rsi);
    assert Le16(data[at], data[at + 1]) == r.rsi && data[at..at + |EncodeRecord(r)|] == EncodeRecord(r);
  }

  lemma {:induction false} EncodeAppend(a: seq<Record>, b: seq<Record>)
    ensures Encode(a + b) == Encode(a) + Encode(b)
  {
    if a == [] {
      assert a + b == b;
    } else {
      assert (a + b)[1..] == a[1..] + b;
      EncodeAppend(a[1..], b);
    }
  }

  // ----- building the table

  /** What the D-Bus lookup of one configured property gives. */
  datatype Lookup = Missing | Found(value: seq<Byte>)

  datatype FieldInfo = FieldInfo(kind: Byte, lookup: Lookup)

  datatype RecordInfo = RecordInfo(recType: Byte, encType: Byte, fieldInfos: seq<FieldInfo>)

  /** What one property contributes: a missing or empty one is skipped. */
  function FieldOf(info: FieldInfo): seq<Field> {
    if info.lookup.Missing? || info.lookup.value == [] then [] else [Field(info.kind, info.lookup.value)]
  }

  function FieldsOf(infos: seq<FieldInfo>): seq<Field> {
    if infos == [] then [] else FieldOf(infos[0]) + FieldsOf(infos[1..])
  }

  function RecordOf(info: RecordInfo, rsi: nat): seq<Record> {
    var fields := FieldsOf(info.fieldInfos);
    if fields == [] then [] else [Record(rsi, info.recType, info.encType, fields)]
  }

  /** The records of one FRU, all under the same identifier; a record without fields is left out. */
  function RecordsOf(infos: seq<RecordInfo>, rsi: nat): seq<Record> {
    if infos == [] then [] else RecordOf(infos[0], rsi) + RecordsOf(infos[1..], rsi)
  }

  // ----- what is stored, property by property

  /** The property is found and not empty. */
  predicate HasValue(info: FieldInfo) {
    info.lookup.Found? && info.lookup.value != []
  }

  /** The fields are, in order, those of exactly the properties that are found and not empty, with their whole values. */
  ghost predicate Stores(infos: seq<FieldInfo>, fields: seq<Field>) {
    exists picked :: Picks(picked, infos, (i: FieldInfo) => HasValue(i)) && AreFieldsOf(picked, fields)
  }

  predicate AreFieldsOf(picked: seq<FieldInfo>, fields: seq<Field>) {
    && |fields| == |picked|
    && forall k | 0 <= k < |picked| ::
         HasValue(picked[k]) && fields[k].kind == picked[k].kind && fields[k].value == picked[k].lookup.value
  }

  predicate HasAny(info: RecordInfo) {
    exists i :: 0 <= i < |info.fieldInfos| && HasValue(info.fieldInfos[i])
  }

  /** The records are, in order, those configured that have some property to store, all under one identifier. */
  ghost predicate StoresRecords(infos: seq<RecordInfo>, recs: seq<Record>, rsi: nat) {
    exists picked :: Picks(picked, infos, (i: RecordInfo) => HasAny(i)) && AreRecordsOf(picked, recs, rsi)
  }

  ghost predicate AreRecordsOf(picked: seq<RecordInfo>, recs: seq<Record>, rsi: nat) {
    |recs| == |picked| && forall k | 0 <= k < |picked| :: IsRecordOf(picked[k], recs[k], rsi)
  }

  ghost predicate IsRecordOf(info: RecordInfo, r: Record, rsi: nat) {
    r.rsi == rsi && r.recType == info.recType && r.encType == info.encType && Stores(info.fieldInfos, r.fields)
  }

  lemma {:induction false} FieldsOfLast(before: seq<FieldInfo>, last: FieldInfo)
    ensures FieldsOf(before + [last]) == FieldsOf(before) + FieldOf(last)
  {
    var infos := before + [last];
    FieldsOfNext(infos, |before|);
    assert infos[..|before|] == before && infos[..|before| + 1] == infos;
  }

  lemma {:induction false} RecordsOfLast(before: seq<RecordInfo>, last: RecordInfo, rsi: nat)
    ensures RecordsOf(before + [last], rsi) == RecordsOf(before, rsi) + RecordOf(last, rsi)
  {
    var infos := before + [last];
    RecordsOfNext(infos, |before|, rsi);
    assert infos[..|before|] == before && infos[..|before| + 1] == infos;
  }

  lemma {:induction false} FieldsAppend(picked: seq<FieldInfo>, fields: seq<Field>, last: FieldInfo)
    requires AreFieldsOf(picked, fields)
    ensures AreFieldsOf(picked + if HasValue(last) then [last] else [], fields + FieldOf(last))
  {
  }

  lemma {:induction false} StoresAppend(infos: seq<FieldInfo>, fields: seq<Field>, last: FieldInfo)
    requires Stores(infos, fields)
    ensures Stores(infos + [last], fields + FieldOf(last))
  {
    var picked :| Picks(picked, infos, (i: FieldInfo) => HasValue(i)) && AreFieldsOf(picked, fields);
    PicksAppend(picked, infos, (i: FieldInfo) => HasValue(i), last);
    FieldsAppend(picked, fields, last);
  }

  lemma {:induction false} StoresNothing()
    ensures Stores([], []) && forall rsi :: StoresRecords([], [], rsi)
  {
    PicksNothing((i: FieldInfo) => HasValue(i));
    PicksNothing((i: RecordInfo) => HasAny(i));
    assert AreFieldsOf([], []);
    forall rsi ensures StoresRecords([], [], rsi) {
      assert AreRecordsOf([], [], rsi);
    }
  }

  lemma {:induction false} FieldsOfStored(infos: seq<FieldInfo>)
    ensures Stores(infos, FieldsOf(infos))
    decreases |infos|
  {
    if infos == [] {
      StoresNothing();
    } else {
      var before, last := infos[..|infos| - 1], infos[|infos| - 1];
      assert infos == before + [last];
      FieldsOfStored(before);
      FieldsOfLast(before, last);
      StoresAppend(before, FieldsOf(before), last);
    }
  }

  lemma {:induction false} StoredIsFieldsOf(infos: seq<FieldInfo>)
    ensures |FieldsOf(infos)| <= |infos| && (FieldsOf(infos) != [] <==> exists i :: 0 <= i < |infos| && HasValue(infos[i]))
    ensures forall f | f in FieldsOf(infos) ::
              exists i :: 0 <= i < |infos| && HasValue(infos[i]) && f.value == infos[i].lookup.value
  {
    if infos != [] {
      var rest := infos[1..];
      StoredIsFieldsOf(rest);
      assert forall i | 0 <= i < |rest| :: rest[i] == infos[i + 1];
      if i :| 0 <= i < |infos| && HasValue(infos[i]) && i > 0 {
        assert HasValue(rest[i - 1]);
      }
      forall f | f in FieldsOf(infos)
        ensures exists i :: 0 <= i < |infos| && HasValue(infos[i]) && f.value == infos[i].lookup.value
      {
        if f in FieldsOf(rest) {
          var i :| 0 <= i < |rest| && HasValue(rest[i]) && f.value == rest[i].lookup.value;
          assert HasValue(infos[i + 1]);
        } else {
          assert HasValue(infos[0]);
        }
      }
    }
  }

  lemma {:induction false} OneMoreRecord(picked: seq<RecordInfo>, recs: seq<Record>, info: RecordInfo, r: Record, rsi: nat)
    requires AreRecordsOf(picked, recs, rsi) && IsRecordOf(info, r, rsi)
    ensures AreRecordsOf(picked + [info], recs + [r], rsi)
  {
    forall k | 0 <= k < |picked + [info]| ensures IsRecordOf((picked + [info])[k], (recs + [r])[k], rsi) {
      assert k < |picked| ==> IsRecordOf(picked[k], recs[k], rsi);
    }
  }

  lemma {:induction false} RecordsAppend(picked: seq<RecordInfo>, recs: seq<Record>, last: RecordInfo, rsi: nat)
    requires AreRecordsOf(picked, recs, rsi)
    ensures AreRecordsOf(picked + if HasAny(last) then [last] else [], recs + RecordOf(last, rsi), rsi)
  {
    var fields := FieldsOf(last.fieldInfos);
    assert HasAny(last) <==> fields != [] by { StoredIsFieldsOf(last.fieldInfos); }
    if HasAny(last) {
      FieldsOfStored(last.fieldInfos);
      OneMoreRecord(picked, recs, last, Record(rsi, last.recType, last.encType, fields), rsi);
    } else {
      assert picked + [] == picked && recs + [] == recs;
    }
  }

  lemma {:induction false} StoresRecordsAppend(infos: seq<RecordInfo>, recs: seq<Record>, last: RecordInfo, rsi: nat)
    requires StoresRecords(infos, recs, rsi)
    ensures StoresRecords(infos + [last], recs + RecordOf(last, rsi), rsi)
  {
    var picked :| Picks(picked, infos, (i: RecordInfo) => HasAny(i)) && AreRecordsOf(picked, recs, rsi);
    PicksAppend(picked, infos, (i: RecordInfo) => HasAny(i), last);
    RecordsAppend(picked, recs, last, rsi);
  }

  lemma {:induction false} RecordsOfStored(infos: seq<RecordInfo>, rsi: nat)
    ensures StoresRecords(infos, RecordsOf(infos, rsi), rsi)
    decreases |infos|
  {
    if infos == [] {
      StoresNothing();
    } else {
      var before, last := infos[..|infos| - 1], infos[|infos| - 1];
      assert infos == before + [last];
      RecordsOfStored(before, rsi);
      RecordsOfLast(before, last, rsi);
      StoresRecordsAppend(before, RecordsOf(before, rsi), last, rsi);
    }
  }

  /** Values of at most 255 bytes, and fewer than 256 fields to a record. */
  ghost predicate InfosFit(infos: seq<RecordInfo>) {
    forall info | info in infos :: InfoFits(info)
  }

  ghost predicate InfoFits(info: RecordInfo) {
    && (forall i | 0 <= i < |info.fieldInfos| && HasValue(info.fieldInfos[i]) :: |info.fieldInfos[i].lookup.value| < 256)
    && forall fields | Stores(info.fieldInfos, fields) :: |fields| < 256
  }

  lemma {:induction false} FittingFields(info: RecordInfo)
    requires InfoFits(info)
    ensures |FieldsOf(info.fieldInfos)| < 256 && forall f | f in FieldsOf(info.fieldInfos) :: FieldFits(f)
  {
    FieldsOfStored(info.fieldInfos);
    StoredIsFieldsOf(info.fieldInfos);
  }

  lemma {:induction false} FieldsNonempty(infos: seq<FieldInfo>)
    ensures forall f | f in FieldsOf(infos) :: |f.value| > 0
  {
    if infos != [] {
      FieldsNonempty(infos[1..]);
    }
  }

  lemma {:induction false} RecordsSolid(infos: seq<RecordInfo>, rsi: nat)
    requires InfosFit(infos) && rsi < U16
    ensures AllSolid(RecordsOf(infos, rsi)) && |RecordsOf(infos, rsi)| <= |infos|
    ensures forall r | r in RecordsOf(infos, rsi) :: r.rsi == rsi
  {
    if infos != [] {
      assert infos[0] in infos && InfoFits(infos[0]);
      FittingFields(infos[0]);
      FieldsNonempty(infos[0].fieldInfos);
      RecordsSolid(infos[1..], rsi);
    }
  }

  lemma {:induction false} EncodeFieldsAppend(a: seq<Field>, b: seq<Field>)
    ensures EncodeFields(a + b) == EncodeFields(a) + EncodeFields(b)
  {
    if a == [] {
      assert a + b == b;
    } else {
      assert (a + b)[1..] == a[1..] + b;
      EncodeFieldsAppend(a[1..], b);
    }
  }

  lemma {:induction false} FieldsOfNext(infos: seq<FieldInfo>, i: nat)
    requires i < |infos|
    ensures FieldsOf(infos[..i + 1]) == FieldsOf(infos[..i]) + FieldOf(infos[i])
  {
    if i == 0 {
      assert infos[..1][1..] == [];
    } else {
      assert infos[..i + 1][1..] == infos[1..][..i] && infos[..i][1..] == infos[1..][..i - 1];
      FieldsOfNext(infos[1..], i - 1);
    }
  }

  lemma {:induction false} TlvAppended(tlvs: seq<Byte>, kind: Byte, v: seq<Byte>)
    ensures tlvs + [kind] + [Low(|v|)] + v == tlvs + EncodeFields([Field(kind, v)])
  {
    assert EncodeFields([Field(kind, v)]) == EncodeField(Field(kind, v)) + [];
  }

  /** The body of the loop over the properties of one record. */
  method AppendTlv(info: FieldInfo, tlvs: seq<Byte>, numFRUFields: Byte) returns (tlvs': seq<Byte>, numFRUFields': Byte)
    ensures tlvs' == tlvs + EncodeFields(FieldOf(info))
    ensures numFRUFields' == Low(numFRUFields + |FieldOf(info)|)
  {
    tlvs', numFRUFields' := tlvs, numFRUFields;
    match info.lookup {
      case Missing =>
      case Found(v) =>
        if v != [] {
          TlvAppended(tlvs, info.kind, v);
          numFRUFields' := Low(numFRUFields' + 1);
          tlvs' := tlvs' + [info.kind];
          tlvs' := tlvs' + [Low(|v|)];
          tlvs' := tlvs' + v;
        }
    }
  }

  lemma {:induction false} CountWraps(a: nat, b: nat)
    ensures Low(Low(a) + b) == Low(a + b)
  {
    if a >= 256 {
      CountWraps(a - 256, b);
    }
  }

  /** The loop over the properties of one record. */
  method BuildTlvs(infos: seq<FieldInfo>) returns (tlvs: seq<Byte>, numFRUFields: Byte)
    ensures tlvs == EncodeFields(FieldsOf(infos))
    ensures numFRUFields == Low(|FieldsOf(infos)|)
    ensures exists fields :: Stores(infos, fields) && tlvs == EncodeFields(fields) && numFRUFields == Low(|fields|)
  {
    tlvs, numFRUFields := [], 0;
    for i := 0 to |infos|
      invariant tlvs == EncodeFields(FieldsOf(infos[..i]))
      invariant numFRUFields == Low(|FieldsOf(infos[..i])|)
    {
      ghost var done, next := FieldsOf(infos[..i]), FieldOf(infos[i]);
      FieldsOfNext(infos, i);
      EncodeFieldsAppend(done, next);
      CountWraps(|done|, |next|);
      tlvs, numFRUFields := AppendTlv(infos[i], tlvs, numFRUFields);
    }
    assert infos[..|infos|] == infos;
    FieldsOfStored(infos);
  }

  lemma {:induction false} RecordBuilt(r: Record, count: Byte, tlvs: seq<Byte>)
    requires count == Low(|r.fields|) && tlvs == EncodeFields(r.fields)
    ensures Header(r.rsi, r.recType, count, r.encType) + tlvs == EncodeRecord(r)
  {
    CountWraps(|r.fields|, 0);
  }

  /** The state of FruImpl that the table lives in; `recs` is the record list the table stands for. */
  class FruImpl {
    var table: seq<Byte>
    var numRecs: nat
    var rsi: nat
    ghost var recs: seq<Record>

    ghost predicate Valid()
      reads this
    {
      AllSolid(recs) && table == Encode(recs) && numRecs == |recs| < U16 && rsi < U16
    }

    constructor ()
      ensures Valid() && recs == [] && rsi == 0
    {
      table, numRecs, rsi, recs := [], 0, 0, [];
    }

    /** nextRSI: a uint16_t counter. */
    method NextRSI() returns (next: nat)
      modifies `rsi
      ensures next == rsi == Inc16(old(rsi))
    {
      rsi := Inc16(rsi);
      return rsi;
    }

    /** A record with fields goes behind the table; the FRU's first one draws the identifier. */
    method AppendNew(
      info: RecordInfo, ghost fields: seq<Field>, tlvs: seq<Byte>, numFRUFields: Byte, numRecsCount: nat,
      recordSetIdentifier: nat)
      returns (id: nat)
      requires fields != [] && numFRUFields == Low(|fields|) && tlvs == EncodeFields(fields)
      modifies this
      ensures old(table == Encode(recs)) ==> table == Encode(recs)
      ensures rsi == if old(numRecs) == numRecsCount then Inc16(old(rsi)) else old(rsi)
      ensures id == if old(numRecs) == numRecsCount then rsi else recordSetIdentifier
      ensures recs == old(recs) + [Record(id, info.recType, info.encType, fields)]
      ensures numRecs == Inc16(old(numRecs))
    {
      id := recordSetIdentifier;
      if numRecs == numRecsCount {
        id := NextRSI();
      }
      ghost var added := Record(id, info.recType, info.encType, fields);
      RecordAppended(recs, added, numFRUFields, tlvs);
      table := table + (Header(id, info.recType, numFRUFields, info.encType) + tlvs);
      numRecs := Inc16(numRecs);
      recs := recs + [added];
    }

    /** The body of the loop over the configured records. */
    method AddRecord(info: RecordInfo, numRecsCount: nat, recordSetIdentifier: nat) returns (id: nat)
      modifies this
      ensures old(table == Encode(recs)) ==> table == Encode(recs)
      ensures var fields := FieldsOf(info.fieldInfos);
              if fields == [] then
                id == recordSetIdentifier && table == old(table) && numRecs == old(numRecs)
                && rsi == old(rsi) && recs == old(recs)
              else
                && rsi == (if old(numRecs) == numRecsCount then Inc16(old(rsi)) else old(rsi))
                && id == (if old(numRecs) == numRecsCount then rsi else recordSetIdentifier)
                && recs == old(recs) + [Record(id, info.recType, info.encType, fields)]
                && numRecs == Inc16(old(numRecs))
    {
      id := recordSetIdentifier;
      ghost var fields := FieldsOf(info.fieldInfos);
      var tlvs, numFRUFields := BuildTlvs(info.fieldInfos);
      assert fields == [] <==> tlvs == [];
      if |tlvs| > 0 {
        id := AppendNew(info, fields, tlvs, numFRUFields, numRecsCount, recordSetIdentifier);
      }
    }

    /** populateRecords: appends the records of one FRU under one identifier, drawn only if there is a record. */
    method PopulateRecords(infos: seq<RecordInfo>)
      modifies this
      ensures old(Valid()) && InfosFit(infos) && old(numRecs) + |infos| < U16 && old(rsi) + 1 < U16 ==>
                && Valid()
                && recs == old(recs) + RecordsOf(infos, old(rsi) + 1)
                && rsi == if RecordsOf(infos, old(rsi) + 1) == [] then old(rsi) else old(rsi) + 1
      ensures old(Valid()) && InfosFit(infos) && old(numRecs) + |infos| < U16 && old(rsi) + 1 < U16 ==>
                Stored(infos, old(table), old(rsi), table, rsi)
    {
      var recordSetIdentifier := 0;
      var numRecsCount := numRecs;
      ghost var good := Valid() && InfosFit(infos) && numRecs + |infos| < U16 && rsi + 1 < U16;
      ghost var newId, initial := rsi + 1, recs;
      assert infos[..0] == [];
      for i := 0 to |infos|
        invariant table == Encode(recs) || !good
        invariant good ==> Populating(RecordsOf(infos[..i], newId), newId, initial, recs, numRecs, rsi, recordSetIdentifier)
        invariant good ==> |RecordsOf(infos[..i], newId)| <= i
      {
        ghost var was, wasNum, wasRsi, wasId := recs, numRecs, rsi, recordSetIdentifier;
        recordSetIdentifier := AddRecord(infos[i], numRecsCount, recordSetIdentifier);
        if good {
          PopulateStep(
            infos, i, newId, initial, was, wasNum, wasRsi, wasId, recs, numRecs, rsi, recordSetIdentifier);
        }
      }
      assert infos[..|infos|] == infos;
      if good {
        PopulateStores(infos, old(recs), old(rsi), recs, rsi);
      }
    }

    /** deleteFRURecord: on a valid table it takes no error return and filters out the identifier. */
    method DeleteFRURecord(id: nat)
      modifies `table, `numRecs, `recs
      ensures old(Valid()) ==> Valid() && recs == Keep(old(recs), id)
      ensures var f := FilterFrom(old(table), 0, id); table == if f.Damaged? then old(table) else f.bytes
      ensures numRecs == Less16(old(numRecs), DroppedFrom(old(table), 0, id))
    {
      ghost var good := Valid();
      if good {
        DeleteIsKeep(recs, id);
        DroppedOfFiltered(table, 0, id);
      }
      var ok, updated, removed := FilterTable(table, id);
      recs := Keep(recs, id);
      numRecs := Less16(numRecs, removed);
      if !ok {
        return;
      }
      table := updated;
    }
  }

  /** The parser finds the new records of the FRU behind the old ones, under an identifier that is new if used. */
  ghost predicate Stored(infos: seq<RecordInfo>, before: seq<Byte>, rsiBefore: nat, after: seq<Byte>, rsiAfter: nat) {
    exists added ::
      && StoresRecords(infos, added, rsiBefore + 1)
      && ParseTable(after) == ParseTable(before) + added
      && rsiAfter == if added == [] then rsiBefore else rsiBefore + 1
  }

  lemma {:induction false} PopulateStores(
    infos: seq<RecordInfo>, before: seq<Record>, rsiBefore: nat, after: seq<Record>, rsiAfter: nat)
    requires AllSolid(before) && AllSolid(after) && after == before + RecordsOf(infos, rsiBefore + 1)
    requires rsiAfter == if RecordsOf(infos, rsiBefore + 1) == [] then rsiBefore else rsiBefore + 1
    ensures Stored(infos, Encode(before), rsiBefore, Encode(after), rsiAfter)
  {
    RecordsOfStored(infos, rsiBefore + 1);
    SolidParses(before);
    SolidParses(after);
  }

  /** The parser reads the records of a table that was built here. */
  lemma {:induction false} SolidParses(recs: seq<Record>)
    requires AllSolid(recs)
    ensures ParseTable(Encode(recs)) == recs
  {
    forall r | r in recs ensures RecordFits(r) && |r.fields| > 0 {
      assert Solid(r);
    }
    if recs != [] {
      ParseInvertsEncode(recs);
    }
  }

  lemma {:induction false} DeleteIsKeep(recs: seq<Record>, id: nat)
    requires AllSolid(recs)
    ensures var f := FilterFrom(Encode(recs), 0, id);
            f.Filtered? && f.bytes == Encode(Keep(recs, id)) && f.dropped == |recs| - |Keep(recs, id)|
    ensures AllSolid(Keep(recs, id))
  {
    DeleteGivesUpIff(recs, id);
    KeepSolid(recs, id);
    if recs != [] {
      var last := recs[|recs| - 1];
      assert Solid(last);
      assert last.fields[|last.fields| - 1] in last.fields;
    }
  }

  /**
   On the table of any records, whether populateRecords can build them or not, deletion gives up exactly when the
   table ends in a record without fields or with an empty last value, although the parser reads such a table;
   otherwise it filters.
   */
  lemma {:induction false} DeleteGivesUpIff(recs: seq<Record>, id: nat)
    requires forall r | r in recs :: RecordFits(r)
    ensures FilterFrom(Encode(recs), 0, id).Damaged? <==> !Walkable(recs)
    ensures FilterAgrees(FilterFrom(Encode(recs), 0, id), recs, id)
  {
    FilterOfEncoding(Encode(recs), 0, recs, id);
  }

  /** The records before the last one of a list. */
  function Front(recs: seq<Record>): seq<Record>
    requires recs != []
  {
    recs[..|recs| - 1]
  }

  lemma {:induction false} DroppedOfDamaged(data: seq<Byte>, at: nat, recs: seq<Record>, rsi: nat)
    requires (forall r | r in recs :: RecordFits(r)) && !Walkable(recs)
    requires Holds(data, at, Encode(recs)) && at + |Encode(recs)| == |data|
    ensures DroppedFrom(data, at, rsi) == |Front(recs)| - |Keep(Front(recs), rsi)|
    decreases |recs|
  {
    var r, rest := recs[0], recs[1..];
    var end := at + |EncodeRecord(r)|;
    assert RecordFits(r);
    assert Encode(recs) == EncodeRecord(r) + Encode(rest);
    HoldsSplit(data, at, EncodeRecord(r), Encode(rest));
    EncodedHeader(rest);
    RecordEndOfEncoded(data, at, r);
    if rest != [] {
      DroppedOfDamaged(data, end, rest, rsi);
      HeaderLayout(data, at, r);
      KeepFront(recs, rsi);
    }
  }

  lemma {:induction false} KeepFront(recs: seq<Record>, rsi: nat)
    requires |recs| > 1
    ensures |Front(recs)| - |Keep(Front(recs), rsi)|
         == (if recs[0].rsi != rsi && rsi != 0 then 0 else 1) + |Front(recs[1..])| - |Keep(Front(recs[1..]), rsi)|
  {
    assert Front(recs)[0] == recs[0] && Front(recs)[1..] == Front(recs[1..]);
  }

  /**
   When deletion gives up, the table stays but the counter has fallen by the records before the last one that have
   the identifier.
   */
  lemma {:induction false} GivingUpStillCounts(recs: seq<Record>, id: nat)
    requires (forall r | r in recs :: RecordFits(r)) && !Walkable(recs)
    ensures FilterFrom(Encode(recs), 0, id).Damaged?
    ensures DroppedFrom(Encode(recs), 0, id) == |Front(recs)| - |Keep(Front(recs), id)|
  {
    DeleteGivesUpIff(recs, id);
    DroppedOfDamaged(Encode(recs), 0, recs, id);
  }

  lemma {:induction false} RecordsOfNext(infos: seq<RecordInfo>, i: nat, rsi: nat)
    requires i < |infos|
    ensures RecordsOf(infos[..i + 1], rsi) == RecordsOf(infos[..i], rsi) + RecordOf(infos[i], rsi)
  {
    if i == 0 {
      assert infos[..1][1..] == [];
    } else {
      assert infos[..i + 1][1..] == infos[1..][..i] && infos[..i][1..] == infos[1..][..i - 1];
      RecordsOfNext(infos[1..], i - 1, rsi);
    }
  }

  /** Where the loop over the configured records stands: the table's records, their number, the counter, the identifier in use. */
  predicate Populating(
    done: seq<Record>, newId: nat, initial: seq<Record>, recs: seq<Record>, numRecs: nat, rsi: nat, inUse: nat)
  {
    && AllSolid(recs) && recs == initial + done
    && numRecs == |recs|
    && rsi == (if done == [] then newId - 1 else newId)
    && (done != [] ==> inUse == newId)
  }

  lemma {:induction false} SolidRecord(info: RecordInfo, newId: nat)
    requires InfoFits(info) && newId < U16
    ensures AllSolid(RecordOf(info, newId))
  {
    FittingFields(info);
    FieldsNonempty(info.fieldInfos);
  }

  lemma {:induction false} RecordCounted(
    done: seq<Record>, r: Record, newId: nat, initial: seq<Record>,
    recs: seq<Record>, numRecs: nat, rsi: nat, inUse: nat, rsi': nat, inUse': nat)
    requires Populating(done, newId, initial, recs, numRecs, rsi, inUse)
    requires 0 < newId < U16 && |initial| + |done| + 1 < U16 && Solid(r)
    requires rsi' == (if numRecs == |initial| then Inc16(rsi) else rsi)
    requires inUse' == (if numRecs == |initial| then rsi' else inUse)
    ensures inUse' == newId
    ensures Populating(done + [r], newId, initial, recs + [r], Inc16(numRecs), rsi', inUse')
  {
    assert recs + [r] == initial + (done + [r]);
  }

  /** One configured record more: nothing changes without fields, otherwise its record goes under the FRU's identifier. */
  lemma {:induction false} PopulateStep(
    infos: seq<RecordInfo>, i: nat, newId: nat, initial: seq<Record>,
    recs: seq<Record>, numRecs: nat, rsi: nat, inUse: nat, recs': seq<Record>, numRecs': nat, rsi': nat, inUse': nat)
    requires i < |infos| && InfosFit(infos) && 0 < newId < U16 && |initial| + i + 1 < U16
    requires Populating(RecordsOf(infos[..i], newId), newId, initial, recs, numRecs, rsi, inUse)
    requires |RecordsOf(infos[..i], newId)| <= i
    requires var fields := FieldsOf(infos[i].fieldInfos);
             if fields == [] then recs' == recs && numRecs' == numRecs && rsi' == rsi && inUse' == inUse
             else
               && rsi' == (if numRecs == |initial| then Inc16(rsi) else rsi)
               && inUse' == (if numRecs == |initial| then rsi' else inUse)
               && recs' == recs + [Record(inUse', infos[i].recType, infos[i].encType, fields)]
               && numRecs' == Inc16(numRecs)
    ensures Populating(RecordsOf(infos[..i + 1], newId), newId, initial, recs', numRecs', rsi', inUse')
    ensures |RecordsOf(infos[..i + 1], newId)| <= i + 1
  {
    assert infos[i] in infos;
    var done, next := RecordsOf(infos[..i], newId), RecordOf(infos[i], newId);
    RecordsOfNext(infos, i, newId);
    SolidRecord(infos[i], newId);
    if next == [] {
      assert done + next == done;
    } else {
      RecordCounted(done, next[0], newId, initial, recs, numRecs, rsi, inUse, rsi', inUse');
    }
  }

  lemma {:induction false} RecordAppended(rs: seq<Record>, r: Record, count: Byte, tlvs: seq<Byte>)
    requires count == Low(|r.fields|) && tlvs == EncodeFields(r.fields)
    ensures Encode(rs) + (Header(r.rsi, r.recType, count, r.encType) + tlvs) == Encode(rs + [r])
  {
    RecordBuilt(r, count, tlvs);
    AppendRecord(rs, r);
  }

  lemma {:induction false} AppendRecord(rs: seq<Record>, r: Record)
    ensures Encode(rs + [r]) == Encode(rs) + EncodeRecord(r)
  {
    EncodeAppend(rs, [r]);
    assert Encode([r]) == EncodeRecord(r);
  }

  // ----- every interleaving of additions and deletions

  datatype Op = Populate(infos: seq<RecordInfo>) | Delete(rsi: nat)

  /** A record together with the number of the populate operation that created it. */
  datatype Owned = Owned(fru: nat, rec: Record)

  datatype History = History(owned: seq<Owned>, counter: nat)

  function Plain(owned: seq<Owned>): seq<Record> {
    seq(|owned|, i requires 0 <= i < |owned| => owned[i].rec)
  }

  function Own(rs: seq<Record>, fru: nat): seq<Owned> {
    seq(|rs|, i requires 0 <= i < |rs| => Owned(fru, rs[i]))
  }

  function KeepOwned(owned: seq<Owned>, rsi: nat): seq<Owned> {
    if owned == [] then []
    else (if owned[0].rec.rsi != rsi && rsi != 0 then [owned[0]] else []) + KeepOwned(owned[1..], rsi)
  }

  /** One operation, as the two methods of FruImpl specify it, remembering where each record came from. */
  function Apply(h: History, op: Op, now: nat): History {
    match op
    case Populate(infos) =>
      var added := RecordsOf(infos, h.counter + 1);
      History(h.owned + Own(added, now), if added == [] then h.counter else h.counter + 1)
    case Delete(rsi) => History(KeepOwned(h.owned, rsi), h.counter)
  }

  function RunOps(ops: seq<Op>): History {
    if ops == [] then History([], 0)
    else Apply(RunOps(ops[..|ops| - 1]), ops[|ops| - 1], |ops| - 1)
  }

  /** Two records share an identifier exactly when they belong to the same FRU. */
  ghost predicate Separated(h: History) {
    forall x, y | x in h.owned && y in h.owned :: x.rec.rsi == y.rec.rsi <==> x.fru == y.fru
  }

  ghost predicate HistoryInv(h: History, now: nat) {
    && Separated(h)
    && forall x | x in h.owned :: 1 <= x.rec.rsi <= h.counter && x.fru < now
  }

  lemma {:induction false} KeepOwnedPlain(owned: seq<Owned>, rsi: nat)
    ensures Plain(KeepOwned(owned, rsi)) == Keep(Plain(owned), rsi)
  {
    if owned != [] {
      KeepOwnedPlain(owned[1..], rsi);
      assert Plain(owned)[1..] == Plain(owned[1..]);
    }
  }

  lemma {:induction false} KeepOwnedMembers(owned: seq<Owned>, rsi: nat, x: Owned)
    ensures x in KeepOwned(owned, rsi) <==> x in owned && x.rec.rsi != rsi && rsi != 0
  {
    if owned != [] {
      KeepOwnedMembers(owned[1..], rsi, x);
    }
  }

  lemma {:induction false} RecordsShareIdentifier(infos: seq<RecordInfo>, rsi: nat)
    ensures forall r | r in RecordsOf(infos, rsi) :: r.rsi == rsi
  {
    if infos != [] {
      RecordsShareIdentifier(infos[1..], rsi);
    }
  }

  lemma {:induction false} AddedAreNew(infos: seq<RecordInfo>, rsi: nat, now: nat)
    ensures forall x | x in Own(RecordsOf(infos, rsi), now) :: x.rec.rsi == rsi && x.fru == now
  {
    RecordsShareIdentifier(infos, rsi);
    var added := Own(RecordsOf(infos, rsi), now);
    forall x | x in added ensures x.rec.rsi == rsi && x.fru == now {
      var i :| 0 <= i < |added| && added[i] == x;
      assert x.rec in RecordsOf(infos, rsi);
    }
  }

  lemma {:induction false} PopulateKeepsInv(h: History, infos: seq<RecordInfo>, now: nat)
    requires HistoryInv(h, now)
    ensures HistoryInv(Apply(h, Populate(infos), now), now + 1)
  {
    AddedAreNew(infos, h.counter + 1, now);
  }

  lemma {:induction false} DeleteKeepsInv(h: History, rsi: nat, now: nat)
    requires HistoryInv(h, now)
    ensures HistoryInv(Apply(h, Delete(rsi), now), now + 1)
  {
    forall x | x in KeepOwned(h.owned, rsi) ensures x in h.owned {
      KeepOwnedMembers(h.owned, rsi, x);
    }
  }

  lemma {:induction false} HistoryKeepsInv(ops: seq<Op>)
    ensures HistoryInv(RunOps(ops), |ops|)
  {
    if ops != [] {
      var last := |ops| - 1;
      HistoryKeepsInv(ops[..last]);
      match ops[last] {
        case Populate(infos) => PopulateKeepsInv(RunOps(ops[..last]), infos, last);
        case Delete(rsi) => DeleteKeepsInv(RunOps(ops[..last]), rsi, last);
      }
    }
  }

  /**
   Over any interleaving, the records of each FRU share one identifier that no other FRU has, so that deleting
   that identifier removes exactly this FRU's records and keeps all others in order.
   */
  lemma {:induction false} DeleteRemovesOneFru(ops: seq<Op>, x: Owned)
    requires x in RunOps(ops).owned
    ensures var h := RunOps(ops);
            var h' := Apply(h, Delete(x.rec.rsi), |ops|);
            && Plain(h'.owned) == Keep(Plain(h.owned), x.rec.rsi)
            && forall y :: y in h'.owned <==> y in h.owned && y.fru != x.fru
  {
    HistoryKeepsInv(ops);
    KeepOwnedPlain(RunOps(ops).owned, x.rec.rsi);
    forall y ensures y in KeepOwned(RunOps(ops).owned, x.rec.rsi) <==> y in RunOps(ops).owned && y.fru != x.fru {
      KeptIffOtherFru(RunOps(ops), |ops|, x, y);
    }
  }

  lemma {:induction false} KeptIffOtherFru(h: History, now: nat, x: Owned, y: Owned)
    requires HistoryInv(h, now) && x in h.owned
    ensures y in KeepOwned(h.owned, x.rec.rsi) <==> y in h.owned && y.fru != x.fru
  {
    KeepOwnedMembers(h.owned, x.rec.rsi, y);
  }

  // ----- deletion as a filter

  lemma {:induction false} KeepAppend(rs: seq<Record>, r: Record, id: nat)
    ensures Keep(rs + [r], id) == Keep(rs, id) + if r.rsi != id && id != 0 then [r] else []
  {
    if rs == [] {
      assert [r][1..] == [];
    } else {
      assert (rs + [r])[1..] == rs[1..] + [r];
      KeepAppend(rs[1..], r, id);
    }
  }

  /** What deletion keeps are, in order, exactly the records with another identifier; identifier 0 keeps none. */
  lemma {:induction false} KeepPicks(rs: seq<Record>, id: nat)
    ensures Picks(Keep(rs, id), rs, (r: Record) => r.rsi != id && id != 0)
    decreases |rs|
  {
    var stays := (r: Record) => r.rsi != id && id != 0;
    if rs == [] {
      PicksNothing(stays);
    } else {
      var last, before := rs[|rs| - 1], rs[..|rs| - 1];
      assert rs == before + [last];
      KeepPicks(before, id);
      KeepAppend(before, last, id);
      PicksAppend(Keep(before, id), before, stays, last);
    }
  }

  // ----- the table, byte by byte

  /** A field from p to end: its type, the length of its value, and the value. */
  predicate FieldLaid(b: seq<Byte>, p: nat, end: nat, f: Field) {
    && end == p + 2 + |f.value| <= |b|
    && b[p] == f.kind && b[p + 1] == |f.value| && b[p + 2..end] == f.value
  }

  ghost predicate FieldsLaid(b: seq<Byte>, p: nat, end: nat, fields: seq<Field>) {
    exists at :: FieldsLaidAt(b, p, end, fields, at)
  }

  ghost predicate FieldsLaidAt(b: seq<Byte>, p: nat, end: nat, fields: seq<Field>, at: seq<nat>) {
    && |at| == |fields| + 1 && at[0] == p && at[|fields|] == end
    && forall k | 0 <= k < |fields| :: FieldLaid(b, at[k], at[k + 1], fields[k])
  }

  /** A record: identifier, type, number of fields, encoding, and the fields one after the other. */
  ghost predicate RecordLaid(b: seq<Byte>, p: nat, end: nat, r: Record) {
    && p + 5 <= |b| && (b[p] as int) + 0x100 * (b[p + 1] as int) == r.rsi
    && b[p + 2] == r.recType && b[p + 3] == |r.fields| && b[p + 4] == r.encType
    && FieldsLaid(b, p + 5, end, r.fields)
  }

  ghost predicate TableLaid(b: seq<Byte>, recs: seq<Record>, at: seq<nat>) {
    && |at| == |recs| + 1 && at[|recs|] == |b|
    && forall k | 0 <= k < |recs| :: RecordLaid(b, at[k], at[k + 1], recs[k])
  }

  lemma {:induction false} FieldsLaidCons(b: seq<Byte>, p: nat, next: nat, end: nat, f: Field, fields: seq<Field>)
    requires FieldLaid(b, p, next, f) && FieldsLaid(b, next, end, fields)
    ensures FieldsLaid(b, p, end, [f] + fields)
  {
    var at :| FieldsLaidAt(b, next, end, fields, at);
    var more, fs := [p] + at, [f] + fields;
    forall k | 0 <= k < |fs| ensures FieldLaid(b, more[k], more[k + 1], fs[k]) {
      assert k > 0 ==> FieldLaid(b, at[k - 1], at[k], fields[k - 1]);
    }
    assert FieldsLaidAt(b, p, end, fs, more);
  }

  lemma {:induction false} EncodedFieldsLaid(b: seq<Byte>, p: nat, fields: seq<Field>)
    requires (forall f | f in fields :: FieldFits(f)) && Holds(b, p, EncodeFields(fields))
    ensures FieldsLaid(b, p, p + |EncodeFields(fields)|, fields)
    decreases |fields|
  {
    if fields == [] {
      assert FieldsLaidAt(b, p, p, [], [p]);
    } else {
      var f, rest := fields[0], fields[1..];
      assert FieldFits(f) && fields == [f] + rest;
      EncodeFieldsCons(f, rest);
      HoldsSplit(b, p, EncodeField(f), EncodeFields(rest));
      FieldLayout(b, p, f);
      EncodedFieldsLaid(b, p + |EncodeField(f)|, rest);
      FieldsLaidCons(b, p, p + |EncodeField(f)|, p + |EncodeFields(fields)|, f, rest);
    }
  }

  lemma {:induction false} EncodedRecordLaid(b: seq<Byte>, p: nat, r: Record)
    requires RecordFits(r) && Holds(b, p, EncodeRecord(r))
    ensures RecordLaid(b, p, p + |EncodeRecord(r)|, r)
  {
    var header := Header(r.rsi, r.recType, |r.fields|, r.encType);
    HoldsSplit(b, p, header, EncodeFields(r.fields));
    var bytes := b[p..p + RECORD_HEADER];
    assert b[p] == bytes[0] && b[p + 1] == bytes[1] && b[p + 2] == bytes[2]
        && b[p + 3] == bytes[3] && b[p + 4] == bytes[4];
    EncodedFieldsLaid(b, p + RECORD_HEADER, r.fields);
  }

  lemma {:induction false} TableLaidCons(b: seq<Byte>, p: nat, r: Record, rest: seq<Record>, at: seq<nat>)
    requires TableLaid(b, rest, at) && RecordLaid(b, p, at[0], r)
    ensures TableLaid(b, [r] + rest, [p] + at)
  {
    var recs, more := [r] + rest, [p] + at;
    forall k | 0 <= k < |recs| ensures RecordLaid(b, more[k], more[k + 1], recs[k]) {
      assert k > 0 ==> RecordLaid(b, at[k - 1], at[k], rest[k - 1]);
    }
  }

  lemma {:induction false} EncodedTableLaid(b: seq<Byte>, p: nat, recs: seq<Record>) returns (at: seq<nat>)
    requires (forall r | r in recs :: RecordFits(r)) && Holds(b, p, Encode(recs)) && p + |Encode(recs)| == |b|
    ensures TableLaid(b, recs, at) && at[0] == p
    decreases |recs|
  {
    if recs == [] {
      at := [p];
    } else {
      var r, rest := recs[0], recs[1..];
      var next := p + |EncodeRecord(r)|;
      assert RecordFits(r) && recs == [r] + rest;
      EncodeCons(r, rest);
      HoldsSplit(b, p, EncodeRecord(r), Encode(rest));
      EncodedRecordLaid(b, p, r);
      var others := EncodedTableLaid(b, next, rest);
      at := [p] + others;
      TableLaidCons(b, p, r, rest, others);
    }
  }

  /** The table of any records holds them one after the other, in the layout of the standard. */
  lemma {:induction false} TableIsLaid(recs: seq<Record>)
    requires forall r | r in recs :: RecordFits(r)
    ensures exists at :: TableLaid(Encode(recs), recs, at) && at[0] == 0
  {
    var at := EncodedTableLaid(Encode(recs), 0, recs);
  }

  // ----- the object itself over such a history

  /** No counter of the object reaches its limit, and the configured values fit, in any step of the history. */
  ghost predicate NeverWraps(ops: seq<Op>) {
    forall n | 0 <= n < |ops| :: Fits(RunOps(ops[..n]), ops[n])
  }

  ghost predicate Fits(h: History, op: Op) {
    op.Populate? ==> InfosFit(op.infos) && |h.owned| + |op.infos| < U16 && h.counter + 1 < U16
  }

  /** The object holds exactly the records of the history, and its table is their encoding. */
  ghost predicate Follows(table: seq<Byte>, numRecs: nat, rsi: nat, h: History) {
    table == Encode(Plain(h.owned)) && numRecs == |h.owned| && rsi == h.counter
  }

  lemma {:induction false} PlainApply(h: History, op: Op, now: nat)
    ensures var h' := Apply(h, op, now);
            match op
            case Populate(infos) =>
              var added := RecordsOf(infos, h.counter + 1);
              Plain(h'.owned) == Plain(h.owned) + added && h'.counter == if added == [] then h.counter else h.counter + 1
            case Delete(id) => Plain(h'.owned) == Keep(Plain(h.owned), id) && h'.counter == h.counter
  {
    match op
    case Populate(infos) =>
      var added := RecordsOf(infos, h.counter + 1);
      assert Plain(h.owned + Own(added, now)) == Plain(h.owned) + added;
    case Delete(id) => KeepOwnedPlain(h.owned, id);
  }

  lemma {:induction false} RunOpsNext(ops: seq<Op>, n: nat)
    requires n < |ops|
    ensures RunOps(ops[..n + 1]) == Apply(RunOps(ops[..n]), ops[n], n)
  {
    assert ops[..n + 1][..n] == ops[..n];
  }

  method PerformPopulate(fru: FruImpl, infos: seq<RecordInfo>)
    requires fru.Valid() && InfosFit(infos) && |fru.recs| + |infos| < U16 && fru.rsi + 1 < U16
    modifies fru
    ensures var added := RecordsOf(infos, old(fru.rsi) + 1);
            && fru.Valid() && fru.recs == old(fru.recs) + added
            && fru.rsi == if added == [] then old(fru.rsi) else old(fru.rsi) + 1
  {
    fru.PopulateRecords(infos);
  }

  method Perform(fru: FruImpl, op: Op, ghost h: History, ghost now: nat)
    requires fru.Valid() && fru.recs == Plain(h.owned) && fru.rsi == h.counter && Fits(h, op)
    modifies fru
    ensures fru.Valid() && fru.recs == Plain(Apply(h, op, now).owned) && fru.rsi == Apply(h, op, now).counter
  {
    PlainApply(h, op, now);
    match op {
      case Populate(infos) => PerformPopulate(fru, infos);
      case Delete(id) => fru.DeleteFRURecord(id);
    }
  }

  /**
   Any interleaving of populateRecords and deleteFRURecord on the object: at the end its table is the encoding of
   the records of the history, numRecs is their number, and the identifier counter is the history's.
   */
  method Replay(ops: seq<Op>) returns (table: seq<Byte>, numRecs: nat, rsi: nat)
    requires NeverWraps(ops)
    ensures Follows(table, numRecs, rsi, RunOps(ops))
  {
    var fru := new FruImpl();
    for n := 0 to |ops|
      invariant fru.Valid() && fru.recs == Plain(RunOps(ops[..n]).owned) && fru.rsi == RunOps(ops[..n]).counter
    {
      RunOpsNext(ops, n);
      Perform(fru, ops[n], RunOps(ops[..n]), n);
    }
    assert ops[..|ops|] == ops;
    return fru.table, fru.numRecs, fru.rsi;
  }

  /** So deleting the identifier of any record's FRU leaves, in the table itself, exactly the other FRUs' records. */
  lemma {:induction false} DeleteLeavesOthers(ops: seq<Op>, x: Owned)
    requires x in RunOps(ops).owned
    ensures var h := RunOps(ops);
            var h' := RunOps(ops + [Delete(x.rec.rsi)]);
            && Encode(Plain(h'.owned)) == Encode(Keep(Plain(h.owned), x.rec.rsi))
            && forall y :: y in h'.owned <==> y in h.owned && y.fru != x.fru
  {
    DeleteRemovesOneFru(ops, x);
    var more := ops + [Delete(x.rec.rsi)];
    assert more[..|ops|] == ops;
  }
}
