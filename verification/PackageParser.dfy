/**
 The firmware update package parser of fw-update/package_parser.cpp (package header of DSP0267). The libpldm
 decoders are parameters: all that matters here is that they never report an entry longer than the bytes they
 were given.
 */
module PackageParser {
  import opened Wrappers
  import opened Bytes

  const SIZEOF_HEADER_INFO: nat := 36        // sizeof(pldm_package_header_information)
  const SIZEOF_COMPONENT_INFO: nat := 22     // sizeof(pldm_component_image_information)
  const SIZEOF_RECORD_COUNT: nat := 1
  const SIZEOF_COMPONENT_COUNT: nat := 2
  const SIZEOF_CHECKSUM: nat := 4

  /** A decoded firmware device identification record: its length in the header and its component bitmap. */
  datatype RawRecord = BadRecord | RawRecord(length: nat, bitmap: seq<Byte>)

  /** A decoded component image information entry. */
  datatype RawComponent = BadComponent | RawComponent(versionLength: nat, offset: nat, size: nat)

  datatype Decoders = Decoders(record: seq<Byte> -> RawRecord, component: seq<Byte> -> RawComponent, crc: seq<Byte> -> nat)

  ghost predicate WellBehaved(dec: Decoders) {
    && (forall s: seq<Byte> :: dec.record(s).RawRecord? ==> dec.record(s).length <= |s|)
    && (forall s: seq<Byte> :: dec.component(s).RawComponent? ==>
          && SIZEOF_COMPONENT_INFO + dec.component(s).versionLength <= |s|
          && dec.component(s).offset < U32 && dec.component(s).size < U32)
  }

  /** FirmwareDeviceIDRecord and ComponentImageInfo, with the length of the header bytes they came from. */
  datatype DeviceRecord = DeviceRecord(applicable: seq<nat>, length: nat)
  datatype Component = Component(offset: nat, size: nat, length: nat)

  /** The checksum at a position of the header. */
  function ChecksumAt(data: seq<Byte>, at: nat): nat
    requires at + 4 <= |data|
  {
    Le32(data[at], data[at + 1], data[at + 2], data[at + 3])
  }

  // ----- applicable components

  /** Bit k of a bitmap: bit k mod 8 of byte k / 8. */
  predicate BitmapBit(bitmap: seq<Byte>, k: nat) {
    k / 8 < |bitmap| && Bit(bitmap[k / 8], k % 8)
  }

  /** The numbers from k up to n that a predicate holds of. */
  function Picked(has: nat -> bool, n: nat, k: nat): seq<nat>
    requires k <= n
    decreases n - k
  {
    if k == n then [] else (if has(k) then [k] else []) + Picked(has, n, k + 1)
  }

  lemma {:induction false} PickedMembers(has: nat -> bool, n: nat, k: nat, x: nat)
    requires k <= n
    ensures x in Picked(has, n, k) <==> k <= x < n && has(x)
    decreases n - k
  {
    if k < n {
      PickedMembers(has, n, k + 1, x);
    }
  }

  lemma {:induction false} PickedIncreasing(has: nat -> bool, n: nat, k: nat)
    requires k <= n
    ensures StrictlyIncreasing(Picked(has, n, k))
    decreases n - k
  {
    if k < n {
      var rest := Picked(has, n, k + 1);
      PickedIncreasing(has, n, k + 1);
      forall i | 0 <= i < |rest| ensures k < rest[i] {
        PickedMembers(has, n, k + 1, rest[i]);
      }
    }
  }

  function Bits(bitmap: seq<Byte>): (n: nat)
    ensures n == 8 * |bitmap|
  {
    |bitmap| * 8
  }

  /** The components a bitmap selects, from component k on. */
  function Selected(bitmap: seq<Byte>, k: nat): seq<nat>
    requires k <= 8 * |bitmap|
  {
    Picked((x: nat) => BitmapBit(bitmap, x), Bits(bitmap), k)
  }

  /** The list is strictly increasing and contains exactly the components whose bit is set. */
  lemma {:induction false} SelectedIsBitmap(bitmap: seq<Byte>)
    ensures StrictlyIncreasing(Selected(bitmap, 0))
    ensures forall k: nat :: k in Selected(bitmap, 0) <==> BitmapBit(bitmap, k)
  {
    PickedIncreasing((x: nat) => BitmapBit(bitmap, x), Bits(bitmap), 0);
    forall k: nat ensures k in Selected(bitmap, 0) <==> BitmapBit(bitmap, k) {
      PickedMembers((x: nat) => BitmapBit(bitmap, x), Bits(bitmap), 0, k);
    }
  }

  /** In increasing order, k is listed exactly when bit k mod 8 of byte k / 8 is set. */
  ghost predicate AppliesTo(list: seq<nat>, bitmap: seq<Byte>) {
    && StrictlyIncreasing(list)
    && forall k: nat :: k in list <==> k / 8 < |bitmap| && Pow2(k % 8) > 0 && bitmap[k / 8] / Pow2(k % 8) % 2 == 1
  }

  lemma {:induction false} SelectedApplies(bitmap: seq<Byte>)
    ensures AppliesTo(Selected(bitmap, 0), bitmap)
  {
    SelectedIsBitmap(bitmap);
    forall k: nat
      ensures k in Selected(bitmap, 0)
         <==> k / 8 < |bitmap| && Pow2(k % 8) > 0 && bitmap[k / 8] / Pow2(k % 8) % 2 == 1
    {
      if k / 8 < |bitmap| {
        BitIsParity(bitmap[k / 8], k % 8);
      }
    }
  }

  /** The inner loop over the eight bits of one byte. */
  method AppendByte(bitmap: seq<Byte>, byteIdx: nat, before: seq<nat>) returns (list: seq<nat>)
    requires byteIdx < |bitmap|
    ensures before + Selected(bitmap, 8 * byteIdx) == list + Selected(bitmap, 8 * byteIdx + 8)
  {
    list := before;
    for idx := 0 to 8
      invariant before + Selected(bitmap, 8 * byteIdx) == list + Selected(bitmap, 8 * byteIdx + idx)
    {
      ghost var rest := Selected(bitmap, 8 * byteIdx + idx + 1);
      assert (8 * byteIdx + idx) / 8 == byteIdx && (8 * byteIdx + idx) % 8 == idx;
      if Bit(bitmap[byteIdx], idx) {
        assert list + ([8 * byteIdx + idx] + rest) == (list + [8 * byteIdx + idx]) + rest;
        list := list + [idx + byteIdx * 8];
      } else {
        assert [] + rest == rest;
      }
    }
  }

  /** The nested loops of parseFDIdentificationArea over the bitmap. */
  method ApplicableComponents(bitmap: seq<Byte>) returns (list: seq<nat>)
    ensures list == Selected(bitmap, 0)
  {
    list := [];
    for byteIdx := 0 to |bitmap|
      invariant list + Selected(bitmap, 8 * byteIdx) == Selected(bitmap, 0)
    {
      list := AppendByte(bitmap, byteIdx, list);
    }
  }

  /** The list and the bitmap determine each other. */
  lemma {:induction false} BitmapDetermined(a: seq<Byte>, b: seq<Byte>)
    requires |a| == |b|
    ensures Selected(a, 0) == Selected(b, 0) <==> a == b
  {
    if Selected(a, 0) == Selected(b, 0) {
      ByteWidth();
      SelectedIsBitmap(a);
      SelectedIsBitmap(b);
      forall i | 0 <= i < |a| ensures a[i] == b[i] {
        forall j: nat | j < 8 ensures Bit(a[i], j) == Bit(b[i], j) {
          var k := 8 * i + j;
          assert k / 8 == i && k % 8 == j;
          assert k in Selected(a, 0) <==> k in Selected(b, 0);
        }
        SameBits(a[i], b[i], 8);
      }
    }
  }

  // ----- the two areas of the header

  datatype Records = BadRecords | Records(list: seq<DeviceRecord>, end: nat)
  datatype Components = BadComponents | Components(list: seq<Component>, end: nat)

  function ConsRecord(r: DeviceRecord, rest: Records): Records {
    if rest.BadRecords? then rest else rest.(list := [r] + rest.list)
  }

  function ConsComponent(c: Component, rest: Components): Components {
    if rest.BadComponents? then rest else rest.(list := [c] + rest.list)
  }

  function RecordOf(raw: RawRecord): DeviceRecord
    requires raw.RawRecord?
  {
    DeviceRecord(Selected(raw.bitmap, 0), raw.length)
  }

  /** parseFDIdentificationArea from an offset on. It also stops, without an error, when the bytes run out. */
  ghost function RecordsFrom(dec: Decoders, hdr: seq<Byte>, offset: nat, count: nat): Records
    requires WellBehaved(dec) && offset <= |hdr|
    decreases count
  {
    if count == 0 || offset == |hdr| then Records([], offset)
    else
      var raw := dec.record(hdr[offset..]);
      if raw.BadRecord? then BadRecords
      else ConsRecord(RecordOf(raw), RecordsFrom(dec, hdr, offset + raw.length, count - 1))
  }

  function ComponentOf(raw: RawComponent): Component
    requires raw.RawComponent?
  {
    Component(raw.offset, raw.size, SIZEOF_COMPONENT_INFO + raw.versionLength)
  }

  /** parseCompImageInfoArea from an offset on. */
  ghost function ComponentsFrom(dec: Decoders, hdr: seq<Byte>, offset: nat, count: nat): Components
    requires WellBehaved(dec) && offset <= |hdr|
    decreases count
  {
    if count == 0 || offset == |hdr| then Components([], offset)
    else
      var raw := dec.component(hdr[offset..]);
      if raw.BadComponent? then BadComponents
      else ConsComponent(ComponentOf(raw), ComponentsFrom(dec, hdr, offset + ComponentOf(raw).length, count - 1))
  }

  function RecordBytes(list: seq<DeviceRecord>): nat {
    if list == [] then 0 else list[0].length + RecordBytes(list[1..])
  }

  function ComponentBytes(list: seq<Component>): nat {
    if list == [] then 0 else list[0].length + ComponentBytes(list[1..])
  }

  /** What one more record in front adds to the bytes. */
  lemma {:induction false} RecordBytesCons(r: DeviceRecord, list: seq<DeviceRecord>)
    ensures RecordBytes([r] + list) == r.length + RecordBytes(list)
  {
    assert ([r] + list)[1..] == list;
  }

  lemma {:induction false} ComponentBytesCons(c: Component, list: seq<Component>)
    ensures ComponentBytes([c] + list) == c.length + ComponentBytes(list)
  {
    assert ([c] + list)[1..] == list;
  }

  /** The area reads as one more record in front. */
  ghost predicate IsCons(whole: Records, r: DeviceRecord, rest: Records) {
    && (whole.Records? <==> rest.Records?)
    && (rest.Records? ==> whole.list == [r] + rest.list && whole.end == rest.end)
  }

  ghost predicate IsConsComponent(whole: Components, c: Component, rest: Components) {
    && (whole.Components? <==> rest.Components?)
    && (rest.Components? ==> whole.list == [c] + rest.list && whole.end == rest.end)
  }

  lemma {:induction false} RecordsFromStep(dec: Decoders, hdr: seq<Byte>, offset: nat, count: nat) returns (r: DeviceRecord)
    requires WellBehaved(dec) && offset < |hdr| && count > 0 && dec.record(hdr[offset..]).RawRecord?
    ensures var raw := dec.record(hdr[offset..]);
            r.length == raw.length && offset + r.length <= |hdr| && AppliesTo(r.applicable, raw.bitmap)
    ensures IsCons(RecordsFrom(dec, hdr, offset, count), r, RecordsFrom(dec, hdr, offset + r.length, count - 1))
  {
    var raw := dec.record(hdr[offset..]);
    r := RecordOf(raw);
    SelectedApplies(raw.bitmap);
  }

  lemma {:induction false} ComponentsFromStep(dec: Decoders, hdr: seq<Byte>, offset: nat, count: nat)
    requires WellBehaved(dec) && offset < |hdr| && count > 0 && dec.component(hdr[offset..]).RawComponent?
    ensures var c := ComponentOf(dec.component(hdr[offset..]));
            offset + c.length <= |hdr|
            && IsConsComponent(ComponentsFrom(dec, hdr, offset, count), c,
                               ComponentsFrom(dec, hdr, offset + c.length, count - 1))
  {
  }

  /** The records end where their bytes do. */
  ghost predicate RecordsEnd(hdr: seq<Byte>, offset: nat, count: nat, r: Records) {
    r.Records? ==> r.end == offset + RecordBytes(r.list) <= |hdr| && |r.list| <= count
  }

  lemma {:induction false} LengthsAddUp(list: seq<DeviceRecord>, at: seq<nat>)
    requires |at| == |list| + 1 && forall i | 0 <= i < |list| :: at[i + 1] == at[i] + list[i].length
    ensures at[|list|] == at[0] + RecordBytes(list)
    decreases |list|
  {
    if list != [] {
      var rest, more := list[1..], at[1..];
      forall i | 0 <= i < |rest| ensures more[i + 1] == more[i] + rest[i].length {
        assert at[i + 2] == at[i + 1] + list[i + 1].length;
      }
      LengthsAddUp(rest, more);
    }
  }

  lemma {:induction false} RecordsAddUp(dec: Decoders, hdr: seq<Byte>, offset: nat, count: nat, whole: Records)
    requires WellBehaved(dec) && offset <= |hdr| && whole == RecordsFrom(dec, hdr, offset, count)
    ensures RecordsEnd(hdr, offset, count, whole)
  {
    if whole.Records? {
      var at := RecordsAreRead(dec, hdr, offset, count, whole);
      forall i | 0 <= i < |whole.list| ensures at[i + 1] == at[i] + whole.list[i].length {
        assert RecordRead(dec, hdr, at[i], at[i + 1], whole.list[i]);
      }
      LengthsAddUp(whole.list, at);
    }
  }

  /** The components end where their bytes do, and their fields are those of uint32_t. */
  ghost predicate AddUp(hdr: seq<Byte>, offset: nat, count: nat, r: Components) {
    r.Components? ==>
      && r.end == offset + ComponentBytes(r.list) <= |hdr| && |r.list| <= count
      && forall c | c in r.list :: c.offset < U32 && c.size < U32
  }

  lemma {:induction false} AddUpCons(
    hdr: seq<Byte>, offset: nat, count: nat, c: Component, rest: Components, whole: Components)
    requires AddUp(hdr, offset + c.length, count, rest) && c.offset < U32 && c.size < U32
    requires IsConsComponent(whole, c, rest)
    ensures AddUp(hdr, offset, count + 1, whole)
  {
    if rest.Components? {
      ComponentBytesCons(c, rest.list);
    }
  }

  lemma {:induction false} ComponentsAddUp(dec: Decoders, hdr: seq<Byte>, offset: nat, count: nat, whole: Components)
    requires WellBehaved(dec) && offset <= |hdr| && whole == ComponentsFrom(dec, hdr, offset, count)
    ensures AddUp(hdr, offset, count, whole)
    decreases count
  {
    if count > 0 && offset < |hdr| && dec.component(hdr[offset..]).RawComponent? {
      var c := ComponentOf(dec.component(hdr[offset..]));
      ComponentsFromStep(dec, hdr, offset, count);
      var rest := ComponentsFrom(dec, hdr, offset + c.length, count - 1);
      ComponentsAddUp(dec, hdr, offset + c.length, count - 1, rest);
      AddUpCons(hdr, offset, count - 1, c, rest, whole);
    }
  }

  // ----- the tiling of the package

  /** The components follow each other without gap or overlap from `start` to `end`. */
  predicate Tiles(list: seq<Component>, start: nat, end: nat) {
    if list == [] then start == end
    else list[0].offset == start && Tiles(list[1..], start + list[0].size, end)
  }

  lemma {:induction false} TilesInOrder(list: seq<Component>, start: nat, end: nat, i: nat, j: nat)
    requires Tiles(list, start, end) && i < j < |list|
    ensures start <= list[i].offset && list[i].offset + list[i].size <= list[j].offset
    ensures list[j].offset + list[j].size <= end
    decreases |list|
  {
    if i > 0 {
      TilesInOrder(list[1..], start + list[0].size, end, i - 1, j - 1);
    } else {
      TilesWithin(list[1..], start + list[0].size, end, j - 1);
    }
  }

  lemma {:induction false} TilesWithin(list: seq<Component>, start: nat, end: nat, i: nat)
    requires Tiles(list, start, end) && i < |list|
    ensures start <= list[i].offset && list[i].offset + list[i].size <= end
    decreases |list|
  {
    if i > 0 {
      TilesWithin(list[1..], start + list[0].size, end, i - 1);
    } else if |list| > 1 {
      TilesWithin(list[1..], start + list[0].size, end, 0);
    }
  }

  /** Every position between the ends belongs to a component. */
  lemma {:induction false} TilesCover(list: seq<Component>, start: nat, end: nat, p: nat) returns (i: nat)
    requires Tiles(list, start, end) && start <= p < end
    ensures i < |list| && list[i].offset <= p < list[i].offset + list[i].size
    decreases |list|
  {
    if p < start + list[0].size {
      i := 0;
    } else {
      var k := TilesCover(list[1..], start + list[0].size, end, p);
      i := k + 1;
    }
  }

  /** They tile it exactly when the first starts at its start, each at the end of the one before, and the last ends it. */
  lemma {:induction false} TilesIff(list: seq<Component>, start: nat, end: nat)
    ensures Tiles(list, start, end) <==>
            if list == [] then start == end
            else && list[0].offset == start
                 && (forall i | 0 <= i < |list| - 1 :: list[i + 1].offset == list[i].offset + list[i].size)
                 && list[|list| - 1].offset + list[|list| - 1].size == end
    decreases |list|
  {
    if list != [] {
      var rest := list[1..];
      TilesIff(rest, start + list[0].size, end);
      assert forall i | 0 <= i < |rest| :: rest[i] == list[i + 1];
      if rest != [] && list[0].offset == start {
        if forall i | 0 <= i < |list| - 1 :: list[i + 1].offset == list[i].offset + list[i].size {
          forall i | 0 <= i < |rest| - 1 ensures rest[i + 1].offset == rest[i].offset + rest[i].size {
            assert list[i + 1 + 1].offset == list[i + 1].offset + list[i + 1].size;
          }
        }
        if Tiles(list, start, end) {
          forall i | 0 <= i < |list| - 1 ensures list[i + 1].offset == list[i].offset + list[i].size {
            if i > 0 {
              assert rest[i - 1 + 1].offset == rest[i - 1].offset + rest[i - 1].size;
            }
          }
        }
      }
    }
  }

  /** validatePkgTotalSize: passes exactly when the components tile the rest of the package. */
  method ValidatePkgTotalSize(pkgHeaderSize: nat, components: seq<Component>, pkgSize: nat) returns (ok: bool)
    ensures ok <==> Tiles(components, pkgHeaderSize, pkgSize)
  {
    var calcPkgSize: nat := pkgHeaderSize;
    for i := 0 to |components|
      invariant Tiles(components, pkgHeaderSize, pkgSize) <==> Tiles(components[i..], calcPkgSize, pkgSize)
    {
      assert components[i..][1..] == components[i + 1..];
      if components[i].offset != calcPkgSize {
        return false;
      }
      calcPkgSize := calcPkgSize + components[i].size;
    }
    ok := calcPkgSize == pkgSize;
  }

  // ----- the parser object

  /** What is known of an accepted package. */
  ghost predicate Accepted(hdr: seq<Byte>, pkgHeaderSize: nat, versionLength: nat, pkgSize: nat, crc: seq<Byte> -> nat,
                           records: seq<DeviceRecord>, components: seq<Component>)
  {
    var recordsAt := SIZEOF_HEADER_INFO + versionLength + SIZEOF_RECORD_COUNT;
    var componentsAt := recordsAt + RecordBytes(records) + SIZEOF_COMPONENT_COUNT;
    var checksumAt := componentsAt + ComponentBytes(components);
    // the declared numbers of records and components are the actual ones
    && componentsAt <= checksumAt && checksumAt + SIZEOF_CHECKSUM == pkgHeaderSize < |hdr|
    && |records| == hdr[recordsAt - 1]
    && |components| == Le16(hdr[componentsAt - 2], hdr[componentsAt - 1])
    // the checksum covers everything before it
    && crc(hdr[..checksumAt]) == ChecksumAt(hdr, checksumAt)
    // the components tile everything from the header's end to the package's end
    && Tiles(components, pkgHeaderSize, pkgSize)
    && forall c | c in components :: c.offset < U32 && c.size < U32
  }

  /** The checks after both areas: the header ends with the checksum, and the components tile the package. */
  ghost predicate Checked(crc: seq<Byte> -> nat, hdr: seq<Byte>, pkgHeaderSize: nat, pkgSize: nat, components: Components, count: nat) {
    && components.Components? && |components.list| == count
    && components.end + SIZEOF_CHECKSUM == pkgHeaderSize < |hdr|
    && crc(hdr[..components.end]) == ChecksumAt(hdr, components.end)
    && Tiles(components.list, pkgHeaderSize, pkgSize)
  }

  ghost function DecodedRecords(dec: Decoders, hdr: seq<Byte>, versionLength: nat): Records
    requires WellBehaved(dec)
  {
    var at := SIZEOF_HEADER_INFO + versionLength;
    if at < |hdr| then RecordsFrom(dec, hdr, at + SIZEOF_RECORD_COUNT, hdr[at]) else BadRecords
  }

  ghost function DecodedComponents(dec: Decoders, hdr: seq<Byte>, at: nat): Components
    requires WellBehaved(dec)
  {
    if at + SIZEOF_COMPONENT_COUNT <= |hdr| then
      ComponentsFrom(dec, hdr, at + SIZEOF_COMPONENT_COUNT, Le16(hdr[at], hdr[at + 1]))
    else BadComponents
  }

  lemma {:induction false} DecodedRecordsAddUp(dec: Decoders, hdr: seq<Byte>, versionLength: nat)
    requires WellBehaved(dec)
    ensures var r := DecodedRecords(dec, hdr, versionLength);
            r.Records? ==> r.end == SIZEOF_HEADER_INFO + versionLength + SIZEOF_RECORD_COUNT + RecordBytes(r.list)
  {
    var at := SIZEOF_HEADER_INFO + versionLength;
    if at < |hdr| {
      RecordsAddUp(dec, hdr, at + SIZEOF_RECORD_COUNT, hdr[at], DecodedRecords(dec, hdr, versionLength));
    }
  }

  lemma {:induction false} DecodedComponentsAddUp(dec: Decoders, hdr: seq<Byte>, at: nat)
    requires WellBehaved(dec)
    ensures var c := DecodedComponents(dec, hdr, at);
            c.Components? ==>
              && c.end == at + SIZEOF_COMPONENT_COUNT + ComponentBytes(c.list)
              && forall x | x in c.list :: x.offset < U32 && x.size < U32
  {
    if at + SIZEOF_COMPONENT_COUNT <= |hdr| {
      ComponentsAddUp(dec, hdr, at + SIZEOF_COMPONENT_COUNT, Le16(hdr[at], hdr[at + 1]), DecodedComponents(dec, hdr, at));
    }
  }

  ghost predicate ComponentsAcceptable(dec: Decoders, hdr: seq<Byte>, pkgHeaderSize: nat, pkgSize: nat, at: nat)
    requires WellBehaved(dec)
  {
    && at + SIZEOF_COMPONENT_COUNT < pkgHeaderSize < |hdr|
    && Checked(dec.crc, hdr, pkgHeaderSize, pkgSize, DecodedComponents(dec, hdr, at), Le16(hdr[at], hdr[at + 1]))
  }

  /** The packages that parse does not throw on. */
  ghost predicate Acceptable(dec: Decoders, hdr: seq<Byte>, pkgHeaderSize: nat, versionLength: nat, pkgSize: nat)
    requires WellBehaved(dec)
  {
    && RecordsAcceptable(dec, hdr, pkgHeaderSize, versionLength)
    && ComponentsAcceptable(dec, hdr, pkgHeaderSize, pkgSize, DecodedRecords(dec, hdr, versionLength).end)
  }

  ghost predicate RecordsAcceptable(dec: Decoders, hdr: seq<Byte>, pkgHeaderSize: nat, versionLength: nat)
    requires WellBehaved(dec)
  {
    && SIZEOF_HEADER_INFO + versionLength + SIZEOF_RECORD_COUNT < pkgHeaderSize < |hdr|
    && var r := DecodedRecords(dec, hdr, versionLength);
       r.Records? && |r.list| == hdr[SIZEOF_HEADER_INFO + versionLength]
  }

  lemma {:induction false} CheckedIsAccepted(hdr: seq<Byte>, pkgHeaderSize: nat, versionLength: nat, pkgSize: nat,
                                             crc: seq<Byte> -> nat, r: Records, c: Components)
    requires r.Records? && SIZEOF_HEADER_INFO + versionLength < |hdr|
    requires |r.list| == hdr[SIZEOF_HEADER_INFO + versionLength]
    requires r.end == SIZEOF_HEADER_INFO + versionLength + SIZEOF_RECORD_COUNT + RecordBytes(r.list)
    requires r.end + SIZEOF_COMPONENT_COUNT < pkgHeaderSize < |hdr|
    requires Checked(crc, hdr, pkgHeaderSize, pkgSize, c, Le16(hdr[r.end], hdr[r.end + 1]))
    requires c.end == r.end + SIZEOF_COMPONENT_COUNT + ComponentBytes(c.list)
    requires forall x | x in c.list :: x.offset < U32 && x.size < U32
    ensures Accepted(hdr, pkgHeaderSize, versionLength, pkgSize, crc, r.list, c.list)
  {
  }

  lemma {:induction false} DecodedIsAccepted(
    dec: Decoders, hdr: seq<Byte>, pkgHeaderSize: nat, versionLength: nat, pkgSize: nat, r: Records)
    requires WellBehaved(dec) && r.Records? && SIZEOF_HEADER_INFO + versionLength < |hdr|
    requires |r.list| == hdr[SIZEOF_HEADER_INFO + versionLength]
    requires r.end == SIZEOF_HEADER_INFO + versionLength + SIZEOF_RECORD_COUNT + RecordBytes(r.list)
    requires ComponentsAcceptable(dec, hdr, pkgHeaderSize, pkgSize, r.end)
    ensures Accepted(hdr, pkgHeaderSize, versionLength, pkgSize, dec.crc, r.list, DecodedComponents(dec, hdr, r.end).list)
  {
    DecodedComponentsAddUp(dec, hdr, r.end);
    CheckedIsAccepted(hdr, pkgHeaderSize, versionLength, pkgSize, dec.crc, r, DecodedComponents(dec, hdr, r.end));
  }

  /** In an accepted package the numbers, the lengths, the checksum and the component ranges all agree. */
  lemma {:induction false} AcceptableIsAccepted(dec: Decoders, hdr: seq<Byte>, pkgHeaderSize: nat, versionLength: nat, pkgSize: nat)
    requires WellBehaved(dec) && Acceptable(dec, hdr, pkgHeaderSize, versionLength, pkgSize)
    ensures var r := DecodedRecords(dec, hdr, versionLength);
            var c := DecodedComponents(dec, hdr, r.end);
            Accepted(hdr, pkgHeaderSize, versionLength, pkgSize, dec.crc, r.list, c.list)
  {
    var r := DecodedRecords(dec, hdr, versionLength);
    assert ComponentsAcceptable(dec, hdr, pkgHeaderSize, pkgSize, r.end);
    DecodedRecordsAddUp(dec, hdr, versionLength);
    DecodedIsAccepted(dec, hdr, pkgHeaderSize, versionLength, pkgSize, r);
  }

  // ----- the decoded entries, one by one

  /** Component i is what the decoder reads at position at[i]; the next one starts behind it and its version string. */
  ghost predicate ComponentsRead(dec: Decoders, hdr: seq<Byte>, start: nat, end: nat, list: seq<Component>, at: seq<nat>) {
    && |at| == |list| + 1 && at[0] == start && at[|list|] == end
    && forall i | 0 <= i < |list| :: ComponentRead(dec, hdr, at[i], at[i + 1], list[i])
  }

  ghost predicate ComponentRead(dec: Decoders, hdr: seq<Byte>, p: nat, next: nat, c: Component) {
    && p <= |hdr| && dec.component(hdr[p..]).RawComponent?
    && var raw := dec.component(hdr[p..]);
       c.offset == raw.offset && c.size == raw.size && c.length == 22 + raw.versionLength && next == p + c.length
  }

  lemma {:induction false} ComponentsReadCons(
    dec: Decoders, hdr: seq<Byte>, p: nat, next: nat, end: nat, c: Component, list: seq<Component>, at: seq<nat>)
    requires ComponentRead(dec, hdr, p, next, c) && ComponentsRead(dec, hdr, next, end, list, at)
    ensures ComponentsRead(dec, hdr, p, end, [c] + list, [p] + at)
  {
    var all, more := [c] + list, [p] + at;
    forall i | 0 <= i < |all| ensures ComponentRead(dec, hdr, more[i], more[i + 1], all[i]) {
      assert i > 0 ==> ComponentRead(dec, hdr, at[i - 1], at[i], list[i - 1]);
    }
  }

  /** What parseCompImageInfoArea keeps is, in order, what the decoder reads, until the count or the bytes run out. */
  lemma {:induction false} ComponentsAreRead(dec: Decoders, hdr: seq<Byte>, start: nat, count: nat, whole: Components)
    returns (at: seq<nat>)
    requires WellBehaved(dec) && start <= |hdr| && whole == ComponentsFrom(dec, hdr, start, count) && whole.Components?
    ensures ComponentsRead(dec, hdr, start, whole.end, whole.list, at) && (|whole.list| == count || whole.end == |hdr|)
    decreases count
  {
    if count == 0 || start == |hdr| {
      at := [start];
    } else {
      var c := ComponentOf(dec.component(hdr[start..]));
      ComponentsFromStep(dec, hdr, start, count);
      var next := ComponentsFrom(dec, hdr, start + c.length, count - 1);
      var rest := ComponentsAreRead(dec, hdr, start + c.length, count - 1, next);
      ComponentsReadCons(dec, hdr, start, start + c.length, next.end, c, next.list, rest);
      at := [start] + rest;
    }
  }

  /** Record i is what the decoder reads at position at[i]: it applies to exactly the components of the bitmap. */
  ghost predicate RecordsRead(dec: Decoders, hdr: seq<Byte>, start: nat, end: nat, list: seq<DeviceRecord>, at: seq<nat>) {
    && |at| == |list| + 1 && at[0] == start && at[|list|] == end
    && forall i | 0 <= i < |list| :: RecordRead(dec, hdr, at[i], at[i + 1], list[i])
  }

  ghost predicate RecordRead(dec: Decoders, hdr: seq<Byte>, p: nat, next: nat, r: DeviceRecord) {
    && p <= |hdr| && dec.record(hdr[p..]).RawRecord?
    && var raw := dec.record(hdr[p..]);
       r.length == raw.length && next == p + r.length && AppliesTo(r.applicable, raw.bitmap)
  }

  lemma {:induction false} RecordsReadCons(
    dec: Decoders, hdr: seq<Byte>, p: nat, next: nat, end: nat, r: DeviceRecord, list: seq<DeviceRecord>, at: seq<nat>)
    requires RecordRead(dec, hdr, p, next, r) && RecordsRead(dec, hdr, next, end, list, at)
    ensures RecordsRead(dec, hdr, p, end, [r] + list, [p] + at)
  {
    var all, more := [r] + list, [p] + at;
    forall i | 0 <= i < |all| ensures RecordRead(dec, hdr, more[i], more[i + 1], all[i]) {
      assert i > 0 ==> RecordRead(dec, hdr, at[i - 1], at[i], list[i - 1]);
    }
  }

  /** What parseFDIdentificationArea keeps is, in order, what the decoder reads, until the count or the bytes run out. */
  lemma {:induction false} RecordsAreRead(dec: Decoders, hdr: seq<Byte>, start: nat, count: nat, whole: Records)
    returns (at: seq<nat>)
    requires WellBehaved(dec) && start <= |hdr| && whole == RecordsFrom(dec, hdr, start, count) && whole.Records?
    ensures RecordsRead(dec, hdr, start, whole.end, whole.list, at) && (|whole.list| == count || whole.end == |hdr|)
    ensures whole.end <= |hdr| && |whole.list| <= count
    decreases count
  {
    if count == 0 || start == |hdr| {
      at := [start];
    } else {
      var r := RecordsFromStep(dec, hdr, start, count);
      var next := RecordsFrom(dec, hdr, start + r.length, count - 1);
      var rest := RecordsAreRead(dec, hdr, start + r.length, count - 1, next);
      RecordsReadCons(dec, hdr, start, start + r.length, next.end, r, next.list, rest);
      at := [start] + rest;
    }
  }

  lemma {:induction false} ReadRecordsDecode(
    dec: Decoders, hdr: seq<Byte>, start: nat, end: nat, list: seq<DeviceRecord>, at: seq<nat>)
    requires WellBehaved(dec) && start <= |hdr| && end < |hdr| && RecordsRead(dec, hdr, start, end, list, at)
    ensures start <= end
    ensures var r := RecordsFrom(dec, hdr, start, |list|); r.Records? && |r.list| == |list| && r.end == end
    decreases |list|
  {
    if list != [] {
      var rest, more := list[1..], at[1..];
      assert RecordRead(dec, hdr, at[0], at[1], list[0]);
      forall i | 0 <= i < |rest| ensures RecordRead(dec, hdr, more[i], more[i + 1], rest[i]) {
        assert RecordRead(dec, hdr, at[i + 1], at[i + 2], list[i + 1]);
      }
      ReadRecordsDecode(dec, hdr, at[1], end, rest, more);
    }
  }

  lemma {:induction false} ComponentsReadTail(
    dec: Decoders, hdr: seq<Byte>, start: nat, end: nat, list: seq<Component>, at: seq<nat>)
    requires list != [] && ComponentsRead(dec, hdr, start, end, list, at)
    ensures ComponentRead(dec, hdr, start, at[1], list[0])
    ensures ComponentsRead(dec, hdr, at[1], end, list[1..], at[1..])
  {
    assert ComponentRead(dec, hdr, at[0], at[1], list[0]);
    var rest, more := list[1..], at[1..];
    forall i | 0 <= i < |rest| ensures ComponentRead(dec, hdr, more[i], more[i + 1], rest[i]) {
      assert ComponentRead(dec, hdr, at[i + 1], at[i + 2], list[i + 1]);
    }
  }

  lemma {:induction false} ReadComponentsDecode(
    dec: Decoders, hdr: seq<Byte>, start: nat, end: nat, list: seq<Component>, at: seq<nat>)
    requires WellBehaved(dec) && start <= |hdr| && end < |hdr| && ComponentsRead(dec, hdr, start, end, list, at)
    ensures start <= end
    ensures var r := ComponentsFrom(dec, hdr, start, |list|); r.Components? && r.list == list && r.end == end
    decreases |list|
  {
    if list != [] {
      var c, next, rest := list[0], at[1], list[1..];
      ComponentsReadTail(dec, hdr, start, end, list, at);
      assert c == ComponentOf(dec.component(hdr[start..])) && next == start + c.length;
      var tail := ComponentsFrom(dec, hdr, next, |rest|);
      assert next <= end && tail.Components? && tail.list == rest && tail.end == end by {
        ReadComponentsDecode(dec, hdr, next, end, rest, at[1..]);
      }
      ComponentsFromStep(dec, hdr, start, |list|);
      assert list == [c] + rest;
    }
  }

  /** The components fill the package from one end to the other. */
  ghost predicate Fills(list: seq<Component>, start: nat, end: nat) {
    if list == [] then start == end
    else && list[0].offset == start
         && (forall i | 0 <= i < |list| - 1 :: list[i + 1].offset == list[i].offset + list[i].size)
         && list[|list| - 1].offset + list[|list| - 1].size == end
  }

  /** The header reads as these records, as many as it says. */
  ghost predicate ReadsRecords(
    dec: Decoders, hdr: seq<Byte>, pkgHeaderSize: nat, versionLength: nat,
    records: seq<DeviceRecord>, at: seq<nat>, end: nat)
  {
    && 36 + versionLength + 1 < pkgHeaderSize < |hdr|
    && |records| == hdr[36 + versionLength]
    && RecordsRead(dec, hdr, 36 + versionLength + 1, end, records, at)
  }

  /** From `start` on it reads as these components, then the checksum of all before it, which ends the header. */
  ghost predicate ReadsComponents(
    dec: Decoders, hdr: seq<Byte>, pkgHeaderSize: nat, pkgSize: nat, start: nat,
    components: seq<Component>, at: seq<nat>, end: nat)
  {
    && start + 2 < pkgHeaderSize < |hdr|
    && |components| == hdr[start] as int + 0x100 * (hdr[start + 1] as int)
    && ComponentsRead(dec, hdr, start + 2, end, components, at)
    && end + 4 == pkgHeaderSize
    && dec.crc(hdr[..end]) == hdr[end] as int + 0x100 * (hdr[end + 1] as int)
                              + 0x1_0000 * (hdr[end + 2] as int) + 0x100_0000 * (hdr[end + 3] as int)
    && Fills(components, pkgHeaderSize, pkgSize)
  }

  /** The header reads as records up to `middle` and components from there, with everything in its place. */
  ghost predicate ReadableFrom(
    dec: Decoders, hdr: seq<Byte>, pkgHeaderSize: nat, versionLength: nat, pkgSize: nat, middle: nat)
  {
    && (exists records, at :: ReadsRecords(dec, hdr, pkgHeaderSize, versionLength, records, at, middle))
    && (exists components, at, end :: ReadsComponents(dec, hdr, pkgHeaderSize, pkgSize, middle, components, at, end))
  }

  lemma {:induction false} RecordsReadable(dec: Decoders, hdr: seq<Byte>, pkgHeaderSize: nat, versionLength: nat)
    requires WellBehaved(dec) && RecordsAcceptable(dec, hdr, pkgHeaderSize, versionLength)
    ensures exists records, at ::
              ReadsRecords(dec, hdr, pkgHeaderSize, versionLength, records, at, DecodedRecords(dec, hdr, versionLength).end)
  {
    var start := SIZEOF_HEADER_INFO + versionLength + SIZEOF_RECORD_COUNT;
    var r := DecodedRecords(dec, hdr, versionLength);
    var at := RecordsAreRead(dec, hdr, start, hdr[start - 1], r);
    assert ReadsRecords(dec, hdr, pkgHeaderSize, versionLength, r.list, at, r.end);
  }

  lemma {:induction false} ComponentsReadable(dec: Decoders, hdr: seq<Byte>, pkgHeaderSize: nat, pkgSize: nat, start: nat)
    requires WellBehaved(dec) && ComponentsAcceptable(dec, hdr, pkgHeaderSize, pkgSize, start)
    ensures exists components, at, end ::
              ReadsComponents(dec, hdr, pkgHeaderSize, pkgSize, start, components, at, end)
  {
    var c := DecodedComponents(dec, hdr, start);
    var at := ComponentsAreRead(dec, hdr, start + SIZEOF_COMPONENT_COUNT, Le16(hdr[start], hdr[start + 1]), c);
    LittleEndian(hdr[c.end], hdr[c.end + 1], hdr[c.end + 2], hdr[c.end + 3]);
    TilesIff(c.list, pkgHeaderSize, pkgSize);
    assert ReadsComponents(dec, hdr, pkgHeaderSize, pkgSize, start, c.list, at, c.end);
  }

  lemma {:induction false} ReadRecordsAcceptable(
    dec: Decoders, hdr: seq<Byte>, pkgHeaderSize: nat, versionLength: nat,
    records: seq<DeviceRecord>, at: seq<nat>, end: nat)
    requires WellBehaved(dec) && end < |hdr|
    requires ReadsRecords(dec, hdr, pkgHeaderSize, versionLength, records, at, end)
    ensures RecordsAcceptable(dec, hdr, pkgHeaderSize, versionLength)
    ensures DecodedRecords(dec, hdr, versionLength).end == end
  {
    ReadRecordsDecode(dec, hdr, 36 + versionLength + 1, end, records, at);
  }

  lemma {:induction false} ReadComponentsAcceptable(
    dec: Decoders, hdr: seq<Byte>, pkgHeaderSize: nat, pkgSize: nat, start: nat,
    components: seq<Component>, at: seq<nat>, end: nat)
    requires WellBehaved(dec)
    requires ReadsComponents(dec, hdr, pkgHeaderSize, pkgSize, start, components, at, end)
    ensures ComponentsAcceptable(dec, hdr, pkgHeaderSize, pkgSize, start)
  {
    ReadComponentsDecode(dec, hdr, start + 2, end, components, at);
    assert Tiles(components, pkgHeaderSize, pkgSize) by { TilesIff(components, pkgHeaderSize, pkgSize); }
    assert ChecksumAt(hdr, end) == dec.crc(hdr[..end]) by {
      LittleEndian(hdr[end], hdr[end + 1], hdr[end + 2], hdr[end + 3]);
    }
  }

  /** The packages that parse does not throw on are exactly those that read as records and components in their places. */
  lemma {:induction false} AcceptableIffReadable(
    dec: Decoders, hdr: seq<Byte>, pkgHeaderSize: nat, versionLength: nat, pkgSize: nat)
    requires WellBehaved(dec)
    ensures Acceptable(dec, hdr, pkgHeaderSize, versionLength, pkgSize)
       <==> exists middle :: ReadableFrom(dec, hdr, pkgHeaderSize, versionLength, pkgSize, middle)
  {
    if Acceptable(dec, hdr, pkgHeaderSize, versionLength, pkgSize) {
      var middle := DecodedRecords(dec, hdr, versionLength).end;
      RecordsReadable(dec, hdr, pkgHeaderSize, versionLength);
      ComponentsReadable(dec, hdr, pkgHeaderSize, pkgSize, middle);
      assert ReadableFrom(dec, hdr, pkgHeaderSize, versionLength, pkgSize, middle);
    }
    if middle :| ReadableFrom(dec, hdr, pkgHeaderSize, versionLength, pkgSize, middle) {
      var components, cat, end :| ReadsComponents(dec, hdr, pkgHeaderSize, pkgSize, middle, components, cat, end);
      ReadComponentsAcceptable(dec, hdr, pkgHeaderSize, pkgSize, middle, components, cat, end);
      var records, at :| ReadsRecords(dec, hdr, pkgHeaderSize, versionLength, records, at, middle);
      ReadRecordsAcceptable(dec, hdr, pkgHeaderSize, versionLength, records, at, middle);
    }
  }

  // ----- the components that records select

  /** No bit from `count` on is set. */
  ghost predicate NoBitFrom(bitmap: seq<Byte>, count: nat) {
    forall k: nat | BitmapBit(bitmap, k) :: k < count
  }

  ghost predicate SelectsWithin(r: DeviceRecord, count: nat) {
    forall k | k in r.applicable :: k < count
  }

  ghost predicate AllWithin(list: seq<DeviceRecord>, count: nat) {
    forall r | r in list :: SelectsWithin(r, count)
  }

  /** The record that the decoder reads at p has no bit from `count` on. */
  ghost predicate ClearAt(dec: Decoders, hdr: seq<Byte>, p: nat, count: nat) {
    p <= |hdr| && dec.record(hdr[p..]).RawRecord? && NoBitFrom(dec.record(hdr[p..]).bitmap, count)
  }

  lemma {:induction false} WithinIff(applicable: seq<nat>, bitmap: seq<Byte>, count: nat)
    requires AppliesTo(applicable, bitmap)
    ensures (forall k | k in applicable :: k < count) <==> NoBitFrom(bitmap, count)
  {
    forall k: nat ensures k in applicable <==> BitmapBit(bitmap, k) {
      if k / 8 < |bitmap| {
        BitIsParity(bitmap[k / 8], k % 8);
      }
    }
  }

  lemma {:induction false} AllWithinIff(
    dec: Decoders, hdr: seq<Byte>, start: nat, end: nat, list: seq<DeviceRecord>, at: seq<nat>, count: nat)
    requires RecordsRead(dec, hdr, start, end, list, at)
    ensures AllWithin(list, count) <==> forall i | 0 <= i < |list| :: ClearAt(dec, hdr, at[i], count)
  {
    forall i | 0 <= i < |list| ensures SelectsWithin(list[i], count) <==> ClearAt(dec, hdr, at[i], count) {
      assert RecordRead(dec, hdr, at[i], at[i + 1], list[i]);
      WithinIff(list[i].applicable, dec.record(hdr[at[i]..]).bitmap, count);
    }
  }

  /**
   parse does not compare the records with the number of components: in an accepted package every record selects
   existing components only, which the update relies on, exactly when no bitmap has a bit set from that number on.
   */
  lemma {:induction false} ApplicableInRangeIff(
    dec: Decoders, hdr: seq<Byte>, pkgHeaderSize: nat, versionLength: nat, pkgSize: nat)
    returns (at: seq<nat>)
    requires WellBehaved(dec) && Acceptable(dec, hdr, pkgHeaderSize, versionLength, pkgSize)
    ensures var r := DecodedRecords(dec, hdr, versionLength);
            var n := |DecodedComponents(dec, hdr, r.end).list|;
            && RecordsRead(dec, hdr, SIZEOF_HEADER_INFO + versionLength + SIZEOF_RECORD_COUNT, r.end, r.list, at)
            && (AllWithin(r.list, n) <==> forall i | 0 <= i < |r.list| :: ClearAt(dec, hdr, at[i], n))
  {
    var r := DecodedRecords(dec, hdr, versionLength);
    var start := SIZEOF_HEADER_INFO + versionLength + SIZEOF_RECORD_COUNT;
    at := RecordsAreRead(dec, hdr, start, hdr[start - 1], r);
    AllWithinIff(dec, hdr, start, r.end, r.list, at, |DecodedComponents(dec, hdr, r.end).list|);
  }

  /** Decoders that read a record of one byte, for the second component, and a component at position 66 of size 1. */
  function BeyondDecoders(): Decoders {
    Decoders((s: seq<Byte>) => if |s| >= 1 then RawRecord(1, [2]) else BadRecord,
             (s: seq<Byte>) => if |s| >= SIZEOF_COMPONENT_INFO then RawComponent(0, 66, 1) else BadComponent,
             (s: seq<Byte>) => 0)
  }

  /** One record, one component, and one byte of image. */
  function BeyondPackage(): seq<Byte> {
    Zeros(SIZEOF_HEADER_INFO) + [1, 0, 1, 0] + Zeros(27)
  }

  lemma {:induction false} BeyondBytes()
    ensures var hdr := BeyondPackage();
            && |hdr| == 67 && hdr[36] == 1 && hdr[38] == 1 && hdr[39] == 0
            && hdr[62] == hdr[63] == hdr[64] == hdr[65] == 0
  {
  }

  lemma {:induction false} BeyondRecords(hdr: seq<Byte>)
    requires |hdr| == 67 && WellBehaved(BeyondDecoders())
    ensures RecordsFrom(BeyondDecoders(), hdr, 37, 1) == Records([RecordOf(RawRecord(1, [2]))], 38)
  {
    assert RecordsFrom(BeyondDecoders(), hdr, 38, 0) == Records([], 38);
  }

  lemma {:induction false} BeyondComponents(hdr: seq<Byte>)
    requires |hdr| == 67 && WellBehaved(BeyondDecoders())
    ensures ComponentsFrom(BeyondDecoders(), hdr, 40, 1) == Components([Component(66, 1, SIZEOF_COMPONENT_INFO)], 62)
  {
    assert ComponentsFrom(BeyondDecoders(), hdr, 62, 0) == Components([], 62);
  }

  lemma {:induction false} SecondIsSelected()
    ensures 1 in RecordOf(RawRecord(1, [2])).applicable
  {
    SelectedIsBitmap([2]);
    assert BitmapBit([2], 1);
  }

  lemma {:induction false} BeyondDecoded(dec: Decoders, hdr: seq<Byte>, r: DeviceRecord, c: Component)
    requires WellBehaved(dec) && |hdr| == 67 && hdr[36] == 1 && hdr[38] == 1 && hdr[39] == 0
    requires RecordsFrom(dec, hdr, 37, 1) == Records([r], 38)
    requires ComponentsFrom(dec, hdr, 40, 1) == Components([c], 62)
    ensures DecodedRecords(dec, hdr, 0) == Records([r], 38)
    ensures DecodedComponents(dec, hdr, 38) == Components([c], 62)
  {
  }

  lemma {:induction false} BeyondChecked(dec: Decoders, hdr: seq<Byte>, c: Component)
    requires |hdr| == 67 && hdr[62] == hdr[63] == hdr[64] == hdr[65] == 0 && dec.crc(hdr[..62]) == 0
    requires c.offset == 66 && c.size == 1
    ensures Checked(dec.crc, hdr, 66, 67, Components([c], 62), 1)
  {
    assert Tiles([c][1..], 67, 67);
  }

  /** An accepted package of one component whose record selects a second one. */
  lemma {:induction false} AcceptedMaySelectBeyond()
    ensures var dec, hdr := BeyondDecoders(), BeyondPackage();
            && WellBehaved(dec) && Acceptable(dec, hdr, 66, 0, 67)
            && var r := DecodedRecords(dec, hdr, 0);
               !AllWithin(r.list, |DecodedComponents(dec, hdr, r.end).list|)
  {
    var dec, hdr := BeyondDecoders(), BeyondPackage();
    BeyondBytes();
    BeyondRecords(hdr);
    BeyondComponents(hdr);
    var r, c := RecordOf(RawRecord(1, [2])), Component(66, 1, SIZEOF_COMPONENT_INFO);
    BeyondDecoded(dec, hdr, r, c);
    BeyondChecked(dec, hdr, c);
    SecondIsSelected();
    assert r in [r] && !SelectsWithin(r, 1);
  }

  method ReadRecord(raw: RawRecord) returns (r: DeviceRecord)
    requires raw.RawRecord?
    ensures r == RecordOf(raw)
  {
    var list := ApplicableComponents(raw.bitmap);
    r := DeviceRecord(list, raw.length);
  }

  class Parser {
    const pkgHeaderSize: nat
    const versionLength: nat
    var records: seq<DeviceRecord>
    var components: seq<Component>

    constructor (pkgHeaderSize: nat, versionLength: nat)
      ensures this.pkgHeaderSize == pkgHeaderSize && this.versionLength == versionLength
      ensures records == [] && components == []
    {
      this.pkgHeaderSize, this.versionLength := pkgHeaderSize, versionLength;
      records, components := [], [];
    }

    method ParseFDIdentificationArea(dec: Decoders, deviceIdRecCount: nat, hdr: seq<Byte>, start: nat)
      returns (ok: bool, offset: nat)
      requires WellBehaved(dec) && start <= |hdr| && records == []
      modifies `records
      ensures var r := RecordsFrom(dec, hdr, start, deviceIdRecCount);
              ok == r.Records? && (ok ==> records == r.list && offset == r.end)
    {
      offset := start;
      var count, remaining := deviceIdRecCount, |hdr| - start;
      ghost var whole := RecordsFrom(dec, hdr, start, deviceIdRecCount);
      while count > 0 && remaining > 0
        invariant start <= offset <= |hdr| && remaining == |hdr| - offset
        invariant RecordsContinue(whole, records, RecordsFrom(dec, hdr, offset, count))
        decreases count
      {
        var raw := dec.record(hdr[offset..]);
        if raw.BadRecord? {
          return false, offset;
        }
        var r := ReadRecord(raw);
        RecordsStep(whole, records, r, RecordsFrom(dec, hdr, offset + raw.length, count - 1));
        count := count - 1;
        offset := offset + raw.length;
        records := records + [r];
        remaining := remaining - raw.length;
      }
      assert records + [] == records;
      ok := true;
    }

    method ParseCompImageInfoArea(dec: Decoders, compImageCount: nat, hdr: seq<Byte>, start: nat)
      returns (ok: bool, offset: nat)
      requires WellBehaved(dec) && start <= |hdr| && components == []
      modifies `components
      ensures var r := ComponentsFrom(dec, hdr, start, compImageCount);
              ok == r.Components? && (ok ==> components == r.list && offset == r.end)
    {
      offset := start;
      var count, remaining := compImageCount, |hdr| - start;
      ghost var whole := ComponentsFrom(dec, hdr, start, compImageCount);
      while count > 0 && remaining > 0
        invariant start <= offset <= |hdr| && remaining == |hdr| - offset
        invariant ComponentsContinue(whole, components, ComponentsFrom(dec, hdr, offset, count))
        decreases count
      {
        var raw := dec.component(hdr[offset..]);
        if raw.BadComponent? {
          return false, offset;
        }
        var c := ComponentOf(raw);
        var length := SIZEOF_COMPONENT_INFO + raw.versionLength;
        ComponentsStep(whole, components, c, ComponentsFrom(dec, hdr, offset + length, count - 1));
        count := count - 1;
        offset := offset + length;
        components := components + [c];
        remaining := remaining - length;
      }
      assert components + [] == components;
      ok := true;
    }

    /** The second half of parse, from the component count at `start` on. */
    method ParseComponents(dec: Decoders, hdr: seq<Byte>, pkgSize: nat, start: nat) returns (ok: bool)
      requires WellBehaved(dec) && components == [] && pkgHeaderSize < |hdr|
      modifies `components
      ensures ok <==> ComponentsAcceptable(dec, hdr, pkgHeaderSize, pkgSize, start)
      ensures ok ==> components == DecodedComponents(dec, hdr, start).list
    {
      if start + SIZEOF_COMPONENT_COUNT >= pkgHeaderSize {
        return false;
      }
      var compImageCount := Le16(hdr[start], hdr[start + 1]);
      var offset := start + SIZEOF_COMPONENT_COUNT;
      ok, offset := ParseCompImageInfoArea(dec, compImageCount, hdr, offset);
      if !ok || compImageCount != |components| {
        return false;
      }
      if offset + SIZEOF_CHECKSUM != pkgHeaderSize {
        return false;
      }
      var calcChecksum := dec.crc(hdr[..offset]);
      if calcChecksum != ChecksumAt(hdr, offset) {
        return false;
      }
      ok := ValidatePkgTotalSize(pkgHeaderSize, components, pkgSize);
    }

    /** The first half of parse: the device identification records. */
    method ParseRecords(dec: Decoders, hdr: seq<Byte>) returns (ok: bool, offset: nat)
      requires WellBehaved(dec) && records == [] && pkgHeaderSize < |hdr|
      modifies `records
      ensures ok <==> RecordsAcceptable(dec, hdr, pkgHeaderSize, versionLength)
      ensures ok ==> var r := DecodedRecords(dec, hdr, versionLength); records == r.list && offset == r.end
    {
      offset := SIZEOF_HEADER_INFO + versionLength;
      if offset + SIZEOF_RECORD_COUNT >= pkgHeaderSize {
        return false, offset;
      }
      var deviceIdRecCount := hdr[offset];
      offset := offset + SIZEOF_RECORD_COUNT;
      ok, offset := ParseFDIdentificationArea(dec, deviceIdRecCount, hdr, offset);
      ok := ok && deviceIdRecCount == |records|;
    }

    /** parse: it does not throw exactly on the acceptable packages, and keeps what it decoded. */
    method Parse(dec: Decoders, hdr: seq<Byte>, pkgSize: nat) returns (ok: bool)
      requires WellBehaved(dec) && records == [] && components == []
      modifies this
      ensures ok <==> Acceptable(dec, hdr, pkgHeaderSize, versionLength, pkgSize)
      ensures ok ==> var r := DecodedRecords(dec, hdr, versionLength);
                     records == r.list && components == DecodedComponents(dec, hdr, r.end).list
    {
      if pkgHeaderSize >= |hdr| {
        return false;
      }
      var offset;
      ok, offset := ParseRecords(dec, hdr);
      if !ok {
        return false;
      }
      ok := ParseComponents(dec, hdr, pkgSize, offset);
    }
  }

  /** The whole area is what has been read so far followed by the rest. */
  ghost predicate RecordsContinue(whole: Records, list: seq<DeviceRecord>, rest: Records) {
    whole.Records? == rest.Records? && (rest.Records? ==> whole.list == list + rest.list && whole.end == rest.end)
  }

  ghost predicate ComponentsContinue(whole: Components, list: seq<Component>, rest: Components) {
    whole.Components? == rest.Components? && (rest.Components? ==> whole.list == list + rest.list && whole.end == rest.end)
  }

  lemma {:induction false} RecordsStep(whole: Records, list: seq<DeviceRecord>, r: DeviceRecord, rest: Records)
    requires RecordsContinue(whole, list, ConsRecord(r, rest))
    ensures RecordsContinue(whole, list + [r], rest)
  {
    if rest.Records? {
      assert list + ([r] + rest.list) == (list + [r]) + rest.list;
    }
  }

  lemma {:induction false} ComponentsStep(whole: Components, list: seq<Component>, c: Component, rest: Components)
    requires ComponentsContinue(whole, list, ConsComponent(c, rest))
    ensures ComponentsContinue(whole, list + [c], rest)
  {
    if rest.Components? {
      assert list + ([c] + rest.list) == (list + [c]) + rest.list;
    }
  }
}
