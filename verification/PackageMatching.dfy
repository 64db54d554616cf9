/**
 Matching firmware devices with the device identification records of a package: associatePkgToDevices and the
 creation of updaters in processStream (fw-update/update_manager.cpp).
 */
module PackageMatching {
  import opened Bytes

  /** The value of a descriptor: plain data, or the title and data of a vendor-defined one. */
  datatype Value = Plain(data: seq<Byte>) | Vendor(title: seq<Byte>, data: seq<Byte>)

  datatype Descriptor = Descriptor(kind: nat, value: Value)

  // ----- the order std::includes compares descriptors by

  predicate LexLess(a: seq<Byte>, b: seq<Byte>)
    decreases |a|
  {
    if b == [] then false
    else if a == [] then true
    else a[0] < b[0] || (a[0] == b[0] && LexLess(a[1..], b[1..]))
  }

  predicate ValueLess(a: Value, b: Value) {
    match (a, b)
    case (Plain(x), Plain(y)) => LexLess(x, y)
    case (Plain(_), Vendor(_, _)) => true
    case (Vendor(_, _), Plain(_)) => false
    case (Vendor(s, x), Vendor(t, y)) => LexLess(s, t) || (!LexLess(t, s) && LexLess(x, y))
  }

  predicate Less(a: Descriptor, b: Descriptor) {
    a.kind < b.kind || (a.kind == b.kind && ValueLess(a.value, b.value))
  }

  /** Neither of two strings comes before the other exactly when they are the same. */
  lemma {:induction false} LexTrichotomy(a: seq<Byte>, b: seq<Byte>)
    ensures !LexLess(a, b) && !LexLess(b, a) <==> a == b
    ensures !(LexLess(a, b) && LexLess(b, a))
    decreases |a|
  {
    if a != [] && b != [] {
      LexTrichotomy(a[1..], b[1..]);
      if a[0] == b[0] && a[1..] == b[1..] {
        assert a == [a[0]] + a[1..] == [b[0]] + b[1..] == b;
      }
    }
  }

  /** The strings agree up to n, and there the first one ends or has the smaller byte. */
  predicate DiffersAt(a: seq<Byte>, b: seq<Byte>, n: nat) {
    n <= |a| && n < |b| && a[..n] == b[..n] && (n == |a| || a[n] < b[n])
  }

  /** The order is the lexicographic one. */
  lemma {:induction false} LexLessIff(a: seq<Byte>, b: seq<Byte>)
    ensures LexLess(a, b) <==> exists n: nat :: DiffersAt(a, b, n)
    decreases |a|
  {
    if a != [] && b != [] && a[0] == b[0] {
      LexLessIff(a[1..], b[1..]);
      if n: nat :| DiffersAt(a[1..], b[1..], n) {
        assert a[..n + 1] == [a[0]] + a[1..][..n] && b[..n + 1] == [b[0]] + b[1..][..n];
        assert DiffersAt(a, b, n + 1);
      }
      if n: nat :| DiffersAt(a, b, n) {
        assert n > 0;
        assert a[1..][..n - 1] == a[..n][1..] && b[1..][..n - 1] == b[..n][1..];
        assert DiffersAt(a[1..], b[1..], n - 1);
      }
    } else if LexLess(a, b) {
      assert DiffersAt(a, b, 0);
    } else {
      forall n: nat ensures !DiffersAt(a, b, n) {
        if 0 < n <= |a| && n <= |b| {
          assert a[..n][0] == a[0] && b[..n][0] == b[0];
        }
      }
    }
  }

  lemma {:induction false} LessTrichotomy(a: Descriptor, b: Descriptor)
    ensures !Less(a, b) && !Less(b, a) <==> a == b
    ensures !(Less(a, b) && Less(b, a))
  {
    if a.value.Plain? && b.value.Plain? {
      LexTrichotomy(a.value.data, b.value.data);
    } else if a.value.Vendor? && b.value.Vendor? {
      LexTrichotomy(a.value.title, b.value.title);
      LexTrichotomy(a.value.data, b.value.data);
    }
  }

  lemma {:induction false} LexTransitive(a: seq<Byte>, b: seq<Byte>, c: seq<Byte>)
    requires LexLess(a, b) && LexLess(b, c)
    ensures LexLess(a, c)
    decreases |a|
  {
    if a != [] && a[0] == b[0] == c[0] {
      LexTransitive(a[1..], b[1..], c[1..]);
    }
  }

  lemma {:induction false} LessTransitive(a: Descriptor, b: Descriptor, c: Descriptor)
    requires Less(a, b) && Less(b, c)
    ensures Less(a, c)
  {
    if a.kind == b.kind == c.kind {
      match (a.value, b.value, c.value)
      case (Plain(x), Plain(y), Plain(z)) => LexTransitive(x, y, z);
      case (Vendor(s, x), Vendor(t, y), Vendor(u, z)) =>
        LexTrichotomy(s, t);
        LexTrichotomy(t, u);
        LexTrichotomy(s, u);
        if LexLess(s, t) && LexLess(t, u) {
          LexTransitive(s, t, u);
        }
        if LexLess(x, y) && LexLess(y, z) {
          LexTransitive(x, y, z);
        }
      case _ =>
    }
  }

  // ----- std::includes

  /** A multimap holds its entries by increasing type; here no type occurs twice. */
  ghost predicate DistinctTypes(ds: seq<Descriptor>) {
    forall i, j | 0 <= i < j < |ds| :: ds[i].kind < ds[j].kind
  }

  /** The descriptors are in the order that the test compares by, none of them twice. */
  ghost predicate Sorted(ds: seq<Descriptor>) {
    forall i, j | 0 <= i < j < |ds| :: Less(ds[i], ds[j])
  }

  /** The merge of std::includes over two ranges, from the given positions on. */
  predicate IncludesFrom(device: seq<Descriptor>, record: seq<Descriptor>, i: nat, j: nat)
    requires i <= |device| && j <= |record|
    decreases |device| - i
  {
    if j == |record| then true
    else if i == |device| || Less(record[j], device[i]) then false
    else IncludesFrom(device, record, i + 1, if Less(device[i], record[j]) then j else j + 1)
  }

  method Includes(device: seq<Descriptor>, record: seq<Descriptor>) returns (included: bool)
    ensures included == IncludesFrom(device, record, 0, 0)
  {
    var i, j := 0, 0;
    while j < |record|
      invariant i <= |device| && j <= |record|
      invariant IncludesFrom(device, record, 0, 0) == IncludesFrom(device, record, i, j)
      decreases |device| - i
    {
      if i == |device| || Less(record[j], device[i]) {
        return false;
      }
      if !Less(device[i], record[j]) {
        j := j + 1;
      }
      i := i + 1;
    }
    included := true;
  }

  ghost predicate Subset(record: seq<Descriptor>, device: seq<Descriptor>) {
    forall d | d in record :: d in device
  }

  /**
   No descriptor of the device comes before an earlier one, except as a repetition: in the order of their first
   occurrences the descriptors rise.
   */
  ghost predicate FirstsRise(device: seq<Descriptor>) {
    forall i, j | 0 <= i < j < |device| && Less(device[j], device[i]) :: device[j] in device[..i]
  }

  /** What is left of the record is among what is left of the device. */
  ghost predicate RestIn(device: seq<Descriptor>, record: seq<Descriptor>, i: nat, j: nat)
    requires i <= |device|
  {
    forall k | j <= k < |record| :: record[k] in device[i..]
  }

  /** Nothing that is left of the record has been passed over in the device. */
  ghost predicate NonePassed(device: seq<Descriptor>, record: seq<Descriptor>, i: nat, j: nat)
    requires i <= |device|
  {
    forall k | j <= k < |record| :: record[k] !in device[..i]
  }

  /** A descriptor that comes before device[i] and was not passed over is not in what is left either. */
  lemma {:induction false} NotAmongGreater(device: seq<Descriptor>, i: nat, r: Descriptor)
    requires FirstsRise(device) && i < |device| && Less(r, device[i]) && r !in device[..i]
    ensures r !in device[i..]
  {
    forall k | i <= k < |device| ensures device[k] != r {
      if k == i {
        LessTrichotomy(r, device[k]);
      }
    }
  }

  lemma {:induction false} InTail(device: seq<Descriptor>, i: nat, d: Descriptor)
    requires i < |device|
    ensures d in device[i..] <==> d == device[i] || d in device[i + 1..]
    ensures d in device[..i + 1] <==> d == device[i] || d in device[..i]
  {
    assert device[i..] == [device[i]] + device[i + 1..];
    assert device[..i + 1] == device[..i] + [device[i]];
  }

  /** No record from position `from` on is device[i], so that device[i] can be dropped. */
  lemma {:induction false} RestInStep(device: seq<Descriptor>, record: seq<Descriptor>, i: nat, from: nat)
    requires i < |device|
    requires forall k | from <= k < |record| :: record[k] != device[i]
    ensures RestIn(device, record, i, from) <==> RestIn(device, record, i + 1, from)
    ensures NonePassed(device, record, i, from) ==> NonePassed(device, record, i + 1, from)
  {
    forall k | from <= k < |record|
      ensures record[k] in device[i..] <==> record[k] in device[i + 1..]
      ensures record[k] in device[..i + 1] <==> record[k] in device[..i]
    {
      InTail(device, i, record[k]);
    }
  }

  lemma {:induction false} LaterDiffer(record: seq<Descriptor>, from: nat, j: nat, d: Descriptor)
    requires Sorted(record) && j < |record|
    requires (from == j && Less(d, record[j])) || (from == j + 1 && d == record[j])
    ensures forall k | from <= k < |record| :: record[k] != d
  {
    forall k | from <= k < |record| ensures record[k] != d {
      if from == j && k > j {
        LessTransitive(d, record[j], record[k]);
      }
      LessTrichotomy(d, record[k]);
    }
  }

  /** Where device[i] is passed over or taken, what is left of the record goes on to be judged from i + 1. */
  lemma {:induction false} RestInNext(device: seq<Descriptor>, record: seq<Descriptor>, i: nat, j: nat, next: nat)
    requires Sorted(record) && i < |device| && j < |record| && NonePassed(device, record, i, j)
    requires (next == j && Less(device[i], record[j])) || (next == j + 1 && device[i] == record[j])
    ensures NonePassed(device, record, i + 1, next)
    ensures RestIn(device, record, i, j) <==> RestIn(device, record, i + 1, next)
  {
    LaterDiffer(record, next, j, device[i]);
    RestInStep(device, record, i, next);
    InTail(device, i, record[j]);
  }

  lemma {:induction false} IncludesFromIsSubset(device: seq<Descriptor>, record: seq<Descriptor>, i: nat, j: nat)
    requires FirstsRise(device) && Sorted(record)
    requires i <= |device| && j <= |record| && NonePassed(device, record, i, j)
    ensures IncludesFrom(device, record, i, j) <==> RestIn(device, record, i, j)
    decreases |device| - i
  {
    if j == |record| {
    } else if i == |device| {
      assert record[j] !in device[i..];
    } else if Less(record[j], device[i]) {
      NotAmongGreater(device, i, record[j]);
    } else {
      LessTrichotomy(device[i], record[j]);
      var next := if Less(device[i], record[j]) then j else j + 1;
      RestInNext(device, record, i, j, next);
      IncludesFromIsSubset(device, record, i + 1, next);
    }
  }

  /** Where the first occurrences rise, the test is right for every record in the order compared by. */
  lemma {:induction false} RisingIsRight(device: seq<Descriptor>, record: seq<Descriptor>)
    requires FirstsRise(device) && Sorted(record)
    ensures IncludesFrom(device, record, 0, 0) <==> Subset(record, device)
  {
    IncludesFromIsSubset(device, record, 0, 0);
    assert device[0..] == device;
    if Subset(record, device) {
      forall k | 0 <= k < |record| ensures record[k] in device {
        assert record[k] in record;
      }
    }
  }

  /** A record of one descriptor is missed when a greater one stands before its first occurrence. */
  lemma {:induction false} MissesSingle(device: seq<Descriptor>, r: Descriptor, i: nat, from: nat)
    requires from <= i < |device| && Less(r, device[i]) && r !in device[..i]
    ensures !IncludesFrom(device, [r], from, 0)
    decreases i - from
  {
    if from < i {
      assert device[from] == device[..i][from];
      LessTrichotomy(r, device[from]);
      MissesSingle(device, r, i, from + 1);
    }
  }

  /**
   Exactly then: the test is right for every record in the order compared by if and only if the first occurrences
   of the device's descriptors rise.
   */
  lemma {:induction false} RightIffFirstsRise(device: seq<Descriptor>)
    ensures (forall record | Sorted(record) :: IncludesFrom(device, record, 0, 0) <==> Subset(record, device))
       <==> FirstsRise(device)
  {
    if FirstsRise(device) {
      forall record | Sorted(record) ensures IncludesFrom(device, record, 0, 0) <==> Subset(record, device) {
        RisingIsRight(device, record);
      }
    } else {
      var i, j :| 0 <= i < j < |device| && Less(device[j], device[i]) && device[j] !in device[..i];
      MissesSingle(device, device[j], i, 0);
      assert Sorted([device[j]]) && Subset([device[j]], device);
    }
  }

  lemma {:induction false} SortedRises(device: seq<Descriptor>)
    requires Sorted(device)
    ensures FirstsRise(device)
  {
    forall i, j | 0 <= i < j < |device| ensures !Less(device[j], device[i]) {
      LessTrichotomy(device[i], device[j]);
    }
  }

  /** Where `d` of a sorted device was matched, what is matched after it comes after it. */
  lemma {:induction false} IncludedAfter(device: seq<Descriptor>, record: seq<Descriptor>, i: nat, j: nat, d: Descriptor)
    requires Sorted(device) && i <= |device| && j <= |record| && IncludesFrom(device, record, i, j)
    requires forall k | i <= k < |device| :: Less(d, device[k])
    ensures forall k | j <= k < |record| :: Less(d, record[k])
    decreases |device| - i
  {
    if j < |record| {
      LessTrichotomy(device[i], record[j]);
      IncludedAfter(device, record, i + 1, if Less(device[i], record[j]) then j else j + 1, d);
    }
  }

  lemma {:induction false} IncludedIsSorted(device: seq<Descriptor>, record: seq<Descriptor>, i: nat, j: nat)
    requires Sorted(device) && i <= |device| && j <= |record| && IncludesFrom(device, record, i, j)
    ensures forall k, l | j <= k < l < |record| :: Less(record[k], record[l])
    decreases |device| - i
  {
    if j < |record| {
      LessTrichotomy(device[i], record[j]);
      if Less(device[i], record[j]) {
        IncludedIsSorted(device, record, i + 1, j);
      } else {
        IncludedIsSorted(device, record, i + 1, j + 1);
        IncludedAfter(device, record, i + 1, j + 1, device[i]);
      }
    }
  }

  /** On the record's side: a device in order includes exactly the records that are a subset and in order. */
  lemma {:induction false} SortedIncludesIff(device: seq<Descriptor>, record: seq<Descriptor>)
    requires Sorted(device)
    ensures IncludesFrom(device, record, 0, 0) <==> Subset(record, device) && Sorted(record)
  {
    SortedRises(device);
    if IncludesFrom(device, record, 0, 0) {
      IncludedIsSorted(device, record, 0, 0);
    }
    if Sorted(record) {
      RisingIsRight(device, record);
    }
  }

  /** For descriptors in the order compared by, the test holds exactly when the record's are among the device's. */
  lemma {:induction false} IncludesIsSubset(device: seq<Descriptor>, record: seq<Descriptor>)
    requires Sorted(device) && Sorted(record)
    ensures IncludesFrom(device, record, 0, 0) <==> Subset(record, device)
  {
    SortedIncludesIff(device, record);
  }

  /** In particular it does for descriptors of distinct types, however they were inserted. */
  lemma {:induction false} DistinctTypesAreSorted(device: seq<Descriptor>, record: seq<Descriptor>)
    requires DistinctTypes(device) && DistinctTypes(record)
    ensures IncludesFrom(device, record, 0, 0) <==> Subset(record, device)
  {
    IncludesIsSubset(device, record);
  }

  /** From `start` on, the descriptors come before `d` until it is found. */
  ghost predicate NextAt(device: seq<Descriptor>, start: nat, at: nat, d: Descriptor) {
    start <= at < |device| && device[at] == d && forall i | start <= i < at :: Less(device[i], d)
  }

  function StartOf(from: nat, at: seq<nat>, k: nat): nat
    requires k <= |at|
  {
    if k == 0 then from else at[k - 1] + 1
  }

  /**
   The descriptors of the record stand at these positions of the device, which increase from `from` on, and every
   descriptor of the device that is passed over comes before the one that is looked for.
   */
  ghost predicate FoundAt(device: seq<Descriptor>, record: seq<Descriptor>, from: nat, at: seq<nat>) {
    |at| == |record| && forall k | 0 <= k < |at| :: NextAt(device, StartOf(from, at, k), at[k], record[k])
  }

  lemma {:induction false} FoundCons(
    device: seq<Descriptor>, r: Descriptor, rs: seq<Descriptor>, from: nat, p: nat, at: seq<nat>)
    ensures FoundAt(device, [r] + rs, from, [p] + at)
       <==> NextAt(device, from, p, r) && FoundAt(device, rs, p + 1, at)
  {
    var record, all := [r] + rs, [p] + at;
    if |at| == |rs| {
      forall k | 0 <= k < |at|
        ensures NextAt(device, StartOf(from, all, k + 1), all[k + 1], record[k + 1])
           <==> NextAt(device, StartOf(p + 1, at, k), at[k], rs[k])
      {
        assert StartOf(from, all, k + 1) == StartOf(p + 1, at, k);
      }
      if FoundAt(device, record, from, all) {
        assert NextAt(device, StartOf(from, all, 0), all[0], record[0]);
        forall k | 0 <= k < |at| ensures NextAt(device, StartOf(p + 1, at, k), at[k], rs[k]) {
          assert NextAt(device, StartOf(from, all, k + 1), all[k + 1], record[k + 1]);
        }
      }
      if NextAt(device, from, p, r) && FoundAt(device, rs, p + 1, at) {
        forall k | 0 <= k < |all| ensures NextAt(device, StartOf(from, all, k), all[k], record[k]) {
          assert k > 0 ==> NextAt(device, StartOf(p + 1, at, k - 1), at[k - 1], rs[k - 1]);
        }
      }
    }
  }

  /** It is found somewhere. */
  ghost predicate Found(device: seq<Descriptor>, record: seq<Descriptor>, from: nat) {
    exists at :: FoundAt(device, record, from, at)
  }

  /** The first descriptor stands at p, and the others are found behind it. */
  ghost predicate FirstAt(device: seq<Descriptor>, r: Descriptor, rs: seq<Descriptor>, from: nat, p: nat) {
    NextAt(device, from, p, r) && Found(device, rs, p + 1)
  }

  lemma {:induction false} FoundFirst(device: seq<Descriptor>, r: Descriptor, rs: seq<Descriptor>, from: nat)
    ensures Found(device, [r] + rs, from) <==> exists p: nat :: FirstAt(device, r, rs, from, p)
  {
    var record := [r] + rs;
    if at :| FoundAt(device, record, from, at) {
      assert at == [at[0]] + at[1..];
      FoundCons(device, r, rs, from, at[0], at[1..]);
      assert FirstAt(device, r, rs, from, at[0]);
    }
    if p: nat :| FirstAt(device, r, rs, from, p) {
      var at :| FoundAt(device, rs, p + 1, at);
      FoundCons(device, r, rs, from, p, at);
    }
  }

  /** One step of the test, in these terms: a smaller descriptor is passed over, an equal one is it, no other will do. */
  lemma {:induction false} FoundStep(device: seq<Descriptor>, r: Descriptor, rs: seq<Descriptor>, i: nat)
    requires i < |device|
    ensures Found(device, [r] + rs, i)
       <==> if Less(device[i], r) then Found(device, [r] + rs, i + 1) else device[i] == r && Found(device, rs, i + 1)
  {
    LessTrichotomy(device[i], r);
    FoundFirst(device, r, rs, i);
    if Less(device[i], r) {
      var next := i + 1;
      FoundFirst(device, r, rs, next);
      if p: nat :| FirstAt(device, r, rs, i, p) {
        assert FirstAt(device, r, rs, next, p);
      }
      if p: nat :| FirstAt(device, r, rs, next, p) {
        assert FirstAt(device, r, rs, i, p);
      }
    } else {
      forall p: nat ensures FirstAt(device, r, rs, i, p) <==> p == i && device[i] == r && Found(device, rs, i + 1) {
      }
      assert FirstAt(device, r, rs, i, i) <==> device[i] == r && Found(device, rs, i + 1);
    }
  }

  lemma {:induction false} IncludesFromIff(device: seq<Descriptor>, record: seq<Descriptor>, i: nat, j: nat)
    requires i <= |device| && j <= |record|
    ensures IncludesFrom(device, record, i, j) <==> Found(device, record[j..], i)
    decreases |device| - i
  {
    if j == |record| {
      assert FoundAt(device, record[j..], i, []);
    } else {
      var r, rs := record[j], record[j + 1..];
      assert record[j..] == [r] + rs;
      if i == |device| {
        FoundFirst(device, r, rs, i);
      } else {
        LessTrichotomy(device[i], r);
        FoundStep(device, r, rs, i);
        IncludesFromIff(device, record, i + 1, if Less(device[i], r) then j else j + 1);
      }
    }
  }

  /**
   For any device and any record, in order or not: the test holds if and only if the record's descriptors stand at
   increasing positions of the device and all that are passed over come before the one that is looked for.
   */
  lemma {:induction false} IncludesIff(device: seq<Descriptor>, record: seq<Descriptor>)
    ensures IncludesFrom(device, record, 0, 0) <==> exists at :: FoundAt(device, record, 0, at)
  {
    IncludesFromIff(device, record, 0, 0);
    assert record[0..] == record;
  }

  /** In whatever order the descriptors are, a match is never wrong: it may only be missed. */
  lemma {:induction false} IncludedIsSubset(device: seq<Descriptor>, record: seq<Descriptor>, i: nat, j: nat)
    requires i <= |device| && j <= |record| && IncludesFrom(device, record, i, j)
    ensures forall k | j <= k < |record| :: record[k] in device
    decreases |device| - i
  {
    if j < |record| {
      LessTrichotomy(device[i], record[j]);
      IncludedIsSubset(device, record, i + 1, if Less(device[i], record[j]) then j else j + 1);
    }
  }

  /**
   When a type occurs twice, a multimap keeps the entries in insertion order, which need not be the order the test
   compares by: it can then miss a descriptor that the device has.
   */
  lemma {:induction false} RepeatedTypeCanBeMissed()
    ensures var device := [Descriptor(1, Plain([2])), Descriptor(1, Plain([1]))];
            var record := [Descriptor(1, Plain([1]))];
            Subset(record, device) && !FirstsRise(device) && !IncludesFrom(device, record, 0, 0)
  {
    var device := [Descriptor(1, Plain([2])), Descriptor(1, Plain([1]))];
    assert device[1] in device && Less(device[1], device[0]) && device[1] !in device[..0];
  }

  // ----- all pairs

  /** One discovered device: its endpoint and its descriptors. */
  datatype Device = Device(eid: nat, descriptors: seq<Descriptor>)

  /** One match: a device and the index of a record of the package. */
  datatype Match = Match(eid: nat, index: nat)

  predicate Matches(device: Device, record: seq<Descriptor>) {
    IncludesFrom(device.descriptors, record, 0, 0)
  }

  /** The matches of one record, in the iteration order of the descriptor map. */
  function MatchesOf(devices: seq<Device>, record: seq<Descriptor>, index: nat): seq<Match> {
    if devices == [] then []
    else
      MatchesOf(devices[..|devices| - 1], record, index)
      + if Matches(devices[|devices| - 1], record) then [Match(devices[|devices| - 1].eid, index)] else []
  }

  function AllMatches(devices: seq<Device>, records: seq<seq<Descriptor>>): seq<Match> {
    if records == [] then []
    else AllMatches(devices, records[..|records| - 1]) + MatchesOf(devices, records[|records| - 1], |records| - 1)
  }

  /** associatePkgToDevices; `components` gives the number of applicable components of each record. */
  method AssociatePkgToDevices(records: seq<seq<Descriptor>>, devices: seq<Device>, components: seq<nat>, before: nat)
    returns (infos: seq<Match>, totalNumComponentUpdates: nat)
    requires |components| == |records|
    ensures infos == AllMatches(devices, records)
    ensures totalNumComponentUpdates == before + Components(AllMatches(devices, records), components)
  {
    infos, totalNumComponentUpdates := [], before;
    for index := 0 to |records|
      invariant infos == AllMatches(devices, records[..index])
      invariant totalNumComponentUpdates == before + Components(infos, components)
    {
      assert records[..index + 1][..index] == records[..index];
      ghost var done := infos;
      for d := 0 to |devices|
        invariant infos == done + MatchesOf(devices[..d], records[index], index)
        invariant totalNumComponentUpdates == before + Components(infos, components)
      {
        assert devices[..d + 1][..d] == devices[..d];
        var included := Includes(devices[d].descriptors, records[index]);
        if included {
          ghost var m := Match(devices[d].eid, index);
          assert (infos + [m])[..|infos|] == infos;
          assert done + (MatchesOf(devices[..d], records[index], index) + [m]) == infos + [m];
          infos := infos + [Match(devices[d].eid, index)];
          totalNumComponentUpdates := totalNumComponentUpdates + components[index];
        } else {
          assert MatchesOf(devices[..d + 1], records[index], index) == MatchesOf(devices[..d], records[index], index);
        }
      }
      assert devices[..|devices|] == devices;
    }
    assert records[..|records|] == records;
  }

  function Components(infos: seq<Match>, components: seq<nat>): nat {
    if infos == [] then 0
    else
      var m := infos[|infos| - 1];
      Components(infos[..|infos| - 1], components) + if m.index < |components| then components[m.index] else 0
  }

  ghost predicate IsMatch(devices: seq<Device>, records: seq<seq<Descriptor>>, m: Match) {
    m.index < |records| && exists d | d in devices :: d.eid == m.eid && Matches(d, records[m.index])
  }

  lemma {:induction false} MatchesOfMembers(devices: seq<Device>, record: seq<Descriptor>, index: nat, m: Match)
    ensures m in MatchesOf(devices, record, index)
       <==> m.index == index && exists d | d in devices :: d.eid == m.eid && Matches(d, record)
    decreases |devices|
  {
    if devices != [] {
      var last, before := devices[|devices| - 1], devices[..|devices| - 1];
      MatchesOfMembers(before, record, index, m);
      assert forall d :: d in devices <==> d in before || d == last;
    }
  }

  /** The pairs produced are exactly all matching pairs of a device and a record. */
  lemma {:induction false} AllMatchesAreMatches(devices: seq<Device>, records: seq<seq<Descriptor>>, m: Match)
    ensures m in AllMatches(devices, records) <==> IsMatch(devices, records, m)
    decreases |records|
  {
    if records != [] {
      var last := |records| - 1;
      AllMatchesAreMatches(devices, records[..last], m);
      MatchesOfMembers(devices, records[last], last, m);
    }
  }

  /** They come in the order of the records. */
  ghost predicate Ordered(infos: seq<Match>) {
    forall i, j | 0 <= i < j < |infos| :: infos[i].index <= infos[j].index
  }

  lemma {:induction false} AllMatchesOrdered(devices: seq<Device>, records: seq<seq<Descriptor>>)
    ensures Ordered(AllMatches(devices, records))
    decreases |records|
  {
    if records != [] {
      var last := |records| - 1;
      var a, b := AllMatches(devices, records[..last]), MatchesOf(devices, records[last], last);
      AllMatchesOrdered(devices, records[..last]);
      forall i | 0 <= i < |a| ensures a[i].index < last {
        AllMatchesAreMatches(devices, records[..last], a[i]);
      }
      forall i | 0 <= i < |b| ensures b[i].index == last {
        MatchesOfMembers(devices, records[last], last, b[i]);
      }
    }
  }

  /** The partial sums, over the matches, of the number of components of the matched record. */
  ghost predicate TotalsOf(infos: seq<Match>, components: seq<nat>, sums: seq<nat>) {
    && |sums| == |infos| + 1 && sums[0] == 0
    && forall k | 0 <= k < |infos| ::
         infos[k].index < |components| && sums[k + 1] == sums[k] + components[infos[k].index]
  }

  lemma {:induction false} ComponentsAreTotals(infos: seq<Match>, components: seq<nat>) returns (sums: seq<nat>)
    requires forall k | 0 <= k < |infos| :: infos[k].index < |components|
    ensures TotalsOf(infos, components, sums) && sums[|infos|] == Components(infos, components)
    decreases |infos|
  {
    if infos == [] {
      sums := [0];
    } else {
      var n := |infos| - 1;
      sums := ComponentsAreTotals(infos[..n], components);
      assert forall k | 0 <= k < n :: infos[..n][k] == infos[k];
      sums := sums + [sums[n] + components[infos[n].index]];
    }
  }

  /** The total counts, for each match, the components of its record. */
  lemma {:induction false} TotalOfMatches(
    devices: seq<Device>, records: seq<seq<Descriptor>>, components: seq<nat>) returns (sums: seq<nat>)
    requires |components| == |records|
    ensures var infos := AllMatches(devices, records);
            TotalsOf(infos, components, sums) && sums[|infos|] == Components(infos, components)
  {
    var infos := AllMatches(devices, records);
    forall k | 0 <= k < |infos| ensures infos[k].index < |components| {
      AllMatchesAreMatches(devices, records, infos[k]);
    }
    sums := ComponentsAreTotals(infos, components);
  }

  // ----- one updater per device

  /** processStream's emplace loop: a device that already has an updater keeps it. */
  method CreateUpdaters(infos: seq<Match>) returns (updaters: map<nat, nat>)
    ensures forall eid :: eid in updaters <==> exists i :: 0 <= i < |infos| && infos[i].eid == eid
    ensures forall eid | eid in updaters ::
              exists i :: 0 <= i < |infos| && infos[i] == Match(eid, updaters[eid])
                          && forall k | 0 <= k < i :: infos[k].eid != eid
  {
    updaters := map[];
    for n := 0 to |infos|
      invariant forall eid :: eid in updaters <==> exists i :: 0 <= i < n && infos[i].eid == eid
      invariant forall eid | eid in updaters ::
                  exists i :: 0 <= i < n && infos[i] == Match(eid, updaters[eid])
                              && forall k | 0 <= k < i :: infos[k].eid != eid
    {
      if infos[n].eid !in updaters {
        updaters := updaters[infos[n].eid := infos[n].index];
      }
    }
  }

  /** The first match of a device is its lowest-index matching record. */
  lemma {:induction false} FirstMatchIsLowest(devices: seq<Device>, records: seq<seq<Descriptor>>, i: nat)
    requires var infos := AllMatches(devices, records);
             i < |infos| && forall k | 0 <= k < i :: infos[k].eid != infos[i].eid
    ensures var m := AllMatches(devices, records)[i];
            && IsMatch(devices, records, m)
            && forall index | IsMatch(devices, records, Match(m.eid, index)) :: m.index <= index
  {
    var infos := AllMatches(devices, records);
    var m := infos[i];
    AllMatchesAreMatches(devices, records, m);
    AllMatchesOrdered(devices, records);
    forall index | IsMatch(devices, records, Match(m.eid, index)) ensures m.index <= index {
      AllMatchesAreMatches(devices, records, Match(m.eid, index));
      var k :| 0 <= k < |infos| && infos[k] == Match(m.eid, index);
      if k > i {
        assert infos[i].index <= infos[k].index;
      }
    }
  }

  /** Starting without updaters, each matched device gets one, for its lowest-index matching record. */
  method AssignUpdaters(records: seq<seq<Descriptor>>, devices: seq<Device>) returns (updaters: map<nat, nat>)
    ensures forall eid :: eid in updaters <==> exists index :: IsMatch(devices, records, Match(eid, index))
    ensures forall eid | eid in updaters ::
              && IsMatch(devices, records, Match(eid, updaters[eid]))
              && forall index | IsMatch(devices, records, Match(eid, index)) :: updaters[eid] <= index
  {
    var infos, _ := AssociatePkgToDevices(records, devices, seq(|records|, _ => 0), 0);
    updaters := CreateUpdaters(infos);
    forall eid | eid in updaters
      ensures IsMatch(devices, records, Match(eid, updaters[eid]))
      ensures forall index | IsMatch(devices, records, Match(eid, index)) :: updaters[eid] <= index
    {
      var i :| 0 <= i < |infos| && infos[i] == Match(eid, updaters[eid]) && forall k | 0 <= k < i :: infos[k].eid != eid;
      FirstMatchIsLowest(devices, records, i);
    }
    forall eid, index | IsMatch(devices, records, Match(eid, index)) ensures eid in updaters {
      AllMatchesAreMatches(devices, records, Match(eid, index));
      assert Match(eid, index) in infos;
    }
  }
}
