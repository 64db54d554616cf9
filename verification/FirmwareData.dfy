/**
 DeviceUpdater::requestFwData of fw-update/device_updater.cpp: serving the byte ranges of a component image that a
 firmware device asks for. Offsets and lengths are uint32_t, so the range checks are modelled with wrap-around; the
 package is one stream that all devices share, and once a read has failed it stays failed.
 */
module FirmwareData {
  import opened Bytes
  import opened PackageParser

  const BASELINE_TRANSFER_SIZE: nat := 32       // PLDM_FWUP_BASELINE_TRANSFER_SIZE
  const MAXIMUM_TRANSFER_SIZE: nat := 4096      // fixed by UpdateManager::processStream

  datatype Response = InvalidTransferLength | DataOutOfRange | Data(bytes: seq<Byte>)

  // ----- the stream

  /** The n bytes at a position, as far as there are any, in a zeroed buffer of the given length. */
  function ReadInto(package: seq<Byte>, pos: nat, n: nat, length: nat): (r: seq<Byte>)
    requires n <= length
    ensures |r| == length
  {
    var from := if pos <= |package| then pos else |package|;
    var to := if from + n <= |package| then from + n else |package|;
    package[from..to] + Zeros(length - (to - from))
  }

  /** A read of n bytes at a position runs off the end of the package. */
  predicate Beyond(package: seq<Byte>, pos: nat, n: nat) {
    n > 0 && pos + n > |package|
  }

  /** The file stream of the package. Nobody clears it. */
  class PackageStream {
    const bytes: seq<Byte>
    var position: nat
    var failed: bool

    constructor (bytes: seq<Byte>)
      ensures this.bytes == bytes && !failed
    {
      this.bytes := bytes;
      position, failed := 0, false;
    }

    /** seekg: a failed stream does not move, another one also goes behind the end. */
    method Seek(pos: nat)
      modifies `position
      ensures position == if failed then old(position) else pos
    {
      if !failed {
        position := pos;
      }
    }

    /** read into a zeroed buffer: a failed stream gives nothing, and one that runs off its end fails. */
    method Read(n: nat, length: nat) returns (buffer: seq<Byte>)
      requires n <= length
      modifies this
      ensures buffer == if old(failed) then Zeros(length) else ReadInto(bytes, old(position), n, length)
      ensures failed == (old(failed) || Beyond(bytes, old(position), n))
    {
      if failed {
        return Zeros(length);
      }
      buffer := ReadInto(bytes, position, n, length);
      failed := n > 0 && position + n > |bytes|;
      position := position + n;
    }
  }

  // ----- one request

  /** The bytes asked for beyond the end of the image, as the code computes them. */
  function PadBytes(size: nat, offset: nat, length: nat): int {
    var end := Add32(offset, length);
    if end > size then end - size else 0
  }

  predicate InRange(size: nat, offset: nat, length: nat) {
    Add32(offset, length) <= Add32(size, BASELINE_TRANSFER_SIZE)
  }

  predicate LengthOk(length: nat) {
    BASELINE_TRANSFER_SIZE <= length <= MAXIMUM_TRANSFER_SIZE
  }

  predicate Fits32(c: Component, offset: nat, length: nat) {
    c.size < U32 && c.offset < U32 && offset < U32 && length < U32
  }

  /** The response while the stream has not failed. */
  function Served(package: seq<Byte>, c: Component, offset: nat, length: nat): Response
    requires Fits32(c, offset, length)
  {
    if !LengthOk(length) then InvalidTransferLength
    else if !InRange(c.size, offset, length) then DataOutOfRange
    else Data(ReadInto(package, Add32(c.offset, offset), length - PadBytes(c.size, offset, length), length))
  }

  /** The response of a stream that may have failed: the same checks, but no bytes. */
  function Answer(package: seq<Byte>, failed: bool, c: Component, offset: nat, length: nat): Response
    requires Fits32(c, offset, length)
  {
    var r := Served(package, c, offset, length);
    if r.Data? && failed then Data(Zeros(length)) else r
  }

  /** The request is answered by a read that runs off the end of the package. */
  predicate RunsOff(package: seq<Byte>, c: Component, offset: nat, length: nat)
    requires Fits32(c, offset, length)
  {
    && Served(package, c, offset, length).Data?
    && Beyond(package, Add32(c.offset, offset), length - PadBytes(c.size, offset, length))
  }

  /** requestFwData for the component at `c`. */
  method RequestFwData(package: PackageStream, c: Component, offset: nat, length: nat) returns (r: Response)
    requires Fits32(c, offset, length)
    modifies package
    ensures r == Answer(package.bytes, old(package.failed), c, offset, length)
    ensures package.failed == (old(package.failed) || RunsOff(package.bytes, c, offset, length))
  {
    if length < BASELINE_TRANSFER_SIZE || length > MAXIMUM_TRANSFER_SIZE {
      return InvalidTransferLength;
    }
    if Add32(offset, length) > Add32(c.size, BASELINE_TRANSFER_SIZE) {
      return DataOutOfRange;
    }
    var padBytes := 0;
    if Add32(offset, length) > c.size {
      padBytes := Add32(offset, length) - c.size;
    }
    package.Seek(Add32(c.offset, offset));
    var bytes := package.Read(length - padBytes, length);
    r := Data(bytes);
  }

  /** A bad length is refused as such whatever the range; a good one that ends too far behind as out of range. */
  lemma {:induction false} RefusedIff(package: seq<Byte>, failed: bool, c: Component, offset: nat, length: nat)
    requires Fits32(c, offset, length)
    ensures var r := Answer(package, failed, c, offset, length);
            && (r == InvalidTransferLength <==> length < 32 || length > 4096)
            && (r == DataOutOfRange <==>
                  && 32 <= length <= 4096
                  && (offset + length) % 0x1_0000_0000 > (c.size + 32) % 0x1_0000_0000)
            && (r.Data? ==> |r.bytes| == length)
  {
    AddWraps(offset, length);
    AddWraps(c.size, BASELINE_TRANSFER_SIZE);
  }

  // ----- what is served while the stream has not failed

  /** A component that lies in the package and below 2^32, and whose size leaves room for the range check. */
  predicate Placed(package: seq<Byte>, c: Component) {
    c.offset < U32 && c.offset + c.size <= |package| && c.offset + c.size <= U32
    && c.size + BASELINE_TRANSFER_SIZE < U32
  }

  function Image(package: seq<Byte>, c: Component): seq<Byte>
    requires c.offset + c.size <= |package|
  {
    package[c.offset..c.offset + c.size]
  }

  /** The image followed by the zeros that a request may run into. */
  function Padded(package: seq<Byte>, c: Component): (p: seq<Byte>)
    requires c.offset + c.size <= |package|
    ensures |p| == c.size + BASELINE_TRANSFER_SIZE
  {
    Image(package, c) + Zeros(BASELINE_TRANSFER_SIZE)
  }

  /** The bytes are those of the image, then zeros, from the offset on. */
  predicate Right(package: seq<Byte>, c: Component, offset: nat, length: nat, bytes: seq<Byte>)
    requires c.offset + c.size <= |package|
  {
    offset + length <= |Padded(package, c)| && bytes == Padded(package, c)[offset..offset + length]
  }

  /** Without wrap-around, a request is answered with data exactly when it stays within 32 bytes of the image. */
  lemma {:induction false} ServedIff(package: seq<Byte>, c: Component, offset: nat, length: nat)
    requires Placed(package, c) && offset + length < U32
    ensures Served(package, c, offset, length).Data?
       <==> LengthOk(length) && offset + length <= c.size + BASELINE_TRANSFER_SIZE
  {
  }

  lemma {:induction false} PaddedSlice(image: seq<Byte>, offset: nat, length: nat)
    requires offset <= |image| && offset + length <= |image| + BASELINE_TRANSFER_SIZE
    ensures var pad := if offset + length > |image| then offset + length - |image| else 0;
            (image + Zeros(BASELINE_TRANSFER_SIZE))[offset..offset + length] == image[offset..offset + length - pad] + Zeros(pad)
  {
  }

  /** An accepted request starts in the image, asks for at most 32 bytes too many, and gets the image then zeros. */
  lemma {:induction false} ServedBytes(package: seq<Byte>, c: Component, offset: nat, length: nat)
    requires Placed(package, c) && offset + length < U32
    requires Served(package, c, offset, length).Data?
    ensures offset <= c.size && 0 <= PadBytes(c.size, offset, length) <= BASELINE_TRANSFER_SIZE <= length
    ensures Right(package, c, offset, length, Served(package, c, offset, length).bytes)
    ensures var pad := PadBytes(c.size, offset, length);
            Served(package, c, offset, length).bytes == Image(package, c)[offset..offset + length - pad] + Zeros(pad)
  {
    var pad := PadBytes(c.size, offset, length);
    var n := length - pad;
    PaddedSlice(Image(package, c), offset, length);
    SliceOfSlice(package, c.offset, c.offset + c.size, offset, offset + n);
    if c.offset + offset < U32 {
      assert Add32(c.offset, offset) == c.offset + offset;
    } else {
      assert n == 0;  // the request starts at the end of an image that ends at 2^32
    }
  }

  /**
   The range check adds in uint32_t, so a request that wraps around passes it although it ends far beyond the image.
   While the stream has not failed, the answered requests that get the image's bytes and zeros are exactly those that
   do not wrap.
   */
  lemma {:induction false} ServedRightIffNoWrap(package: seq<Byte>, c: Component, offset: nat, length: nat)
    requires Placed(package, c) && Fits32(c, offset, length)
    requires Served(package, c, offset, length).Data?
    ensures offset <= c.size && offset + length <= c.size + BASELINE_TRANSFER_SIZE <==> offset + length < U32
    ensures Right(package, c, offset, length, Served(package, c, offset, length).bytes) <==> offset + length < U32
  {
    if offset + length < U32 {
      ServedBytes(package, c, offset, length);
    }
  }

  lemma {:induction false} WrappingRequestIsServed(package: seq<Byte>, c: Component)
    requires Placed(package, c)
    ensures var offset := U32 - BASELINE_TRANSFER_SIZE;
            offset > c.size && Served(package, c, offset, BASELINE_TRANSFER_SIZE).Data?
  {
  }

  /** Where the sum of component offset and request offset goes beyond 2^32, it is read modulo 2^32. */
  predicate Aliased(c: Component, offset: nat) {
    c.offset + offset >= U32
  }

  /**
   In a package of any size: an answered request gets the right bytes exactly when it does not wrap, and the position
   it reads from does not wrap either, or the bytes there happen to be the same.
   */
  lemma {:induction false} ServedRightIff(package: seq<Byte>, c: Component, offset: nat, length: nat)
    requires c.offset + c.size <= |package| && c.size + BASELINE_TRANSFER_SIZE < U32 && Fits32(c, offset, length)
    requires Served(package, c, offset, length).Data?
    ensures var n := length - PadBytes(c.size, offset, length);
            Right(package, c, offset, length, Served(package, c, offset, length).bytes)
            <==> && offset + length < U32
                 && (Aliased(c, offset) ==>
                       package[c.offset + offset - U32..][..n] == Image(package, c)[offset..][..n])
  {
    if offset + length < U32 {
      var n := length - PadBytes(c.size, offset, length);
      var pos := Add32(c.offset, offset);
      PaddedSlice(Image(package, c), offset, length);
      SamePrefix(package[pos..pos + n], Image(package, c)[offset..offset + n], Zeros(length - n));
      assert package[pos..][..n] == package[pos..pos + n];
      assert Image(package, c)[offset..][..n] == Image(package, c)[offset..offset + n];
      if !Aliased(c, offset) {
        SliceOfSlice(package, c.offset, c.offset + c.size, offset, offset + n);
      }
    }
  }

  lemma {:induction false} SamePrefix(a: seq<Byte>, b: seq<Byte>, tail: seq<Byte>)
    requires |a| == |b|
    ensures a + tail == b + tail <==> a == b
  {
    if a + tail == b + tail {
      assert a == (a + tail)[..|a|] == (b + tail)[..|b|] == b;
    }
  }

  // ----- when a read runs off the end

  /**
   An answered request runs off the end exactly when it wraps around, the position it reads from does not, and the
   bytes it reads end behind the package. In a package below 2^32 bytes the last condition always holds.
   */
  lemma {:induction false} RunsOffIff(package: seq<Byte>, c: Component, offset: nat, length: nat)
    requires c.offset + c.size <= |package| && c.size + BASELINE_TRANSFER_SIZE < U32 && Fits32(c, offset, length)
    requires Served(package, c, offset, length).Data?
    ensures RunsOff(package, c, offset, length)
       <==> && offset + length >= U32 && !Aliased(c, offset)
            && c.offset + offset + length - PadBytes(c.size, offset, length) > |package|
    ensures |package| < U32 ==>
              (RunsOff(package, c, offset, length) <==> offset + length >= U32 && !Aliased(c, offset))
  {
  }

  /** The farthest byte that a wrapping request for a component can make the code read. */
  function Farthest(c: Component): nat
    requires c.offset < MAXIMUM_TRANSFER_SIZE
  {
    var room := MAXIMUM_TRANSFER_SIZE - 1 - c.offset;
    U32 + c.offset + if room < c.size then room else c.size
  }

  /** Some answered request for the component runs off the end. */
  ghost predicate CanRunOff(package: seq<Byte>, c: Component)
    requires c.size < U32 && c.offset < U32
  {
    exists offset: nat, length: nat :: Fits32(c, offset, length) && RunsOff(package, c, offset, length)
  }

  /** There is one exactly for a component within the first 4096 bytes; of a package below 2^32 bytes, for any such. */
  lemma {:induction false} CanRunOffIff(package: seq<Byte>, c: Component)
    requires c.offset + c.size <= |package| && c.size + BASELINE_TRANSFER_SIZE < U32 && c.offset < U32
    ensures CanRunOff(package, c) <==> c.offset < MAXIMUM_TRANSFER_SIZE && |package| < Farthest(c)
    ensures |package| < U32 ==> (CanRunOff(package, c) <==> c.offset < MAXIMUM_TRANSFER_SIZE)
  {
    if c.offset < MAXIMUM_TRANSFER_SIZE && |package| < Farthest(c) {
      var past := Farthest(c) - U32 - c.offset;
      var offset := U32 + past - MAXIMUM_TRANSFER_SIZE;
      assert Add32(offset, MAXIMUM_TRANSFER_SIZE) == past;
      assert RunsOff(package, c, offset, MAXIMUM_TRANSFER_SIZE);
    }
    forall offset: nat, length: nat | Fits32(c, offset, length) && RunsOff(package, c, offset, length)
      ensures c.offset < MAXIMUM_TRANSFER_SIZE && |package| < Farthest(c)
    {
      RunsOffIff(package, c, offset, length);
      assert offset + length - U32 < length - c.offset;
    }
  }

  // ----- all requests that the stream serves, of any devices

  datatype Request = Request(c: Component, offset: nat, length: nat)

  predicate Possible(r: Request) { Fits32(r.c, r.offset, r.length) }

  predicate AllPossible(rs: seq<Request>) { forall i | 0 <= i < |rs| :: Possible(rs[i]) }

  /** Whether the stream has failed after the first n requests. */
  function FailedBy(package: seq<Byte>, rs: seq<Request>, n: nat): bool
    requires n <= |rs| && AllPossible(rs)
  {
    n > 0 && (FailedBy(package, rs, n - 1) || RunsOff(package, rs[n - 1].c, rs[n - 1].offset, rs[n - 1].length))
  }

  /** The answer to request i of a history. */
  function AnswerTo(package: seq<Byte>, rs: seq<Request>, i: nat): Response
    requires i < |rs| && AllPossible(rs)
  {
    Answer(package, FailedBy(package, rs, i), rs[i].c, rs[i].offset, rs[i].length)
  }

  /** The history of one stream. */
  method ServeAll(package: PackageStream, rs: seq<Request>) returns (answers: seq<Response>)
    requires AllPossible(rs) && !package.failed
    modifies package
    ensures |answers| == |rs| && forall i | 0 <= i < |rs| :: answers[i] == AnswerTo(package.bytes, rs, i)
    ensures package.failed == FailedBy(package.bytes, rs, |rs|)
  {
    answers := [];
    for n := 0 to |rs|
      invariant |answers| == n && forall i | 0 <= i < n :: answers[i] == AnswerTo(package.bytes, rs, i)
      invariant package.failed == FailedBy(package.bytes, rs, n)
    {
      var answer := RequestFwData(package, rs[n].c, rs[n].offset, rs[n].length);
      answers := answers + [answer];
    }
  }

  lemma {:induction false} FailedByIff(package: seq<Byte>, rs: seq<Request>, n: nat)
    requires n <= |rs| && AllPossible(rs)
    ensures FailedBy(package, rs, n)
       <==> exists j :: 0 <= j < n && RunsOff(package, rs[j].c, rs[j].offset, rs[j].length)
  {
    if n > 0 {
      FailedByIff(package, rs, n - 1);
    }
  }

  /** The bytes that the request asks for are all zero. */
  predicate AsksForZeros(package: seq<Byte>, r: Request)
    requires r.c.offset + r.c.size <= |package|
  {
    Right(package, r.c, r.offset, r.length, Zeros(r.length))
  }

  predicate RightAnswer(package: seq<Byte>, r: Request, answer: Response) {
    r.c.offset + r.c.size <= |package| && answer.Data? && Right(package, r.c, r.offset, r.length, answer.bytes)
  }

  /**
   In any history of requests, an answered one gets the right bytes if and only if it does not wrap around and no
   request before it ran off the end of the package, unless the bytes it asks for are all zero.
   */
  lemma {:induction false} AnswerRightIff(package: seq<Byte>, rs: seq<Request>, i: nat)
    requires i < |rs| && AllPossible(rs) && Placed(package, rs[i].c) && AnswerTo(package, rs, i).Data?
    ensures RightAnswer(package, rs[i], AnswerTo(package, rs, i))
       <==> && rs[i].offset + rs[i].length < U32
            && ((exists j :: 0 <= j < i && RunsOff(package, rs[j].c, rs[j].offset, rs[j].length))
                ==> AsksForZeros(package, rs[i]))
  {
    var r := rs[i];
    FailedByIff(package, rs, i);
    ServedRightIffNoWrap(package, r.c, r.offset, r.length);
  }

  /** Requests that do not wrap around never run off, so that a history of them is answered rightly throughout. */
  lemma {:induction false} NoWrapAllRight(package: seq<Byte>, rs: seq<Request>)
    requires AllPossible(rs)
    requires forall i | 0 <= i < |rs| :: Placed(package, rs[i].c) && rs[i].offset + rs[i].length < U32
    ensures !FailedBy(package, rs, |rs|)
    ensures forall i | 0 <= i < |rs| && AnswerTo(package, rs, i).Data? ::
              RightAnswer(package, rs[i], AnswerTo(package, rs, i))
  {
    forall i | 0 <= i < |rs| ensures !RunsOff(package, rs[i].c, rs[i].offset, rs[i].length) {
      if Served(package, rs[i].c, rs[i].offset, rs[i].length).Data? {
        RunsOffIff(package, rs[i].c, rs[i].offset, rs[i].length);
      }
    }
    FailedByIff(package, rs, |rs|);
    forall i | 0 <= i < |rs| && AnswerTo(package, rs, i).Data?
      ensures RightAnswer(package, rs[i], AnswerTo(package, rs, i))
    {
      AnswerRightIff(package, rs, i);
    }
  }

  /**
   The first component of an ordinary package: one request for it that ends at 2^32 is answered, and after it every
   other request, for any component, from any device, gets nothing but zeros.
   */
  lemma {:induction false} OneRequestSilencesAll(package: seq<Byte>, first: Component, others: seq<Request>, i: nat)
    requires Placed(package, first) && first.offset < MAXIMUM_TRANSFER_SIZE && |package| < U32
    requires AllPossible(others) && i < |others|
    ensures var bad := Request(first, U32 - MAXIMUM_TRANSFER_SIZE, MAXIMUM_TRANSFER_SIZE);
            var rs := [bad] + others;
            && AllPossible(rs) && AnswerTo(package, rs, 0).Data?
            && AnswerTo(package, rs, 1 + i)
               == Answer(package, true, others[i].c, others[i].offset, others[i].length)
  {
    var bad := Request(first, U32 - MAXIMUM_TRANSFER_SIZE, MAXIMUM_TRANSFER_SIZE);
    var rs := [bad] + others;
    assert forall k | 1 <= k < |rs| :: rs[k] == others[k - 1];
    RunsOffIff(package, first, bad.offset, bad.length);
    FailedByIff(package, rs, 1 + i);
    assert RunsOff(package, rs[0].c, rs[0].offset, rs[0].length);
  }

  // ----- a whole transfer

  function Sum(lengths: seq<nat>): nat {
    if lengths == [] then 0 else Sum(lengths[..|lengths| - 1]) + lengths[|lengths| - 1]
  }

  /** Back-to-back requests from offset 0, each answered with data and none wrapping around. */
  ghost predicate BackToBack(package: seq<Byte>, c: Component, lengths: seq<nat>)
    requires Placed(package, c)
  {
    lengths == [] ||
    var before := lengths[..|lengths| - 1];
    && BackToBack(package, c, before)
    && Sum(lengths) < U32
    && Served(package, c, Sum(before), lengths[|lengths| - 1]).Data?
  }

  /** They stand in a history at increasing positions, with any requests of this and other devices in between. */
  ghost predicate StandsAt(rs: seq<Request>, c: Component, lengths: seq<nat>, at: seq<nat>)
    decreases |lengths|
  {
    |at| == |lengths| &&
    (lengths == [] ||
     var last := |lengths| - 1;
     && StandsAt(rs, c, lengths[..last], at[..last])
     && at[last] < |rs| && rs[at[last]] == Request(c, Sum(lengths[..last]), lengths[last])
     && (last > 0 ==> at[last - 1] < at[last]))
  }

  /** What the transfer receives. */
  ghost function Received(
    package: seq<Byte>, rs: seq<Request>, c: Component, lengths: seq<nat>, at: seq<nat>): seq<Byte>
    requires AllPossible(rs) && Placed(package, c) && BackToBack(package, c, lengths) && StandsAt(rs, c, lengths, at)
    decreases |lengths|
  {
    if lengths == [] then []
    else
      var last := |lengths| - 1;
      Received(package, rs, c, lengths[..last], at[..last]) + AnswerTo(package, rs, at[last]).bytes
  }

  /** No request of the history ran off before the last request of the transfer. */
  predicate Undisturbed(package: seq<Byte>, rs: seq<Request>, at: seq<nat>)
    requires AllPossible(rs)
  {
    at == [] || (at[|at| - 1] < |rs| && !FailedBy(package, rs, at[|at| - 1]))
  }

  lemma {:induction false} FailedStays(package: seq<Byte>, rs: seq<Request>, m: nat, n: nat)
    requires m <= n <= |rs| && AllPossible(rs) && FailedBy(package, rs, m)
    ensures FailedBy(package, rs, n)
    decreases n
  {
    if m < n {
      FailedStays(package, rs, m, n - 1);
    }
  }

  /** Whether it is disturbed or not, each request of a transfer adds as many bytes as it asks for. */
  lemma {:induction false} ReceivedLength(
    package: seq<Byte>, rs: seq<Request>, c: Component, lengths: seq<nat>, at: seq<nat>)
    requires AllPossible(rs) && Placed(package, c) && BackToBack(package, c, lengths) && StandsAt(rs, c, lengths, at)
    ensures Sum(lengths) <= c.size + BASELINE_TRANSFER_SIZE
    ensures |Received(package, rs, c, lengths, at)| == Sum(lengths)
    decreases |lengths|
  {
    if lengths != [] {
      var last := |lengths| - 1;
      ReceivedLength(package, rs, c, lengths[..last], at[..last]);
      ServedIff(package, c, Sum(lengths[..last]), lengths[last]);
    }
  }

  /** The requests of the transfer after which the stream had failed all asked for zeros. */
  ghost predicate OnlyZerosLost(
    package: seq<Byte>, rs: seq<Request>, c: Component, lengths: seq<nat>, at: seq<nat>)
    requires AllPossible(rs) && Placed(package, c) && StandsAt(rs, c, lengths, at)
    decreases |lengths|
  {
    lengths == [] ||
    var last := |lengths| - 1;
    && OnlyZerosLost(package, rs, c, lengths[..last], at[..last])
    && (FailedBy(package, rs, at[last]) ==> AsksForZeros(package, rs[at[last]]))
  }

  lemma {:induction false} SameHalves(a: seq<Byte>, b: seq<Byte>, x: seq<Byte>, y: seq<Byte>)
    requires |a| == |b|
    ensures a + x == b + y <==> a == b && x == y
  {
    if a + x == b + y {
      assert a == (a + x)[..|a|] == (b + y)[..|b|] == b;
      assert x == (a + x)[|a|..] == (b + y)[|b|..] == y;
    }
  }

  /** One request of a transfer: it adds the right piece unless it was lost to a failed stream. */
  lemma {:induction false} PieceRightIff(package: seq<Byte>, rs: seq<Request>, i: nat)
    requires i < |rs| && AllPossible(rs) && Placed(package, rs[i].c) && rs[i].offset + rs[i].length < U32
    requires Served(package, rs[i].c, rs[i].offset, rs[i].length).Data?
    ensures AnswerTo(package, rs, i).Data? && |AnswerTo(package, rs, i).bytes| == rs[i].length
    ensures rs[i].offset + rs[i].length <= |Padded(package, rs[i].c)|
    ensures AnswerTo(package, rs, i).bytes == Padded(package, rs[i].c)[rs[i].offset..rs[i].offset + rs[i].length]
       <==> (FailedBy(package, rs, i) ==> AsksForZeros(package, rs[i]))
  {
    ServedBytes(package, rs[i].c, rs[i].offset, rs[i].length);
  }

  /** A transfer receives its prefix of the image exactly when it loses nothing but zeros to a failed stream. */
  lemma {:induction false} ReceivedRightIff(
    package: seq<Byte>, rs: seq<Request>, c: Component, lengths: seq<nat>, at: seq<nat>)
    requires AllPossible(rs) && Placed(package, c) && BackToBack(package, c, lengths) && StandsAt(rs, c, lengths, at)
    ensures Sum(lengths) <= c.size + BASELINE_TRANSFER_SIZE
    ensures Received(package, rs, c, lengths, at) == Padded(package, c)[..Sum(lengths)]
       <==> OnlyZerosLost(package, rs, c, lengths, at)
    decreases |lengths|
  {
    ReceivedLength(package, rs, c, lengths, at);
    if lengths != [] {
      var last := |lengths| - 1;
      var before := lengths[..last];
      ReceivedRightIff(package, rs, c, before, at[..last]);
      ReceivedLength(package, rs, c, before, at[..last]);
      PieceRightIff(package, rs, at[last]);
      SplitPrefix(Padded(package, c), Sum(before), Sum(lengths),
                  Received(package, rs, c, before, at[..last]), AnswerTo(package, rs, at[last]).bytes);
    }
  }

  lemma {:induction false} SplitPrefix(p: seq<Byte>, m: nat, n: nat, a: seq<Byte>, x: seq<Byte>)
    requires m <= n <= |p| && |a| == m
    ensures a + x == p[..n] <==> a == p[..m] && x == p[m..n]
  {
    assert p[..n] == p[..m] + p[m..n];
    SameHalves(a, p[..m], x, p[m..n]);
  }

  lemma {:induction false} UndisturbedLosesNothing(
    package: seq<Byte>, rs: seq<Request>, c: Component, lengths: seq<nat>, at: seq<nat>)
    requires AllPossible(rs) && Placed(package, c) && StandsAt(rs, c, lengths, at) && Undisturbed(package, rs, at)
    ensures OnlyZerosLost(package, rs, c, lengths, at)
    decreases |lengths|
  {
    if lengths != [] {
      var last := |lengths| - 1;
      if last > 0 && FailedBy(package, rs, at[last - 1]) {
        FailedStays(package, rs, at[last - 1], at[last]);
      }
      UndisturbedLosesNothing(package, rs, c, lengths[..last], at[..last]);
    }
  }

  /** An undisturbed transfer receives a prefix of the image followed by zeros. */
  lemma {:induction false} ReceivedIsPrefix(
    package: seq<Byte>, rs: seq<Request>, c: Component, lengths: seq<nat>, at: seq<nat>)
    requires AllPossible(rs) && Placed(package, c) && BackToBack(package, c, lengths) && StandsAt(rs, c, lengths, at)
    requires Undisturbed(package, rs, at)
    ensures Sum(lengths) <= c.size + BASELINE_TRANSFER_SIZE
    ensures Received(package, rs, c, lengths, at) == Padded(package, c)[..Sum(lengths)]
  {
    UndisturbedLosesNothing(package, rs, c, lengths, at);
    ReceivedRightIff(package, rs, c, lengths, at);
  }

  /**
   Requests that reach the end of the component add up to the whole image followed only by zeros, whatever other
   requests come in between, as long as none of them ran off the end of the package.
   */
  lemma {:induction false} TransferIsWholeImage(
    package: seq<Byte>, rs: seq<Request>, c: Component, lengths: seq<nat>, at: seq<nat>)
    requires AllPossible(rs) && Placed(package, c) && BackToBack(package, c, lengths) && StandsAt(rs, c, lengths, at)
    requires Undisturbed(package, rs, at) && Sum(lengths) >= c.size
    ensures Received(package, rs, c, lengths, at) == Image(package, c) + Zeros(Sum(lengths) - c.size)
  {
    ReceivedIsPrefix(package, rs, c, lengths, at);
  }

  // ----- accepted packages

  /** The components of an accepted package that lie below 2^32 are placed in it. */
  lemma {:induction false} BelowIsPlaced(dec: Decoders, package: seq<Byte>, pkgHeaderSize: nat, versionLength: nat, i: nat)
    requires WellBehaved(dec)
    requires Acceptable(dec, package, pkgHeaderSize, versionLength, |package|)
    requires i < |ComponentsOf(dec, package, versionLength)|
    requires var c := ComponentsOf(dec, package, versionLength)[i];
             c.offset + c.size <= U32 && c.size + BASELINE_TRANSFER_SIZE < U32
    ensures Placed(package, ComponentsOf(dec, package, versionLength)[i])
  {
    AcceptableIsAccepted(dec, package, pkgHeaderSize, versionLength, |package|);
    var list := ComponentsOf(dec, package, versionLength);
    TilesWithin(list, pkgHeaderSize, |package|, i);
    assert list[i] in list;
  }

  ghost function ComponentsOf(dec: Decoders, package: seq<Byte>, versionLength: nat): seq<Component>
    requires WellBehaved(dec)
  {
    var r := DecodedRecords(dec, package, versionLength);
    if r.BadRecords? then []
    else
      var c := DecodedComponents(dec, package, r.end);
      if c.BadComponents? then [] else c.list
  }

  /** All components of an accepted package below 2^32 bytes are placed in it. */
  lemma {:induction false} AcceptedIsPlaced(dec: Decoders, package: seq<Byte>, pkgHeaderSize: nat, versionLength: nat, i: nat)
    requires WellBehaved(dec) && |package| < U32
    requires Acceptable(dec, package, pkgHeaderSize, versionLength, |package|)
    requires i < |ComponentsOf(dec, package, versionLength)|
    ensures Placed(package, ComponentsOf(dec, package, versionLength)[i])
  {
    TilesWithin(ComponentsOf(dec, package, versionLength), pkgHeaderSize, |package|, i);
    BelowIsPlaced(dec, package, pkgHeaderSize, versionLength, i);
  }
}
