/**
 The destination buffers of src/decoder/Decoder.cpp: they are handed to Decode and to the callback while
 another thread may change the frame information. Every acquisition of the frame-information lock is
 modelled as seeing arbitrary information.
 */
module DecoderBuffers {
  import opened Common

  const VPIX_FMT_NONE := 0
  const VPIX_FMT_YUY2 := 1
  const VPIX_FMT_YV12 := 2
  const VPIX_FMT_BGR24 := 3
  const VPIX_FMT_RGB24 := 4

  const FT_NUM := 3

  datatype FrameInfo = FrameInfo(pixelFormat: int, width: nat, height: nat, decode: bool)

  // ---------------------------------------------------------------- sizes

  /** Rows of 24-bit pixels are padded to the next multiple of four bytes and no further. */
  function LineSize(width: nat): (row: nat)
    ensures row % 4 == 0 && 3 * width <= row < 3 * width + 4
  {
    (width * 3 + 0 + 3) / 4 * 4
  }

  function CalcBufferSize(pixelFormat: int, width: nat, height: nat): nat {
    if pixelFormat == VPIX_FMT_BGR24 || pixelFormat == VPIX_FMT_RGB24 then LineSize(width) * height
    else if pixelFormat == VPIX_FMT_YUY2 then width * height * 2
    else if pixelFormat == VPIX_FMT_YV12 then width * height + width * height / 2
    else 0
  }

  /** A frame type that is not wanted, or whose resolution is not known yet. */
  predicate Skipped(info: FrameInfo) {
    info.pixelFormat == VPIX_FMT_NONE || !info.decode || info.width == 0 || info.height == 0
  }

  function Needed(info: FrameInfo): nat {
    if Skipped(info) then 0 else CalcBufferSize(info.pixelFormat, info.width, info.height)
  }

  /** The least multiple of four bytes that holds a row of 24-bit pixels. */
  ghost predicate IsRow(row: int, width: nat) {
    row % 4 == 0 && 3 * width <= row && forall r | r % 4 == 0 && 3 * width <= r :: row <= r
  }

  /** A picture of that format and resolution takes `size` bytes. */
  ghost predicate IsPictureSize(size: int, format: int, width: nat, height: nat) {
    if format == VPIX_FMT_BGR24 || format == VPIX_FMT_RGB24 then
      exists row :: IsRow(row, width) && size == Rows(row, height)
    else if format == VPIX_FMT_YUY2 then size == 2 * (width * height)
    else if format == VPIX_FMT_YV12 then
      width * height <= size && 2 * (size - width * height) <= width * height < 2 * (size - width * height) + 2
    else size == 0
  }

  /** The bytes of `height` rows. */
  function Rows(row: int, height: nat): int {
    if height == 0 then 0 else Rows(row, height - 1) + row
  }

  lemma {:induction false} RowsIsProduct(row: int, height: nat)
    ensures Rows(row, height) == row * height
  {
    if height > 0 {
      RowsIsProduct(row, height - 1);
      assert row * height == row * (height - 1) + row;
    }
  }

  lemma PictureSize(format: int, width: nat, height: nat)
    ensures IsPictureSize(CalcBufferSize(format, width, height), format, width, height)
  {
    if format == VPIX_FMT_BGR24 || format == VPIX_FMT_RGB24 {
      assert IsRow(LineSize(width), width);
      RowsIsProduct(LineSize(width), height);
    }
  }

  /** Nothing for a frame type that is not wanted or of unknown resolution, and a picture of its kind otherwise. */
  ghost predicate IsSizeFor(size: int, info: FrameInfo) {
    if IsWanted(info) then IsPictureSize(size, info.pixelFormat, info.width, info.height) else size == 0
  }

  predicate IsWanted(info: FrameInfo) {
    info.pixelFormat != VPIX_FMT_NONE && info.decode && info.width > 0 && info.height > 0
  }

  lemma NeededIsSize(info: FrameInfo)
    ensures IsSizeFor(Needed(info), info)
  {
    PictureSize(info.pixelFormat, info.width, info.height);
  }

  lemma NeededAreSizes(infos: seq<FrameInfo>)
    ensures forall i | 0 <= i < |infos| :: IsSizeFor(Needed(infos[i]), infos[i])
  {
    forall i | 0 <= i < |infos|
      ensures IsSizeFor(Needed(infos[i]), infos[i])
    {
      NeededIsSize(infos[i]);
    }
  }

  /** A skipped frame type keeps the size that it was exposed with. */
  function SizeFor(before: int, info: FrameInfo): int {
    if Skipped(info) then before else Needed(info)
  }

  // ---------------------------------------------------------------- how often a frame is lost

  function Grown(sizes: seq<nat>, infos: seq<FrameInfo>): (r: seq<nat>)
    requires |sizes| == |infos|
    ensures |r| == |sizes|
    ensures forall i | 0 <= i < |r| :: r[i] == if sizes[i] < Needed(infos[i]) then Needed(infos[i]) else sizes[i]
  {
    if sizes == [] then []
    else [if sizes[0] < Needed(infos[0]) then Needed(infos[0]) else sizes[0]] + Grown(sizes[1..], infos[1..])
  }

  predicate Grows(sizes: seq<nat>, infos: seq<FrameInfo>)
    requires |sizes| == |infos|
  {
    exists i :: 0 <= i < |sizes| && sizes[i] < Needed(infos[i])
  }

  /** One entry of `allocs` per decoded frame: the information that SetAllocBuffer saw then. */
  function SizesAfter(sizes: seq<nat>, allocs: seq<seq<FrameInfo>>): (r: seq<nat>)
    requires forall k | 0 <= k < |allocs| :: |allocs[k]| == |sizes|
    ensures |r| == |sizes|
  {
    if allocs == [] then sizes else Grown(SizesAfter(sizes, allocs[..|allocs| - 1]), allocs[|allocs| - 1])
  }

  /** The decoded frames that were dropped because a buffer had to grow. */
  function Losses(sizes: seq<nat>, allocs: seq<seq<FrameInfo>>): nat
    requires forall k | 0 <= k < |allocs| :: |allocs[k]| == |sizes|
  {
    if allocs == [] then 0
    else
      var before := allocs[..|allocs| - 1];
      Losses(sizes, before) + if Grows(SizesAfter(sizes, before), allocs[|allocs| - 1]) then 1 else 0
  }

  /** How often the information seen differs from what was seen for the frame before. */
  function Changes(allocs: seq<seq<FrameInfo>>): nat {
    if |allocs| < 2 then 0
    else Changes(allocs[..|allocs| - 1]) + if allocs[|allocs| - 1] != allocs[|allocs| - 2] then 1 else 0
  }

  lemma {:induction false} BuffersOnlyGrow(sizes: seq<nat>, allocs: seq<seq<FrameInfo>>)
    requires forall k | 0 <= k < |allocs| :: |allocs[k]| == |sizes|
    ensures forall i | 0 <= i < |sizes| :: sizes[i] <= SizesAfter(sizes, allocs)[i]
    ensures allocs != [] ==> !Grows(SizesAfter(sizes, allocs), allocs[|allocs| - 1])
  {
    if allocs != [] {
      BuffersOnlyGrow(sizes, allocs[..|allocs| - 1]);
    }
  }

  /** Over any run each lost frame but the first is paid for by a change of the frame information. */
  lemma {:induction false} LossesBoundedByChanges(sizes: seq<nat>, allocs: seq<seq<FrameInfo>>)
    requires allocs != [] && forall k | 0 <= k < |allocs| :: |allocs[k]| == |sizes|
    ensures Losses(sizes, allocs) <= 1 + Changes(allocs)
  {
    var before := allocs[..|allocs| - 1];
    if before != [] {
      LossesBoundedByChanges(sizes, before);
      BuffersOnlyGrow(sizes, before);
      assert before[|before| - 1] == allocs[|allocs| - 2];
    }
  }

  /** Once the information stops changing at most one more decoded frame is lost, however long the run. */
  lemma {:induction false} AtMostOneMoreLoss(sizes: seq<nat>, early: seq<seq<FrameInfo>>, info: seq<FrameInfo>, n: nat)
    requires |info| == |sizes| && forall k | 0 <= k < |early| :: |early[k]| == |sizes|
    ensures Losses(sizes, early + seq(n, _ => info)) <= Losses(sizes, early) + 1
    ensures n > 0 ==> !Grows(SizesAfter(sizes, early + seq(n, _ => info)), info)
  {
    var allocs := early + seq(n, _ => info);
    if n == 0 {
      assert allocs == early;
    } else {
      assert allocs[..|allocs| - 1] == early + seq(n - 1, _ => info);
      AtMostOneMoreLoss(sizes, early, info, n - 1);
      BuffersOnlyGrow(sizes, allocs);
      if n == 1 {
        assert early + seq(0, _ => info) == early;
      }
    }
  }

  // ---------------------------------------------------------------- the buffers themselves

  datatype FrameBuffer = FrameBuffer(data: array?<byte>, dataSize: int)

  class DecoderVideoDest {
    var index: int
    const frame: array<FrameBuffer>
    const frameInfo: array<FrameInfo>

    constructor ()
      ensures fresh(frame) && fresh(frameInfo) && frame.Length == frameInfo.Length == FT_NUM
      ensures forall i | 0 <= i < FT_NUM :: frame[i] == FrameBuffer(null, 0)
    {
      index := 0;
      frame := new FrameBuffer[FT_NUM](_ => FrameBuffer(null, 0));
      frameInfo := new FrameInfo[FT_NUM](_ => FrameInfo(VPIX_FMT_NONE, 0, 0, false));
    }
  }

  /** Null and empty, or the current buffer and no more bytes than it has. */
  ghost predicate Safe(f: FrameBuffer, buffer: array<byte>) {
    if f.data == null then f.dataSize == 0 else f.data == buffer && 0 <= f.dataSize <= buffer.Length
  }

  /** The delivered size is the one that the delivered frame information needs. */
  predicate Consistent(f: FrameBuffer, info: FrameInfo) {
    f.dataSize == Needed(info)
  }

  /** What the callback is told: the size needed at the second critical section, or else all of the buffer. */
  function ExposedSize(length: nat, sized: bool, allocInfo: FrameInfo): int {
    if sized then SizeFor(length, allocInfo) else length
  }

  /** With the same information at both critical sections, on a wanted frame type, the sizes agree. */
  lemma SameInfoAgrees(length: nat, info: FrameInfo)
    ensures Needed(info) == ExposedSize(length, true, info) <==> !Skipped(info) || length == 0
    ensures Needed(info) == ExposedSize(length, false, info) <==> length == Needed(info)
  {
  }

  /** An empty buffer is not exposed. */
  function Exposed(before: FrameBuffer, buffer: array<byte>): FrameBuffer {
    if buffer.Length == 0 then before else FrameBuffer(buffer, buffer.Length)
  }

  ghost function Lengths(arrBuffer: array<array<byte>>): seq<nat>
    reads arrBuffer
  {
    seq(arrBuffer.Length, i requires 0 <= i < arrBuffer.Length reads arrBuffer => arrBuffer[i].Length)
  }

  /** The buffers that the decoding thread owns, and the number of frames it has delivered. */
  class DecoderBuffers {
    const arrBufferDst: array<array<byte>>
    var decodingIndex: nat

    ghost predicate Valid()
      reads this
    {
      arrBufferDst.Length == FT_NUM
    }

    constructor ()
      ensures Valid() && decodingIndex == 0 && Lengths(arrBufferDst) == [0, 0, 0] && fresh(arrBufferDst)
    {
      var empty := new byte[0];
      arrBufferDst := new array<byte>[FT_NUM](_ => empty);
      decodingIndex := 0;
    }

    method SetDstBufferInfo(dst: DecoderVideoDest, infos: seq<FrameInfo>)
      requires Valid() && |infos| == dst.frame.Length == dst.frameInfo.Length == FT_NUM
      modifies dst.frame, dst.frameInfo
      ensures dst.frameInfo[..] == infos
      ensures forall i | 0 <= i < FT_NUM :: dst.frame[i] == Exposed(old(dst.frame[i]), arrBufferDst[i])
    {
      for i := 0 to FT_NUM
        invariant dst.frameInfo[..i] == infos[..i]
        invariant forall j | i <= j < FT_NUM :: dst.frame[j] == old(dst.frame[j])
        invariant forall j | 0 <= j < i :: dst.frame[j] == Exposed(old(dst.frame[j]), arrBufferDst[j])
      {
        dst.frameInfo[i] := infos[i];
        if arrBufferDst[i].Length == 0 {
          continue;
        }
        dst.frame[i] := FrameBuffer(arrBufferDst[i], arrBufferDst[i].Length);
      }
    }

    /** The result tells whether a buffer was replaced by a larger one, which leaves stale pointers in `dst`. */
    method SetAllocBuffer(dst: DecoderVideoDest, infos: seq<FrameInfo>) returns (grown: bool)
      requires Valid() && |infos| == dst.frame.Length == FT_NUM
      modifies dst.frame, arrBufferDst
      ensures grown == Grows(old(Lengths(arrBufferDst)), infos)
      ensures Lengths(arrBufferDst) == Grown(old(Lengths(arrBufferDst)), infos)
      ensures !grown ==> arrBufferDst[..] == old(arrBufferDst[..])
      ensures forall i | 0 <= i < FT_NUM :: dst.frame[i].data == old(dst.frame[i].data)
      ensures forall i | 0 <= i < FT_NUM :: dst.frame[i].dataSize == SizeFor(old(dst.frame[i].dataSize), infos[i])
      ensures forall i | 0 <= i < FT_NUM && IsWanted(infos[i]) ::
        && IsSizeFor(dst.frame[i].dataSize, infos[i])
        && arrBufferDst[i].Length == Larger(old(arrBufferDst[i]).Length, dst.frame[i].dataSize)
    {
      NeededAreSizes(infos);
      grown := false;
      for i := 0 to FT_NUM
        invariant forall j | i <= j < FT_NUM ::
          arrBufferDst[j] == old(arrBufferDst[j]) && dst.frame[j] == old(dst.frame[j])
        invariant forall j | 0 <= j < i :: AfterAlloc(old(arrBufferDst[j]), arrBufferDst[j], infos[j])
        invariant grown <==> exists j :: 0 <= j < i && old(Lengths(arrBufferDst))[j] < Needed(infos[j])
        invariant forall j | 0 <= j < i :: dst.frame[j].data == old(dst.frame[j].data)
        invariant forall j | 0 <= j < i :: dst.frame[j].dataSize == SizeFor(old(dst.frame[j].dataSize), infos[j])
      {
        var grew := AllocOne(dst, i, infos[i]);
        grown := grown || grew;
      }
    }

    /** The resolution is known once a frame has been decoded. */
    method AllocIfSized(dst: DecoderVideoDest, sized: bool, infos: seq<FrameInfo>) returns (grown: bool)
      requires Valid() && |infos| == dst.frame.Length == FT_NUM
      requires forall i | 0 <= i < FT_NUM :: dst.frame[i] == Exposed(FrameBuffer(null, 0), arrBufferDst[i])
      modifies dst.frame, arrBufferDst
      ensures grown == (sized && Grows(old(Lengths(arrBufferDst)), infos))
      ensures Lengths(arrBufferDst)
           == if sized then Grown(old(Lengths(arrBufferDst)), infos) else old(Lengths(arrBufferDst))
      ensures !grown ==> forall i | 0 <= i < FT_NUM ::
        && Safe(dst.frame[i], arrBufferDst[i])
        && dst.frame[i].dataSize == ExposedSize(old(Lengths(arrBufferDst))[i], sized, infos[i])
    {
      grown := false;
      if sized {
        grown := SetAllocBuffer(dst, infos);
      }
    }

    method AllocOne(dst: DecoderVideoDest, i: nat, info: FrameInfo) returns (grew: bool)
      requires Valid() && i < dst.frame.Length == FT_NUM
      modifies dst.frame, arrBufferDst
      ensures grew == (old(arrBufferDst[i]).Length < Needed(info))
      ensures AfterAlloc(old(arrBufferDst[i]), arrBufferDst[i], info)
      ensures dst.frame[i] == FrameBuffer(old(dst.frame[i].data), SizeFor(old(dst.frame[i].dataSize), info))
      ensures forall j | 0 <= j < FT_NUM && j != i ::
        arrBufferDst[j] == old(arrBufferDst[j]) && dst.frame[j] == old(dst.frame[j])
    {
      grew := false;
      if Skipped(info) {
        return;
      }
      var size := CalcBufferSize(info.pixelFormat, info.width, info.height);
      dst.frame[i] := FrameBuffer(dst.frame[i].data, size);
      if arrBufferDst[i].Length < size {
        arrBufferDst[i] := new byte[size];
        grew := true;
      }
    }

    ghost predicate AfterAlloc(before: array<byte>, after: array<byte>, info: FrameInfo) {
      if before.Length < Needed(info) then after.Length == Needed(info) else after == before
    }

    /**
     One decoded frame, from SetDstBufferInfo to the callback. `infos` and `allocInfos` are what the two
     critical sections see, `decoded` is what Decode returns, `sized` whether the original size is known.
     Decode is handed safe buffers; so is the callback, which is not called when a buffer was replaced.
     */
    method DeliverFrame(infos: seq<FrameInfo>, decoded: bool, sized: bool, allocInfos: seq<FrameInfo>)
      returns (called: bool, dst: DecoderVideoDest)
      requires Valid() && |infos| == |allocInfos| == FT_NUM
      modifies this, arrBufferDst
      ensures Valid() && fresh(dst) && dst.frame.Length == dst.frameInfo.Length == FT_NUM
      ensures called == (decoded && !(sized && Grows(old(Lengths(arrBufferDst)), allocInfos)))
      ensures called ==> forall i | 0 <= i < FT_NUM :: Safe(dst.frame[i], arrBufferDst[i])
      ensures called ==> forall i | 0 <= i < FT_NUM ::
        dst.frame[i].dataSize == ExposedSize(old(Lengths(arrBufferDst))[i], sized, allocInfos[i])
      ensures called && sized ==>
        forall i | 0 <= i < FT_NUM && IsWanted(allocInfos[i]) :: IsSizeFor(dst.frame[i].dataSize, allocInfos[i])
      ensures called ==> forall i | 0 <= i < FT_NUM ::
        Consistent(dst.frame[i], dst.frameInfo[i]) <==>
          Needed(infos[i]) == ExposedSize(old(Lengths(arrBufferDst))[i], sized, allocInfos[i])
      ensures called ==> dst.index == old(decodingIndex) && dst.frameInfo[..] == infos
      ensures decodingIndex == old(decodingIndex) + if called then 1 else 0
      ensures Lengths(arrBufferDst)
           == if decoded && sized then Grown(old(Lengths(arrBufferDst)), allocInfos) else old(Lengths(arrBufferDst))
    {
      called := false;
      dst := new DecoderVideoDest();
      SetDstBufferInfo(dst, infos);
      if !decoded {
        return;
      }
      var grown := AllocIfSized(dst, sized, allocInfos);
      if grown {
        return;
      }
      NeededAreSizes(allocInfos);
      dst.index := decodingIndex;
      decodingIndex := decodingIndex + 1;
      called := true;
    }
  }

  // ---------------------------------------------------------------- frames whose size and information differ

  const FT_DISPLAY := 1

  const UNWANTED := FrameInfo(VPIX_FMT_NONE, 0, 0, false)
  const WIDE := FrameInfo(VPIX_FMT_BGR24, 4, 1, true)
  const NARROW := FrameInfo(VPIX_FMT_BGR24, 2, 1, true)

  function Display(info: FrameInfo): seq<FrameInfo> {
    [UNWANTED, info, UNWANTED]
  }

  /** A new object whose display buffer has been allocated for the wide picture, at the loss of the first frame. */
  method AllocatedForWide() returns (d: DecoderBuffers)
    ensures fresh(d) && fresh(d.arrBufferDst) && d.Valid() && Lengths(d.arrBufferDst) == [0, 12, 0]
  {
    d := new DecoderBuffers();
    var called, _ := d.DeliverFrame(Display(WIDE), true, true, Display(WIDE));
    assert Grown([0, 0, 0], Display(WIDE)) == [0, 12, 0];
  }

  /** A run in which SetFrameInfo falls between the critical sections: 8 bytes, with information that needs 12. */
  method InfoChangesBetween() returns (called: bool, frame: FrameBuffer, info: FrameInfo)
    ensures called && frame.dataSize == 8 && Needed(info) == 12
  {
    var d := AllocatedForWide();
    var dst;
    called, dst := d.DeliverFrame(Display(WIDE), true, true, Display(NARROW));
    frame, info := dst.frame[FT_DISPLAY], dst.frameInfo[FT_DISPLAY];
    assert Needed(Display(NARROW)[FT_DISPLAY]) == 8;
    assert info == Display(WIDE)[FT_DISPLAY];
  }

  /** A run in which the picture is no longer wanted: all of the old buffer, with information that needs nothing. */
  method NoLongerWanted() returns (called: bool, frame: FrameBuffer, info: FrameInfo)
    ensures called && frame.dataSize == 12 && Needed(info) == 0
  {
    var d := AllocatedForWide();
    var dst;
    called, dst := d.DeliverFrame(Display(UNWANTED), true, true, Display(UNWANTED));
    frame, info := dst.frame[FT_DISPLAY], dst.frameInfo[FT_DISPLAY];
    assert info == Display(UNWANTED)[FT_DISPLAY];
  }
}
