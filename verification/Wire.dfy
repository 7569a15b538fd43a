/**
 The primitives of the Protocol Buffers wire format ("Message Structure" in the Protocol Buffers Encoding
 document) that the generated code of include/proto/CameraInfoFile.pb.cc calls: varints, tags,
 length-delimited data and unknown fields, which are kept and written back.
 */
module Wire {
  import opened Arithmetic
  import opened Common

  const TWO_31 := 0x8000_0000
  const TWO_32 := 0x1_0000_0000
  const TWO_64 := 0x1_0000_0000_0000_0000

  type uint32 = x: int | 0 <= x < TWO_32

  /** What a read of the input yields, with the bytes left after it. */
  datatype Read<+T> = Bad | Got(value: T, rest: seq<byte>)

  // ---------------------------------------------------------------- varints

  function EncodeVarint(v: nat): (s: seq<byte>)
    ensures s != []
  {
    if v < 128 then [v] else [v % 128 + 128] + EncodeVarint(v / 128)
  }

  /** At most `budget` bytes, least significant group first. */
  function DecodeVarint(s: seq<byte>, budget: nat): (r: Read<nat>)
    ensures r.Got? ==> |r.rest| < |s|
  {
    if budget == 0 || s == [] then Bad
    else if s[0] < 128 then Got(s[0], s[1..])
    else
      match DecodeVarint(s[1..], budget - 1)
      case Bad => Bad
      case Got(v, rest) => Got(s[0] - 128 + 128 * v, rest)
  }

  const MAX_VARINT_BYTES := 10

  function ReadVarint64(s: seq<byte>): (r: Read<nat>)
    ensures r.Got? ==> |r.rest| < |s| && r.value < TWO_64
  {
    match DecodeVarint(s, MAX_VARINT_BYTES)
    case Bad => Bad
    case Got(v, rest) => Got(v % TWO_64, rest)
  }

  /** A longer value is truncated, not refused. */
  function ReadVarint32(s: seq<byte>): (r: Read<uint32>)
    ensures r.Got? ==> |r.rest| < |s|
  {
    match DecodeVarint(s, MAX_VARINT_BYTES)
    case Bad => Bad
    case Got(v, rest) => Got(v % TWO_32, rest)
  }

  /** The number of bytes of a varint, as the program computes it from the position of the top bit. */
  function Log2Floor(v: nat): nat
    requires v > 0
  {
    if v == 1 then 0 else 1 + Log2Floor(v / 2)
  }

  function VarintSize32(v: uint32): nat {
    (Log2Floor(if v % 2 == 0 then v + 1 else v) * 9 + 73) / 64
  }

  lemma {:induction false} DecodeEncoded(v: nat, rest: seq<byte>, budget: nat)
    requires |EncodeVarint(v)| <= budget
    ensures DecodeVarint(EncodeVarint(v) + rest, budget) == Got(v, rest)
  {
    var s := EncodeVarint(v) + rest;
    if v < 128 {
      assert s[1..] == rest;
    } else {
      assert s[1..] == EncodeVarint(v / 128) + rest;
      DecodeEncoded(v / 128, rest, budget - 1);
    }
  }

  function Pow128(n: nat): nat {
    if n == 0 then 1 else 128 * Pow128(n - 1)
  }

  lemma {:induction false} VarintFits(v: nat, n: nat)
    requires n > 0 && v < Pow128(n)
    ensures |EncodeVarint(v)| <= n
  {
    if v >= 128 {
      assert n > 1 by {
        assert Pow128(1) == 128 * Pow128(0);
      }
      VarintFits(v / 128, n - 1);
    }
  }

  lemma Varint64Fits(v: nat)
    requires v < TWO_64
    ensures |EncodeVarint(v)| <= MAX_VARINT_BYTES
  {
    assert Pow128(3) == 0x20_0000;
    assert Pow128(6) == 0x20_0000 * 0x20_0000;
    assert Pow128(10) == 0x1000_0000 * Pow128(6);
    VarintFits(v, 10);
  }

  lemma {:induction false} PowPositive(n: nat)
    ensures Pow128(n) > 0
  {
    if n > 0 {
      PowPositive(n - 1);
    }
  }

  /** Seven bits a byte, the lowest first, with the top bit set on all but the last. */
  lemma {:induction false} VarintDigits(v: nat, i: nat)
    requires i < |EncodeVarint(v)|
    ensures Pow128(i) > 0
    ensures EncodeVarint(v)[i] == v / Pow128(i) % 128 + if i + 1 < |EncodeVarint(v)| then 128 else 0
  {
    PowPositive(i);
    if v >= 128 && i > 0 {
      VarintDigits(v / 128, i - 1);
      PowPositive(i - 1);
      DivDiv(v, 128, Pow128(i - 1));
    }
  }

  lemma ReadEncoded(v: nat, rest: seq<byte>)
    requires v < TWO_64
    ensures ReadVarint64(EncodeVarint(v) + rest) == Got(v, rest)
    ensures ReadVarint32(EncodeVarint(v) + rest) == Got(v % TWO_32, rest)
  {
    Varint64Fits(v);
    DecodeEncoded(v, rest, MAX_VARINT_BYTES);
    ReadDecoded(EncodeVarint(v) + rest, v, rest);
  }

  /** A number below 2^32 is not truncated. */
  lemma ReadEncodedSmall(v: nat, rest: seq<byte>)
    requires v < TWO_32
    ensures ReadVarint32(EncodeVarint(v) + rest) == Got(v, rest)
  {
    ReadEncoded(v, rest);
    NotTruncated(ReadVarint32(EncodeVarint(v) + rest), v, rest);
  }

  lemma NotTruncated(r: Read<nat>, v: nat, rest: seq<byte>)
    requires v < TWO_32 && r == Got(v % TWO_32, rest)
    ensures r == Got(v, rest)
  {
  }

  lemma ReadDecoded(s: seq<byte>, v: nat, rest: seq<byte>)
    requires v < TWO_64 && DecodeVarint(s, MAX_VARINT_BYTES) == Got(v, rest)
    ensures ReadVarint64(s) == Got(v, rest)
    ensures ReadVarint32(s) == Got(v % TWO_32, rest)
  {
  }

  lemma Log2Shift7(v: nat)
    requires v >= 128
    ensures Log2Floor(v) == 7 + Log2Floor(v / 128)
  {
    assert v / 2 / 2 / 2 / 2 / 2 / 2 / 2 == v / 128;
    assert Log2Floor(v) == 1 + Log2Floor(v / 2);
    assert Log2Floor(v / 2) == 1 + Log2Floor(v / 2 / 2);
    assert Log2Floor(v / 2 / 2) == 1 + Log2Floor(v / 2 / 2 / 2);
    assert Log2Floor(v / 2 / 2 / 2) == 1 + Log2Floor(v / 2 / 2 / 2 / 2);
    assert Log2Floor(v / 2 / 2 / 2 / 2) == 1 + Log2Floor(v / 2 / 2 / 2 / 2 / 2);
    assert Log2Floor(v / 2 / 2 / 2 / 2 / 2) == 1 + Log2Floor(v / 2 / 2 / 2 / 2 / 2 / 2);
    assert Log2Floor(v / 2 / 2 / 2 / 2 / 2 / 2) == 1 + Log2Floor(v / 2 / 2 / 2 / 2 / 2 / 2 / 2);
  }

  lemma {:induction false} SizeFromLog(v: nat)
    requires v > 0
    ensures |EncodeVarint(v)| == Log2Floor(v) / 7 + 1
  {
    if v < 128 {
      SmallLog(v);
    } else {
      Log2Shift7(v);
      SizeFromLog(v / 128);
    }
  }

  lemma SmallLog(v: nat)
    requires 0 < v < 128
    ensures Log2Floor(v) < 7
  {
    LogBelow(v, 7);
  }

  function Pow2(n: nat): nat {
    if n == 0 then 1 else 2 * Pow2(n - 1)
  }

  lemma {:induction false} LogBelow(v: nat, n: nat)
    requires 0 < v < Pow2(n)
    ensures Log2Floor(v) < n
  {
    if v > 1 {
      LogBelow(v / 2, n - 1);
    }
  }

  /** The multiply-and-shift size formula gives exactly the length of the encoding. */
  lemma VarintSizeIsLength(v: uint32)
    ensures VarintSize32(v) == |EncodeVarint(v)|
  {
    var w := if v % 2 == 0 then v + 1 else v;
    assert Pow2(8) == 256 && Pow2(16) == 256 * Pow2(8) by {
      assert Pow2(4) == 16;
      assert Pow2(12) == 16 * Pow2(8);
    }
    assert Pow2(32) == 0x1_0000_0000 by {
      assert Pow2(20) == 16 * Pow2(16);
      assert Pow2(24) == 16 * Pow2(20);
      assert Pow2(28) == 16 * Pow2(24);
    }
    LogBelow(w, 32);
    SizeFromLog(w);
    if v % 2 == 0 {
      OddKeepsLength(v);
    }
    var l := Log2Floor(w);
    assert (l * 9 + 73) / 64 == l / 7 + 1;
  }

  /** Setting the lowest bit does not change the length. */
  lemma OddKeepsLength(v: nat)
    requires v % 2 == 0
    ensures |EncodeVarint(v + 1)| == |EncodeVarint(v)|
  {
    if v >= 128 {
      assert (v + 1) / 128 == v / 128;
    }
  }

  // ---------------------------------------------------------------- tags and lengths

  /** A tag, or the value 0 at the end of the (limited) input and where no tag can be read. */
  datatype TagRead = NoTag(atEnd: bool) | ATag(tag: uint32, rest: seq<byte>)

  function ReadTag(s: seq<byte>): (r: TagRead)
    ensures r.ATag? ==> r.tag > 0 && |r.rest| < |s|
  {
    if s == [] then NoTag(true)
    else
      match ReadVarint32(s)
      case Bad => NoTag(false)
      case Got(tag, rest) => if tag == 0 then NoTag(false) else ATag(tag, rest)
  }

  lemma ReadEncodedTag(tag: nat, rest: seq<byte>)
    requires 0 < tag < TWO_32
    ensures ReadTag(EncodeVarint(tag) + rest) == ATag(tag, rest)
  {
    ReadEncodedSmall(tag, rest);
    TagFromNumber(EncodeVarint(tag) + rest, tag, rest);
  }

  lemma TagFromNumber(s: seq<byte>, tag: nat, rest: seq<byte>)
    requires 0 < tag < TWO_32 && s != [] && ReadVarint32(s) == Got(tag, rest)
    ensures ReadTag(s) == ATag(tag, rest)
  {
  }

  /** `n` raw bytes. */
  function ReadRaw(s: seq<byte>, n: nat): (r: Read<seq<byte>>)
    ensures r.Got? ==> |r.rest| <= |s|
  {
    if |s| < n then Bad else Got(s[..n], s[n..])
  }

  /** A length and that many bytes; a length that is negative as an int is refused. */
  function ReadBytes(s: seq<byte>): (r: Read<seq<byte>>)
    ensures r.Got? ==> |r.rest| < |s|
  {
    match ReadVarint32(s)
    case Bad => Bad
    case Got(n, rest) => if n >= TWO_31 then Bad else ReadRaw(rest, n)
  }

  function EncodeBytes(data: seq<byte>): seq<byte> {
    EncodeVarint(|data|) + data
  }

  lemma ReadEncodedBytes(data: seq<byte>, rest: seq<byte>)
    requires |data| < TWO_31
    ensures ReadBytes(EncodeBytes(data) + rest) == Got(data, rest)
  {
    ReadEncodedSmall(|data|, data + rest);
    assert EncodeBytes(data) + rest == EncodeVarint(|data|) + (data + rest);
    SplitAt(data, rest);
  }

  lemma SplitAt(a: seq<byte>, b: seq<byte>)
    ensures (a + b)[..|a|] == a && (a + b)[|a|..] == b
  {
  }

  // ---------------------------------------------------------------- unknown fields

  /** A field the message type does not know; it is kept and written back. */
  datatype Unknown =
    | Varint(number: nat, value: nat)
    | Fixed64(number: nat, bits: seq<byte>)
    | Bytes(number: nat, data: seq<byte>)
    | Group(number: nat, fields: seq<Unknown>)
    | Fixed32(number: nat, bits: seq<byte>)

  function TagOf(u: Unknown): nat {
    u.number * 8 + match u
      case Varint(_, _) => 0
      case Fixed64(_, _) => 1
      case Bytes(_, _) => 2
      case Group(_, _) => 3
      case Fixed32(_, _) => 5
  }

  function EndTag(number: nat): nat {
    number * 8 + 4
  }

  function EncodeUnknown(u: Unknown): seq<byte>
    decreases u, 1
  {
    EncodeVarint(TagOf(u)) + Payload(u)
  }

  function Payload(u: Unknown): seq<byte>
    decreases u, 0
  {
    match u
    case Varint(_, v) => EncodeVarint(v)
    case Fixed64(_, bits) => bits
    case Bytes(_, data) => EncodeBytes(data)
    case Group(n, fields) => EncodeUnknowns(fields) + EncodeVarint(EndTag(n))
    case Fixed32(_, bits) => bits
  }

  function EncodeUnknowns(us: seq<Unknown>): seq<byte>
    decreases us
  {
    if us == [] then [] else EncodeUnknown(us[0]) + EncodeUnknowns(us[1..])
  }

  /** The field that follows the tag just read; `depth` is the recursion budget left for groups. */
  function SkipField(tag: nat, s: seq<byte>, depth: nat): (r: Read<Unknown>)
    ensures r.Got? ==> |r.rest| <= |s|
    decreases |s|, 1
  {
    var number := tag / 8;
    if number == 0 then Bad
    else if tag % 8 == 0 then
      match ReadVarint64(s) case Bad => Bad case Got(v, rest) => Got(Varint(number, v), rest)
    else if tag % 8 == 1 then
      match ReadRaw(s, 8) case Bad => Bad case Got(bits, rest) => Got(Fixed64(number, bits), rest)
    else if tag % 8 == 2 then
      match ReadBytes(s) case Bad => Bad case Got(data, rest) => Got(Bytes(number, data), rest)
    else if tag % 8 == 3 then
      if depth == 0 then Bad
      else
        match ReadGroup(s, EndTag(number), depth - 1)
        case Bad => Bad
        case Got(fields, rest) => Got(Group(number, fields), rest)
    else if tag % 8 == 5 then
      match ReadRaw(s, 4) case Bad => Bad case Got(bits, rest) => Got(Fixed32(number, bits), rest)
    else Bad
  }

  /** Fields up to an end-group tag, which must be the one that matches. */
  function ReadGroup(s: seq<byte>, endTag: nat, depth: nat): (r: Read<seq<Unknown>>)
    ensures r.Got? ==> |r.rest| <= |s|
    decreases |s|, 0
  {
    match ReadTag(s)
    case NoTag(_) => Bad
    case ATag(tag, rest) =>
      if tag % 8 == 4 then (if tag == endTag then Got([], rest) else Bad)
      else
        match SkipField(tag, rest, depth)
        case Bad => Bad
        case Got(u, rest') =>
          match ReadGroup(rest', endTag, depth)
          case Bad => Bad
          case Got(us, rest'') => Got([u] + us, rest'')
  }

  /** What an unknown field set holds, with groups nested within the budget. */
  ghost predicate ValidUnknown(u: Unknown, depth: nat)
    decreases u
  {
    && 0 < u.number < 0x2000_0000
    && match u
       case Varint(_, v) => v < TWO_64
       case Fixed64(_, bits) => |bits| == 8
       case Bytes(_, data) => |data| < TWO_31
       case Group(_, fields) => depth > 0 && forall i | 0 <= i < |fields| :: ValidUnknown(fields[i], depth - 1)
       case Fixed32(_, bits) => |bits| == 4
  }

  lemma TagParts(u: Unknown)
    ensures TagOf(u) / 8 == u.number
    ensures TagOf(u) % 8 == match u
                            case Varint(_, _) => 0
                            case Fixed64(_, _) => 1
                            case Bytes(_, _) => 2
                            case Group(_, _) => 3
                            case Fixed32(_, _) => 5
  {
  }

  /** An unknown field is read back as it was written, nested groups included. */
  lemma {:induction false} SkipEncoded(u: Unknown, rest: seq<byte>, depth: nat)
    requires ValidUnknown(u, depth)
    ensures SkipField(TagOf(u), Payload(u) + rest, depth) == Got(u, rest)
    decreases u, 1
  {
    TagParts(u);
    if u.Group? {
      SkipEncodedGroup(u, rest, depth);
    } else {
      SkipEncodedLeaf(u, rest, depth);
    }
  }

  lemma SkipEncodedLeaf(u: Unknown, rest: seq<byte>, depth: nat)
    requires ValidUnknown(u, depth) && !u.Group?
    ensures SkipField(TagOf(u), Payload(u) + rest, depth) == Got(u, rest)
  {
    TagParts(u);
    match u
    case Varint(_, v) => ReadEncoded(v, rest);
    case Fixed64(_, bits) => SplitAt(bits, rest);
    case Bytes(_, data) => ReadEncodedBytes(data, rest);
    case Fixed32(_, bits) => SplitAt(bits, rest);
  }

  lemma {:induction false} SkipEncodedGroup(u: Unknown, rest: seq<byte>, depth: nat)
    requires ValidUnknown(u, depth) && u.Group?
    ensures SkipField(TagOf(u), Payload(u) + rest, depth) == Got(u, rest)
    decreases u, 0
  {
    TagParts(u);
    GroupEncoded(u.fields, u.number, rest, depth - 1);
    assert Payload(u) + rest == EncodeUnknowns(u.fields) + (EncodeVarint(EndTag(u.number)) + rest);
  }

  lemma {:induction false} GroupEncoded(fields: seq<Unknown>, n: nat, rest: seq<byte>, depth: nat)
    requires 0 < n < 0x2000_0000 && forall i | 0 <= i < |fields| :: ValidUnknown(fields[i], depth)
    ensures ReadGroup(EncodeUnknowns(fields) + (EncodeVarint(EndTag(n)) + rest), EndTag(n), depth) == Got(fields, rest)
    decreases fields, 0
  {
    var tail := EncodeVarint(EndTag(n)) + rest;
    if fields == [] {
      GroupEnds(n, rest, depth);
      assert [] + tail == tail;
    } else {
      var u, us := fields[0], fields[1..];
      SkipEncoded(u, EncodeUnknowns(us) + tail, depth);
      GroupEncoded(us, n, rest, depth);
      GroupStep(u, us, EndTag(n), tail, rest, depth);
      assert fields == [u] + us;
    }
  }

  lemma GroupEnds(n: nat, rest: seq<byte>, depth: nat)
    requires 0 < n < 0x2000_0000
    ensures ReadGroup(EncodeVarint(EndTag(n)) + rest, EndTag(n), depth) == Got([], rest)
  {
    ReadEncodedTag(EndTag(n), rest);
  }

  lemma GroupStep(u: Unknown, us: seq<Unknown>, endTag: nat, tail: seq<byte>, rest: seq<byte>, depth: nat)
    requires ValidUnknown(u, depth)
    requires SkipField(TagOf(u), Payload(u) + (EncodeUnknowns(us) + tail), depth) == Got(u, EncodeUnknowns(us) + tail)
    requires ReadGroup(EncodeUnknowns(us) + tail, endTag, depth) == Got(us, rest)
    ensures ReadGroup(EncodeUnknowns([u] + us) + tail, endTag, depth) == Got([u] + us, rest)
  {
    var after := EncodeUnknowns(us) + tail;
    ReadEncodedTag(TagOf(u), Payload(u) + after);
    TagParts(u);
    ReadGroupOnce(EncodeVarint(TagOf(u)) + (Payload(u) + after), endTag, depth, u, after, us, rest);
    EncodedFirst(u, us, tail);
  }

  lemma EncodedFirst(u: Unknown, us: seq<Unknown>, tail: seq<byte>)
    ensures EncodeUnknowns([u] + us) + tail == EncodeVarint(TagOf(u)) + (Payload(u) + (EncodeUnknowns(us) + tail))
  {
    assert ([u] + us)[1..] == us;
    Regroup(EncodeUnknown(u), EncodeUnknowns(us), tail);
    Regroup(EncodeVarint(TagOf(u)), Payload(u), EncodeUnknowns(us) + tail);
  }

  lemma ReadGroupOnce(s: seq<byte>, endTag: nat, depth: nat, u: Unknown, after: seq<byte>, us: seq<Unknown>,
      rest: seq<byte>)
    requires ReadTag(s).ATag? && ReadTag(s).tag % 8 != 4
    requires SkipField(ReadTag(s).tag, ReadTag(s).rest, depth) == Got(u, after)
    requires ReadGroup(after, endTag, depth) == Got(us, rest)
    ensures ReadGroup(s, endTag, depth) == Got([u] + us, rest)
  {
  }
}
