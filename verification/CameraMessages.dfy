/**
 The message objects of include/proto/CameraInfoFile.pb.cc: the generated parse loops, serializers, size
 computations and merges, each proved against the functions of StreamCodec and CameraCodec.
 */
module CameraMessages {
  import opened Common
  import opened Utf8
  import opened Wire
  import opened StreamCodec
  import opened CameraCodec

  /** The unread bytes up to the current limit, and the recursion budget that is left. */
  class CodedInputStream {
    var buffer: seq<byte>
    var budget: nat
    var consumedEntireMessage: bool

    constructor (bytes: seq<byte>, budget: nat)
      ensures buffer == bytes && this.budget == budget && !consumedEntireMessage
    {
      buffer, this.budget, consumedEntireMessage := bytes, budget, false;
    }

    /** A varint of at most ten bytes, untruncated. */
    method ReadVarint() returns (r: Read<nat>)
      modifies this`buffer
      ensures r == DecodeVarint(old(buffer), MAX_VARINT_BYTES)
      ensures buffer == if r.Got? then r.rest else old(buffer)
    {
      var i: nat, v: nat, scale: nat := 0, 0, 1;
      assert buffer[0..] == buffer;
      while i < MAX_VARINT_BYTES && i < |buffer|
        invariant i <= MAX_VARINT_BYTES && i <= |buffer| && buffer == old(buffer)
        invariant DecodeVarint(buffer, MAX_VARINT_BYTES)
          == Scaled(v, scale, DecodeVarint(buffer[i..], MAX_VARINT_BYTES - i))
      {
        var b: int := buffer[i];
        ScaledStep(v, scale, buffer[i..], MAX_VARINT_BYTES - i);
        assert buffer[i..][1..] == buffer[i + 1..];
        if b < 128 {
          r := Got(v + scale * b, buffer[i + 1..]);
          buffer := buffer[i + 1..];
          return;
        }
        MulNonNegative(scale, b - 128);
        v, scale := v + scale * (b - 128), scale * 128;
        i := i + 1;
      }
      r := Bad;
    }

    /** Zero stands for "no tag": at the end of the message, or where none can be read. */
    method ReadTagOrZero() returns (tag: uint32)
      modifies this`buffer, this`consumedEntireMessage
      ensures match ReadTag(old(buffer))
              case ATag(t, rest) => tag == t && buffer == rest
              case NoTag(atEnd) => tag == 0 && consumedEntireMessage == atEnd
    {
      if buffer == [] {
        consumedEntireMessage := true;
        return 0;
      }
      consumedEntireMessage := false;
      var r := ReadVarint();
      match r
      case Bad => tag := 0;
      case Got(v, _) => tag := v % TWO_32;
    }

    method ReadUInt32() returns (r: Read<uint32>)
      modifies this`buffer
      ensures r == ReadVarint32(old(buffer)) && (r.Got? ==> buffer == r.rest)
    {
      var raw := ReadVarint();
      match raw
      case Bad => r := Bad;
      case Got(v, rest) => r := Got(v % TWO_32, rest);
    }

    method ReadBoolean() returns (r: Read<bool>)
      modifies this`buffer
      ensures r == ReadBool(old(buffer)) && (r.Got? ==> buffer == r.rest)
    {
      var raw := ReadVarint();
      match raw
      case Bad => r := Bad;
      case Got(v, rest) => r := Got(v % TWO_64 != 0, rest);
    }

    /** ReadString and VerifyUtf8String. */
    method ReadString() returns (r: Read<seq<byte>>)
      modifies this`buffer
      ensures r == ReadText(old(buffer)) && (r.Got? ==> buffer == r.rest)
    {
      var length := ReadUInt32();
      if length.Bad? || length.value >= TWO_31 || |buffer| < length.value {
        return Bad;
      }
      var text := buffer[..length.value];
      buffer := buffer[length.value..];
      r := if ValidUtf8(text) then Got(text, buffer) else Bad;
    }

    method SkipUnknown(tag: uint32) returns (r: Read<Unknown>)
      modifies this`buffer
      ensures r == SkipField(tag, old(buffer), budget) && (r.Got? ==> buffer == r.rest)
    {
      r := SkipField(tag, buffer, budget);
      if r.Got? {
        buffer := r.rest;
      }
    }
  }

  lemma MulNonNegative(a: nat, b: nat)
    ensures a * b >= 0
  {
  }

  ghost function Scaled(v: nat, scale: nat, r: Read<nat>): Read<nat> {
    match r case Bad => Bad case Got(w, rest) => Got(v + scale * w, rest)
  }

  lemma ScaledStep(v: nat, scale: nat, s: seq<byte>, budget: nat)
    requires budget > 0 && s != []
    ensures var b: int := s[0];
            Scaled(v, scale, DecodeVarint(s, budget)) ==
            if b < 128 then Got(v + scale * b, s[1..])
            else Scaled(v + scale * (b - 128), scale * 128, DecodeVarint(s[1..], budget - 1))
  {
    var b: int := s[0];
    var r := DecodeVarint(s[1..], budget - 1);
    if b >= 128 && r.Got? {
      assert scale * (b - 128 + 128 * r.value) == scale * (b - 128) + (scale * 128) * r.value;
    }
  }

  class CodedOutputStream {
    var bytes: seq<byte>

    constructor ()
      ensures bytes == []
    {
      bytes := [];
    }

    method WriteVarint(v: nat)
      modifies this
      ensures bytes == old(bytes) + EncodeVarint(v)
    {
      var rest := v;
      while rest >= 128
        invariant bytes + EncodeVarint(rest) == old(bytes) + EncodeVarint(v)
      {
        assert bytes + EncodeVarint(rest) == bytes + [rest % 128 + 128] + EncodeVarint(rest / 128);
        bytes := bytes + [rest % 128 + 128];
        rest := rest / 128;
      }
      bytes := bytes + [rest];
    }

    method WriteRaw(data: seq<byte>)
      modifies this
      ensures bytes == old(bytes) + data
    {
      bytes := bytes + data;
    }

    /** Strings and numbers are left out at their default. */
    method WriteString(tag: nat, text: seq<byte>)
      modifies this
      ensures bytes == old(bytes) + OptionalText(tag, text)
    {
      if text != [] {
        WriteVarint(tag);
        WriteVarint(|text|);
        WriteRaw(text);
        Regroup(old(bytes) + EncodeVarint(tag), EncodeVarint(|text|), text);
        Regroup(old(bytes), EncodeVarint(tag), EncodeBytes(text));
      }
    }

    method WriteNumber(tag: nat, n: nat)
      modifies this
      ensures bytes == old(bytes) + OptionalNumber(tag, n)
    {
      if n != 0 {
        WriteVarint(tag);
        WriteVarint(n);
        Regroup(old(bytes), EncodeVarint(tag), EncodeVarint(n));
      }
    }

    method WriteFlag(tag: nat, b: bool)
      modifies this
      ensures bytes == old(bytes) + OptionalFlag(tag, b)
    {
      if b {
        WriteVarint(tag);
        WriteVarint(1);
        Regroup(old(bytes), EncodeVarint(tag), EncodeVarint(1));
      }
    }
  }

  function OptionalText(tag: nat, text: seq<byte>): seq<byte> {
    if text != [] then EncodeVarint(tag) + EncodeBytes(text) else []
  }

  function OptionalNumber(tag: nat, n: nat): seq<byte> {
    if n != 0 then EncodeVarint(tag) + EncodeVarint(n) else []
  }

  function OptionalFlag(tag: nat, b: bool): seq<byte> {
    if b then EncodeVarint(tag) + EncodeBool(true) else []
  }

  class StreamInfoMessage {
    var url: seq<byte>
    var ip: seq<byte>
    var port: uint32
    var userId: seq<byte>
    var userPw: seq<byte>
    var tcp: bool
    var accumulateTime: uint32
    var fps: uint32
    var used: bool
    var unknown: seq<Unknown>
    var cachedSize: nat

    constructor ()
      ensures Value() == NO_STREAM && cachedSize == 0
    {
      url, ip, port, userId, userPw, tcp := [], [], 0, [], [], false;
      accumulateTime, fps, used, unknown, cachedSize := 0, 0, false, [], 0;
    }

    function Value(): StreamInfo
      reads this
    {
      StreamInfo(url, ip, port, userId, userPw, tcp, accumulateTime, fps, used, unknown)
    }

    /** The size that ByteSizeLong remembered is still the size of what would be written. */
    ghost predicate SizeCached()
      reads this
    {
      cachedSize == |SerializeStream(Value())|
    }

    /** False when a field cannot be read; true where the loop stops, whether or not that is the end. */
    method MergePartialFromCodedStream(input: CodedInputStream) returns (ok: bool)
      modifies this, input`buffer, input`consumedEntireMessage
      ensures match ParseStream(old(input.buffer), old(Value()), input.budget)
              case Failed => !ok
              case Parsed(m, atEnd) => ok && Value() == m && input.consumedEntireMessage == atEnd
    {
      while true
        invariant ParseStream(input.buffer, Value(), input.budget)
          == ParseStream(old(input.buffer), old(Value()), input.budget)
        decreases |input.buffer|
      {
        ghost var s, m := input.buffer, Value();
        var tag := input.ReadTagOrZero();
        if tag == 0 {
          return true;
        }
        var field := ReadField(input, tag);
        if field.Bad? {
          return false;
        }
        SetField(field.value);
        ParseStreamOnce(s, ReadTag(s).rest, m, input.budget);
      }
    }

    /** The dispatch on the tag: read the value that the field has on the wire. */
    method ReadField(input: CodedInputStream, tag: uint32) returns (r: Read<StreamField>)
      modifies input`buffer
      ensures r == ReadStreamField(tag, old(input.buffer), input.budget) && (r.Got? ==> input.buffer == r.rest)
    {
      r := Bad;
      match tag {
        case 10 => var x := input.ReadString(); if x.Got? { r := Got(Url(x.value), x.rest); }
        case 18 => var x := input.ReadString(); if x.Got? { r := Got(Ip(x.value), x.rest); }
        case 24 => var x := input.ReadUInt32(); if x.Got? { r := Got(Port(x.value), x.rest); }
        case 34 => var x := input.ReadString(); if x.Got? { r := Got(UserId(x.value), x.rest); }
        case 42 => var x := input.ReadString(); if x.Got? { r := Got(UserPw(x.value), x.rest); }
        case 48 => var x := input.ReadBoolean(); if x.Got? { r := Got(Tcp(x.value), x.rest); }
        case 56 => var x := input.ReadUInt32(); if x.Got? { r := Got(AccumulateTime(x.value), x.rest); }
        case 64 => var x := input.ReadUInt32(); if x.Got? { r := Got(Fps(x.value), x.rest); }
        case 72 => var x := input.ReadBoolean(); if x.Got? { r := Got(Used(x.value), x.rest); }
        case _ => var x := input.SkipUnknown(tag); if x.Got? { r := Got(Other(x.value), x.rest); }
      }
    }

    method SetField(f: StreamField)
      modifies this
      ensures Value() == ApplyStream(old(Value()), f) && cachedSize == old(cachedSize)
    {
      match f {
        case Url(x) => url := x;
        case Ip(x) => ip := x;
        case Port(x) => port := x;
        case UserId(x) => userId := x;
        case UserPw(x) => userPw := x;
        case Tcp(x) => tcp := x;
        case AccumulateTime(x) => accumulateTime := x;
        case Fps(x) => fps := x;
        case Used(x) => used := x;
        case Other(u) => unknown := unknown + [u];
      }
    }

    /** SerializeWithCachedSizes: the fields in order, those at their default left out. */
    method SerializeWithCachedSizes(output: CodedOutputStream)
      modifies output
      ensures output.bytes == old(output.bytes) + SerializeStream(Value())
    {
      ghost var start := output.bytes;
      Write1To3(output);
      Write4To6(output);
      Write7To9(output);
      output.WriteRaw(EncodeUnknowns(unknown));
      SerializedInParts(Value(), start);
    }

    method Write1To3(output: CodedOutputStream)
      modifies output
      ensures output.bytes == old(output.bytes) + EncodeStreamFields(Fields1To3(Value()))
    {
      Written1To3(Value(), output.bytes);
      output.WriteString(10, url);
      output.WriteString(18, ip);
      output.WriteNumber(24, port);
    }

    method Write4To6(output: CodedOutputStream)
      modifies output
      ensures output.bytes == old(output.bytes) + EncodeStreamFields(Fields4To6(Value()))
    {
      Written4To6(Value(), output.bytes);
      output.WriteString(34, userId);
      output.WriteString(42, userPw);
      output.WriteFlag(48, tcp);
    }

    method Write7To9(output: CodedOutputStream)
      modifies output
      ensures output.bytes == old(output.bytes) + EncodeStreamFields(Fields7To9(Value()))
    {
      Written7To9(Value(), output.bytes);
      output.WriteNumber(56, accumulateTime);
      output.WriteNumber(64, fps);
      output.WriteFlag(72, used);
    }

    method ByteSizeLong() returns (total: nat)
      requires StreamSizesFit(Value())
      modifies this`cachedSize
      ensures Value() == old(Value())
      ensures total == cachedSize == StreamSize(Value()) == |SerializeStream(Value())|
    {
      StreamSizeExact(Value());
      var texts := TextSizes();
      var numbers := NumberSizes();
      total := |EncodeUnknowns(unknown)| + texts + numbers;
      cachedSize := total;
    }

    method TextSizes() returns (total: nat)
      requires StreamSizesFit(Value())
      ensures total == TextSize(url) + TextSize(ip) + TextSize(userId) + TextSize(userPw)
    {
      total := 0;
      if url != [] { total := total + 1 + LengthDelimitedSize(|url|); }
      if ip != [] { total := total + 1 + LengthDelimitedSize(|ip|); }
      if userId != [] { total := total + 1 + LengthDelimitedSize(|userId|); }
      if userPw != [] { total := total + 1 + LengthDelimitedSize(|userPw|); }
    }

    method NumberSizes() returns (total: nat)
      ensures total == NumberSize(port) + NumberSize(accumulateTime) + FlagSize(tcp) + FlagSize(used) + NumberSize(fps)
    {
      total := 0;
      if port != 0 { total := total + 1 + VarintSize32(port); }
      if accumulateTime != 0 { total := total + 1 + VarintSize32(accumulateTime); }
      if tcp { total := total + 1 + 1; }
      if used { total := total + 1 + 1; }
      if fps != 0 { total := total + 1 + VarintSize32(fps); }
    }

    method MergeFrom(from: StreamInfoMessage)
      requires from != this
      modifies this
      ensures Value() == MergeStream(old(Value()), from.Value()) && cachedSize == old(cachedSize)
    {
      unknown := unknown + from.unknown;
      MergeTexts(from);
      MergeNumbers(from);
    }

    method MergeTexts(from: StreamInfoMessage)
      requires from != this
      modifies this`url, this`ip, this`userId, this`userPw
      ensures url == (if from.url != [] then from.url else old(url))
        && ip == (if from.ip != [] then from.ip else old(ip))
      ensures userId == if from.userId != [] then from.userId else old(userId)
      ensures userPw == if from.userPw != [] then from.userPw else old(userPw)
    {
      if from.url != [] { url := from.url; }
      if from.ip != [] { ip := from.ip; }
      if from.userId != [] { userId := from.userId; }
      if from.userPw != [] { userPw := from.userPw; }
    }

    method MergeNumbers(from: StreamInfoMessage)
      requires from != this
      modifies this`port, this`accumulateTime, this`tcp, this`used, this`fps
      ensures port == if from.port != 0 then from.port else old(port)
      ensures accumulateTime == if from.accumulateTime != 0 then from.accumulateTime else old(accumulateTime)
      ensures tcp == (from.tcp || old(tcp)) && used == (from.used || old(used))
      ensures fps == if from.fps != 0 then from.fps else old(fps)
    {
      if from.port != 0 { port := from.port; }
      if from.accumulateTime != 0 { accumulateTime := from.accumulateTime; }
      if from.tcp { tcp := from.tcp; }
      if from.used { used := from.used; }
      if from.fps != 0 { fps := from.fps; }
    }
  }

  /** Three groups of fields in a row, whose bytes are x, y and z. */
  lemma EncodeThree(fs: seq<StreamField>, a: seq<StreamField>, b: seq<StreamField>, c: seq<StreamField>,
                    start: seq<byte>, x: seq<byte>, y: seq<byte>, z: seq<byte>)
    requires fs == a + b + c
    requires EncodeStreamFields(a) == x && EncodeStreamFields(b) == y && EncodeStreamFields(c) == z
    ensures start + EncodeStreamFields(fs) == start + x + y + z
  {
    EncodeAppend(a + b, c);
    EncodeAppend(a, b);
    RegroupFour(start, x, y, z);
  }

  lemma RegroupFour(start: seq<byte>, a: seq<byte>, b: seq<byte>, c: seq<byte>)
    ensures start + (a + b + c) == start + a + b + c
  {
  }

  lemma EncodePresent(c: bool, f: StreamField)
    ensures EncodeStreamFields(Present(c, f)) == if c then EncodeStreamField(f) else []
  {
    StreamCodec.EncodeSingle(f);
  }

  /** What the three groups of fields look like on the wire. */
  lemma Written1To3(m: StreamInfo, start: seq<byte>)
    ensures start + EncodeStreamFields(Fields1To3(m))
         == start + OptionalText(10, m.url) + OptionalText(18, m.ip) + OptionalNumber(24, m.port)
  {
    TextPresent(Url(m.url));
    TextPresent(Ip(m.ip));
    NumberPresent(Port(m.port));
    EncodeThree(Fields1To3(m),
                Present(m.url != [], Url(m.url)), Present(m.ip != [], Ip(m.ip)), Present(m.port != 0, Port(m.port)),
                start, OptionalText(10, m.url), OptionalText(18, m.ip), OptionalNumber(24, m.port));
  }

  lemma Written4To6(m: StreamInfo, start: seq<byte>)
    ensures start + EncodeStreamFields(Fields4To6(m))
         == start + OptionalText(34, m.userId) + OptionalText(42, m.userPw) + OptionalFlag(48, m.tcp)
  {
    TextPresent(UserId(m.userId));
    TextPresent(UserPw(m.userPw));
    FlagPresent(Tcp(m.tcp));
    EncodeThree(Fields4To6(m),
                Present(m.userId != [], UserId(m.userId)), Present(m.userPw != [], UserPw(m.userPw)),
                Present(m.tcp, Tcp(m.tcp)),
                start, OptionalText(34, m.userId), OptionalText(42, m.userPw), OptionalFlag(48, m.tcp));
  }

  lemma Written7To9(m: StreamInfo, start: seq<byte>)
    ensures start + EncodeStreamFields(Fields7To9(m))
         == start + OptionalNumber(56, m.accumulateTime) + OptionalNumber(64, m.fps) + OptionalFlag(72, m.used)
  {
    NumberPresent(AccumulateTime(m.accumulateTime));
    NumberPresent(Fps(m.fps));
    FlagPresent(Used(m.used));
    EncodeThree(Fields7To9(m),
                Present(m.accumulateTime != 0, AccumulateTime(m.accumulateTime)), Present(m.fps != 0, Fps(m.fps)),
                Present(m.used, Used(m.used)),
                start, OptionalNumber(56, m.accumulateTime), OptionalNumber(64, m.fps), OptionalFlag(72, m.used));
  }

  lemma TextPresent(f: StreamField)
    requires HasText(f)
    ensures EncodeStreamFields(Present(f.text != [], f)) == OptionalText(StreamTag(f), f.text)
  {
    EncodePresent(f.text != [], f);
  }

  lemma NumberPresent(f: StreamField)
    requires f.Port? || f.AccumulateTime? || f.Fps?
    ensures EncodeStreamFields(Present(f.number != 0, f)) == OptionalNumber(StreamTag(f), f.number)
  {
    EncodePresent(f.number != 0, f);
  }

  lemma FlagPresent(f: StreamField)
    requires f.Tcp? || f.Used?
    ensures EncodeStreamFields(Present(f.flag, f)) == OptionalFlag(StreamTag(f), f.flag)
  {
    EncodePresent(f.flag, f);
  }

  lemma SerializedInParts(m: StreamInfo, start: seq<byte>)
    ensures start + SerializeStream(m) == start + EncodeStreamFields(Fields1To3(m)) + EncodeStreamFields(Fields4To6(m))
                                          + EncodeStreamFields(Fields7To9(m)) + EncodeUnknowns(m.unknown)
  {
    var a, b, c, d := Fields1To3(m), Fields4To6(m), Fields7To9(m), Others(m.unknown);
    EncodeAppend(a + b + c, d);
    EncodeAppend(a + b, c);
    EncodeAppend(a, b);
    EncodeOthers(m.unknown);
    RegroupFive(start, EncodeStreamFields(a), EncodeStreamFields(b), EncodeStreamFields(c), EncodeStreamFields(d));
  }

  lemma RegroupFive(start: seq<byte>, a: seq<byte>, b: seq<byte>, c: seq<byte>, d: seq<byte>)
    ensures start + (a + b + c + d) == start + a + b + c + d
  {
    RegroupFour(start, a + b, c, d);
    Regroup(start, a, b);
  }

  // ---------------------------------------------------------------- the bytes themselves

  lemma OneByteTag(tag: byte)
    requires tag < 128
    ensures EncodeVarint(tag) == [tag]
  {
  }

  lemma TextBytes(tag: byte, text: seq<byte>)
    requires tag < 128
    ensures OptionalText(tag, text) == if text == [] then [] else [tag] + EncodeVarint(|text|) + text
  {
    OneByteTag(tag);
    Regroup([tag], EncodeVarint(|text|), text);
  }

  lemma ScalarBytes(tag: byte, n: nat, b: bool)
    requires tag < 128
    ensures OptionalNumber(tag, n) == if n == 0 then [] else [tag] + EncodeVarint(n)
    ensures OptionalFlag(tag, b) == if b then [tag, 1] else []
  {
    OneByteTag(tag);
    OneByteTag(1);
  }

  /** The fields in the order of their numbers; EncodeVarint is the subject of Wire.VarintDigits. */
  ghost function StreamBytes(m: StreamInfo): seq<byte> {
    (if m.url == [] then [] else [10] + EncodeVarint(|m.url|) + m.url)
    + (if m.ip == [] then [] else [18] + EncodeVarint(|m.ip|) + m.ip)
    + (if m.port == 0 then [] else [24] + EncodeVarint(m.port))
    + (if m.userId == [] then [] else [34] + EncodeVarint(|m.userId|) + m.userId)
    + (if m.userPw == [] then [] else [42] + EncodeVarint(|m.userPw|) + m.userPw)
    + (if m.tcp then [48, 1] else [])
    + (if m.accumulateTime == 0 then [] else [56] + EncodeVarint(m.accumulateTime))
    + (if m.fps == 0 then [] else [64] + EncodeVarint(m.fps))
    + (if m.used then [72, 1] else [])
    + EncodeUnknowns(m.unknown)
  }

  /** What a stream info is serialized to, byte for byte. */
  lemma StreamIsSerializedTo(m: StreamInfo)
    ensures SerializeStream(m) == StreamBytes(m)
  {
    TextBytes(10, m.url);
    TextBytes(18, m.ip);
    TextBytes(34, m.userId);
    TextBytes(42, m.userPw);
    ScalarBytes(24, m.port, false);
    ScalarBytes(56, m.accumulateTime, m.tcp);
    ScalarBytes(64, m.fps, m.used);
    ScalarBytes(48, 0, m.tcp);
    ScalarBytes(72, 0, m.used);
    InParts(m);
  }

  lemma InParts(m: StreamInfo)
    ensures SerializeStream(m)
         == OptionalText(10, m.url) + OptionalText(18, m.ip) + OptionalNumber(24, m.port)
            + OptionalText(34, m.userId) + OptionalText(42, m.userPw) + OptionalFlag(48, m.tcp)
            + OptionalNumber(56, m.accumulateTime) + OptionalNumber(64, m.fps) + OptionalFlag(72, m.used)
            + EncodeUnknowns(m.unknown)
  {
    SerializedInParts(m, []);
    Written1To3(m, []);
    var first := [] + EncodeStreamFields(Fields1To3(m));
    Written4To6(m, first);
    var second := first + EncodeStreamFields(Fields4To6(m));
    Written7To9(m, second);
    assert [] + SerializeStream(m) == SerializeStream(m);
    assert [] + OptionalText(10, m.url) == OptionalText(10, m.url);
  }

  /** The nested messages one after the other, each behind the byte 26 and its length. */
  ghost function NestedBytes(streams: seq<StreamInfo>): seq<byte> {
    if streams == [] then []
    else
      var body := StreamBytes(streams[0]);
      [26] + EncodeVarint(|body|) + body + NestedBytes(streams[1..])
  }

  lemma {:induction false} StreamsAreSerializedTo(streams: seq<StreamInfo>)
    ensures EncodeCameraFields(Streams(streams)) == NestedBytes(streams)
  {
    if streams != [] {
      StreamsAreSerializedTo(streams[1..]);
      StreamIsSerializedTo(streams[0]);
      OneByteTag(26);
      assert Streams(streams)[1..] == Streams(streams[1..]);
      var body := StreamBytes(streams[0]);
      Regroup([26], EncodeVarint(|body|), body);
    }
  }

  /** What a camera is serialized to, byte for byte. */
  lemma CameraIsSerializedTo(m: Camera)
    ensures SerializeCamera(m)
         == (if m.guid == [] then [] else [10] + EncodeVarint(|m.guid|) + m.guid)
            + (if m.name == [] then [] else [18] + EncodeVarint(|m.name|) + m.name)
            + NestedBytes(m.streams) + EncodeUnknowns(m.unknown)
  {
    CameraInParts(m, []);
    TextBytes(10, m.guid);
    TextBytes(18, m.name);
    StreamsAreSerializedTo(m.streams);
    assert [] + SerializeCamera(m) == SerializeCamera(m);
    assert [] + OptionalText(10, m.guid) == OptionalText(10, m.guid);
  }

  class CameraMessage {
    var guid: seq<byte>
    var name: seq<byte>
    var streamInfo: seq<StreamInfoMessage>
    var unknown: seq<Unknown>
    var cachedSize: nat
    /** What the nested messages hold. */
    ghost var streams: seq<StreamInfo>

    constructor ()
      ensures Valid() && Value() == NO_CAMERA && streamInfo == []
    {
      guid, name, streamInfo, unknown, cachedSize, streams := [], [], [], [], 0, [];
    }

    ghost predicate Valid()
      reads this`streamInfo, this`streams, streamInfo
    {
      |streams| == |streamInfo| && forall i | 0 <= i < |streams| :: streamInfo[i].Value() == streams[i]
    }

    ghost function Value(): Camera
      reads this`guid, this`name, this`streams, this`unknown
    {
      Camera(guid, name, streams, unknown)
    }

    method MergePartialFromCodedStream(input: CodedInputStream) returns (ok: bool)
      requires Valid()
      modifies this, input
      ensures forall x :: x in streamInfo ==> x in old(streamInfo) || fresh(x)
      ensures Valid()
      ensures match ParseCamera(old(input.buffer), old(Value()), old(input.budget))
              case Failed => !ok
              case Parsed(m, atEnd) => ok && Value() == m && input.consumedEntireMessage == atEnd
    {
      ok := true;
      while true
        invariant Valid() && input.budget == old(input.budget)
        invariant forall x :: x in streamInfo ==> x in old(streamInfo) || fresh(x)
        invariant ParseCamera(input.buffer, Value(), input.budget)
          == ParseCamera(old(input.buffer), old(Value()), input.budget)
        decreases |input.buffer|
      {
        ghost var s, m := input.buffer, Value();
        var tag := input.ReadTagOrZero();
        if tag == 0 {
          return true;
        }
        ParseCameraOnce(s, ReadTag(s).rest, m, input.budget);
        ok := MergeField(input, tag);
        if !ok {
          return;
        }
      }
    }

    /** The dispatch on the tag. */
    method MergeField(input: CodedInputStream, tag: uint32) returns (ok: bool)
      requires Valid()
      modifies this, input
      ensures forall x :: x in streamInfo ==> x in old(streamInfo) || fresh(x)
      ensures Valid()
      ensures match ReadCameraField(tag, old(input.buffer), old(input.budget))
              case Bad => !ok
              case Got(f, rest) =>
                && ok && input.buffer == rest && input.budget == old(input.budget)
                && Value() == ApplyCamera(old(Value()), f)
    {
      if tag == 26 {
        ok := AddStream(input);
        return;
      }
      ok := false;
      if tag == 10 {
        var x := input.ReadString();
        if x.Got? {
          guid, ok := x.value, true;
        }
      } else if tag == 18 {
        var x := input.ReadString();
        if x.Got? {
          name, ok := x.value, true;
        }
      } else {
        var x := input.SkipUnknown(tag);
        if x.Got? {
          unknown, ok := unknown + [x.value], true;
        }
      }
    }

    /** add_stream_info: the nested message is read into a new element at the end. */
    method AddStream(input: CodedInputStream) returns (ok: bool)
      requires Valid()
      modifies this, input
      ensures forall x :: x in streamInfo ==> x in old(streamInfo) || fresh(x)
      ensures Valid()
      ensures match ReadStream(old(input.buffer), old(input.budget))
              case Bad => !ok
              case Got(m, rest) =>
                && ok && input.buffer == rest && input.budget == old(input.budget)
                && Value() == ApplyCamera(old(Value()), Stream(m))
    {
      var message := new StreamInfoMessage();
      ok := ReadMessage(input, message);
      streamInfo, streams := streamInfo + [message], streams + [message.Value()];
    }

    /** WireFormatLite::ReadMessage: the length becomes the limit while the nested message is parsed. */
    static method ReadMessage(input: CodedInputStream, message: StreamInfoMessage) returns (ok: bool)
      requires message.Value() == NO_STREAM
      modifies message, input
      ensures match ReadStream(old(input.buffer), old(input.budget))
              case Bad => !ok
              case Got(m, rest) =>
                && ok && input.buffer == rest && input.budget == old(input.budget)
                && message.Value() == m
    {
      var raw := input.ReadVarint();
      if raw.Bad? {
        return false;
      }
      var length := raw.value % TWO_64;
      if length >= TWO_31 || |input.buffer| < length || input.budget == 0 {
        return false;
      }
      ok := ReadWithin(input, message, length);
    }

    /** One level deeper, the limit is pushed, the message must end there, and the limit is popped. */
    static method ReadWithin(input: CodedInputStream, message: StreamInfoMessage, length: nat) returns (ok: bool)
      requires message.Value() == NO_STREAM && length <= |input.buffer| && input.budget > 0
      modifies message, input
      ensures input.buffer == old(input.buffer[length..]) && input.budget == old(input.budget)
      ensures match ParseStream(old(input.buffer[..length]), NO_STREAM, old(input.budget) - 1)
              case Failed => !ok
              case Parsed(m, atEnd) => ok == atEnd && (ok ==> message.Value() == m)
    {
      ghost var parsed := ParseStream(input.buffer[..length], NO_STREAM, input.budget - 1);
      var afterLimit := input.buffer[length..];
      input.buffer, input.budget := input.buffer[..length], input.budget - 1;
      assert ParseStream(input.buffer, message.Value(), input.budget) == parsed;
      ok := message.MergePartialFromCodedStream(input);
      assert parsed.Parsed? ==> message.Value() == parsed.message && input.consumedEntireMessage == parsed.atEnd;
      ok := ok && input.consumedEntireMessage;
      input.buffer, input.budget := afterLimit, input.budget + 1;
    }

    method ByteSizeLong() returns (total: nat)
      requires Valid() && CameraSizesFit(Value())
      modifies this`cachedSize, streamInfo`cachedSize
      ensures Valid() && total == cachedSize == CameraSize(Value()) == |SerializeCamera(Value())|
      ensures SizesCached()
    {
      total := TotalSize();
      CameraSizeExact(Value());
      SetCachedSize(total);
    }

    method SetCachedSize(size: nat)
      requires Valid() && SizesCached()
      modifies this`cachedSize
      ensures Valid() && SizesCached() && cachedSize == size
    {
      cachedSize := size;
    }

    method TotalSize() returns (total: nat)
      requires Valid() && CameraSizesFit(Value())
      modifies streamInfo`cachedSize
      ensures Valid() && total == CameraSize(Value())
      ensures SizesCached()
    {
      var nested := StreamSizes();
      var texts := TextSizes();
      total := |EncodeUnknowns(unknown)| + |streamInfo| + nested + texts;
    }

    method TextSizes() returns (total: nat)
      requires |guid| < TWO_31 && |name| < TWO_31
      ensures total == TextSize(guid) + TextSize(name)
    {
      total := 0;
      if guid != [] { total := total + 1 + LengthDelimitedSize(|guid|); }
      if name != [] { total := total + 1 + LengthDelimitedSize(|name|); }
    }

    /** The sizes of the nested messages are remembered: they become the length prefixes. */
    method StreamSizes() returns (total: nat)
      requires Valid() && CameraSizesFit(Value())
      modifies streamInfo`cachedSize
      ensures Valid() && SizesCached() && total == StreamsSize(streams)
    {
      total := 0;
      var i := 0;
      NothingSummed(streams);
      while i < |streamInfo|
        invariant 0 <= i <= |streamInfo| && Valid()
        invariant SizesCachedUpTo(i)
        invariant Summed(streams, i, total)
      {
        ghost var at, before := i, total;
        var size := CacheSize(i);
        total := total + size;
        i := i + 1;
        SummedStep(streams, at, before, i, total);
      }
      AllSummed(streams, i, total);
    }

    method CacheSize(i: nat) returns (size: nat)
      requires Valid() && i < |streams| && NestedSizeFits(streams[i]) && SizesCachedUpTo(i)
      modifies streamInfo`cachedSize
      ensures Valid() && SizesCachedUpTo(i + 1) && size == LengthDelimitedSize(StreamSize(streams[i]))
    {
      size := NestedSize(streamInfo[i], streams[i]);
      StillCached(i);
    }

    twostate lemma StillCached(n: nat)
      requires n < |streamInfo| && unchanged(this) && old(SizesCachedUpTo(n)) && streamInfo[n].SizeCached()
      requires forall x | x in streamInfo && x != streamInfo[n] :: unchanged(x)
      ensures SizesCachedUpTo(n + 1)
    {
      forall j | 0 <= j < n ensures streamInfo[j].SizeCached() {
        assert streamInfo[j] in streamInfo;
        if streamInfo[j] != streamInfo[n] {
          assert old(streamInfo[j].SizeCached());
        }
      }
    }

    static method NestedSize(message: StreamInfoMessage, ghost m: StreamInfo) returns (size: nat)
      requires message.Value() == m && NestedSizeFits(m)
      modifies message`cachedSize
      ensures message.Value() == m && message.SizeCached() && size == LengthDelimitedSize(StreamSize(m))
    {
      size := message.ByteSizeLong();
      size := LengthDelimitedSize(size);
    }

    ghost predicate SizesCachedUpTo(n: nat)
      reads this`streamInfo, streamInfo
    {
      n <= |streamInfo| && forall i | 0 <= i < n :: streamInfo[i].SizeCached()
    }

    ghost predicate SizesCached()
      reads this`streamInfo, streamInfo
    {
      SizesCachedUpTo(|streamInfo|)
    }

    /** Relies on the sizes that ByteSizeLong left behind. */
    method SerializeWithCachedSizes(output: CodedOutputStream)
      requires Valid() && SizesCached()
      modifies output
      ensures output.bytes == old(output.bytes) + SerializeCamera(Value())
    {
      ghost var start, m := output.bytes, Value();
      WriteTexts(output);
      WriteStreams(output);
      output.WriteRaw(EncodeUnknowns(unknown));
      CameraInParts(m, start);
    }

    method WriteTexts(output: CodedOutputStream)
      modifies output
      ensures output.bytes == old(output.bytes) + OptionalText(10, guid) + OptionalText(18, name)
    {
      output.WriteString(10, guid);
      output.WriteString(18, name);
    }

    method WriteStreams(output: CodedOutputStream)
      requires Valid() && SizesCached()
      modifies output
      ensures output.bytes == old(output.bytes) + EncodeCameraFields(Streams(streams))
    {
      var i := 0;
      assert streams[0..] == streams;
      while i < |streamInfo|
        invariant 0 <= i <= |streamInfo|
        invariant output.bytes + EncodeCameraFields(Streams(streams[i..]))
          == old(output.bytes) + EncodeCameraFields(Streams(streams))
      {
        StreamWritten(output.bytes, streams, i);
        WriteStream(streamInfo[i], output);
        i := i + 1;
      }
      assert Streams(streams[i..]) == [];
    }

    static method WriteStream(message: StreamInfoMessage, output: CodedOutputStream)
      requires message.SizeCached()
      modifies output
      ensures output.bytes == old(output.bytes) + EncodeCameraField(Stream(message.Value()))
    {
      ghost var start, body := output.bytes, SerializeStream(message.Value());
      output.WriteVarint(26);
      output.WriteVarint(message.cachedSize);
      message.SerializeWithCachedSizes(output);
      RegroupFour(start, EncodeVarint(26), EncodeVarint(|body|), body);
      Regroup(EncodeVarint(26), EncodeVarint(|body|), body);
    }

    /** SerializeToOstream: the sizes first, then the bytes. */
    method Serialize() returns (bytes: seq<byte>)
      requires Valid() && CameraSizesFit(Value())
      modifies this`cachedSize, streamInfo`cachedSize
      ensures Valid() && Value() == old(Value()) && bytes == SerializeCamera(Value()) && |bytes| == cachedSize
    {
      var _ := ByteSizeLong();
      bytes := SerializeToArray();
    }

    method SerializeToArray() returns (bytes: seq<byte>)
      requires Valid() && SizesCached()
      ensures bytes == SerializeCamera(Value())
    {
      var output := new CodedOutputStream();
      SerializeWithCachedSizes(output);
      bytes := output.bytes;
    }

    method MergeFrom(from: CameraMessage)
      requires from != this && Valid() && from.Valid()
      modifies this
      ensures Valid() && Value() == MergeCamera(old(Value()), from.Value())
      ensures forall x :: x in streamInfo ==> x in old(streamInfo) || fresh(x)
    {
      unknown := unknown + from.unknown;
      AppendStreams(from);
      if from.guid != [] {
        guid := from.guid;
      }
      if from.name != [] {
        name := from.name;
      }
    }

    /** Each nested message is copied into a new element at the end. */
    method AppendStreams(from: CameraMessage)
      requires from != this && Valid() && from.Valid()
      modifies this`streamInfo, this`streams
      ensures Valid() && streams == old(streams) + from.streams
      ensures forall x :: x in streamInfo ==> x in old(streamInfo) || fresh(x)
    {
      var i := 0;
      while i < |from.streamInfo|
        invariant 0 <= i <= |from.streamInfo| && Valid() && from.Valid()
        invariant forall x :: x in streamInfo ==> x in old(streamInfo) || fresh(x)
        invariant streams == old(streams) + from.streams[..i]
      {
        var copy := CopyOf(from.streamInfo[i]);
        TakeOneMore(old(streams), from.streams, i);
        streamInfo, streams := streamInfo + [copy], streams + [copy.Value()];
        i := i + 1;
      }
      assert from.streams[..i] == from.streams;
    }

    static method CopyOf(message: StreamInfoMessage) returns (copy: StreamInfoMessage)
      ensures fresh(copy) && copy.Value() == message.Value()
    {
      copy := new StreamInfoMessage();
      copy.MergeFrom(message);
      MergeIntoEmpty(message.Value());
    }
  }

  /** Of the sizes of the nested messages the first i have been added up. */
  ghost predicate Summed(streams: seq<StreamInfo>, i: nat, total: nat) {
    && i <= |streams| && (forall j | 0 <= j < |streams| :: NestedSizeFits(streams[j]))
    && total + StreamsSize(streams[i..]) == StreamsSize(streams)
  }

  lemma NothingSummed(streams: seq<StreamInfo>)
    requires forall j | 0 <= j < |streams| :: NestedSizeFits(streams[j])
    ensures Summed(streams, 0, 0)
  {
    assert streams[0..] == streams;
  }

  lemma AllSummed(streams: seq<StreamInfo>, i: nat, total: nat)
    requires Summed(streams, i, total) && i == |streams|
    ensures total == StreamsSize(streams)
  {
    assert streams[i..] == [];
  }

  lemma SummedStep(streams: seq<StreamInfo>, i: nat, total: nat, next: nat, nextTotal: nat)
    requires i < |streams| && Summed(streams, i, total) && next == i + 1
    requires nextTotal == total + LengthDelimitedSize(StreamSize(streams[i]))
    ensures Summed(streams, next, nextTotal)
  {
    assert streams[i..][1..] == streams[next..];
  }

  lemma TakeOneMore(before: seq<StreamInfo>, added: seq<StreamInfo>, i: nat)
    requires i < |added|
    ensures before + added[..i] + [added[i]] == before + added[..i + 1]
  {
  }

  lemma CameraInParts(m: Camera, start: seq<byte>)
    ensures start + SerializeCamera(m)
         == start + OptionalText(10, m.guid) + OptionalText(18, m.name)
            + EncodeCameraFields(Streams(m.streams)) + EncodeUnknowns(m.unknown)
  {
    var guid, name := Single(m.guid != [], Guid(m.guid)), Single(m.name != [], Name(m.name));
    EncodeCameraAppend(guid + name + Streams(m.streams), Extras(m.unknown));
    EncodeCameraAppend(guid + name, Streams(m.streams));
    EncodeCameraAppend(guid, name);
    CameraCodec.EncodeSingle(Guid(m.guid));
    CameraCodec.EncodeSingle(Name(m.name));
    EncodeExtras(m.unknown);
    RegroupFive(start, EncodeCameraFields(guid), EncodeCameraFields(name),
                EncodeCameraFields(Streams(m.streams)), EncodeUnknowns(m.unknown));
  }

  lemma StreamWritten(before: seq<byte>, streams: seq<StreamInfo>, i: nat)
    requires i < |streams|
    ensures before + EncodeCameraFields(Streams(streams[i..]))
         == before + EncodeCameraField(Stream(streams[i])) + EncodeCameraFields(Streams(streams[i + 1..]))
  {
    assert streams[i..][1..] == streams[i + 1..];
    assert Streams(streams[i..])[1..] == Streams(streams[i + 1..]);
    Regroup(before, EncodeCameraField(Stream(streams[i])), EncodeCameraFields(Streams(streams[i + 1..])));
  }
}
