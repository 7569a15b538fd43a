/** The message Camera of include/proto/CameraInfoFile.pb.cc on values: the repeated nested StreamInfo. */
module CameraCodec {
  import opened Common
  import opened Wire
  import opened StreamCodec
  import opened Utf8

  datatype Camera = Camera(guid: seq<byte>, name: seq<byte>, streams: seq<StreamInfo>, unknown: seq<Unknown>)

  const NO_CAMERA := Camera([], [], [], [])

  datatype CameraField =
    | Guid(text: seq<byte>)
    | Name(text: seq<byte>)
    | Stream(info: StreamInfo)
    | Extra(field: Unknown)

  function CameraTag(f: CameraField): nat {
    match f case Guid(_) => 10 case Name(_) => 18 case Stream(_) => 26 case Extra(u) => TagOf(u)
  }

  function CameraPayload(f: CameraField): seq<byte> {
    match f
    case Guid(x) => EncodeBytes(x)
    case Name(x) => EncodeBytes(x)
    case Stream(x) => EncodeBytes(SerializeStream(x))
    case Extra(u) => Payload(u)
  }

  function EncodeCameraField(f: CameraField): seq<byte> {
    EncodeVarint(CameraTag(f)) + CameraPayload(f)
  }

  function EncodeCameraFields(fs: seq<CameraField>): seq<byte> {
    if fs == [] then [] else EncodeCameraField(fs[0]) + EncodeCameraFields(fs[1..])
  }

  function Streams(streams: seq<StreamInfo>): seq<CameraField> {
    if streams == [] then [] else [Stream(streams[0])] + Streams(streams[1..])
  }

  function Extras(us: seq<Unknown>): seq<CameraField> {
    if us == [] then [] else [Extra(us[0])] + Extras(us[1..])
  }

  function CameraFields(m: Camera): seq<CameraField> {
    (if m.guid != [] then [Guid(m.guid)] else []) + (if m.name != [] then [Name(m.name)] else [])
    + Streams(m.streams) + Extras(m.unknown)
  }

  function SerializeCamera(m: Camera): seq<byte> {
    EncodeCameraFields(CameraFields(m))
  }

  /** ReadMessage: a length that must fit an int, then a nested message that must end where its length says. */
  function ReadStream(s: seq<byte>, depth: nat): (r: Read<StreamInfo>)
    ensures r.Got? ==> |r.rest| < |s|
  {
    match ReadVarint64(s)
    case Bad => Bad
    case Got(n, rest) =>
      if n >= TWO_31 || |rest| < n || depth == 0 then Bad
      else
        match ParseStream(rest[..n], NO_STREAM, depth - 1)
        case Failed => Bad
        case Parsed(m, atEnd) => if atEnd then Got(m, rest[n..]) else Bad
  }

  function ReadCameraField(tag: nat, s: seq<byte>, depth: nat): (r: Read<CameraField>)
    ensures r.Got? ==> |r.rest| <= |s|
  {
    if tag == 10 then match ReadText(s) case Bad => Bad case Got(x, rest) => Got(Guid(x), rest)
    else if tag == 18 then match ReadText(s) case Bad => Bad case Got(x, rest) => Got(Name(x), rest)
    else if tag == 26 then match ReadStream(s, depth) case Bad => Bad case Got(x, rest) => Got(Stream(x), rest)
    else match SkipField(tag, s, depth) case Bad => Bad case Got(x, rest) => Got(Extra(x), rest)
  }

  function ApplyCamera(m: Camera, f: CameraField): Camera {
    match f
    case Guid(x) => m.(guid := x)
    case Name(x) => m.(name := x)
    case Stream(x) => m.(streams := m.streams + [x])
    case Extra(u) => m.(unknown := m.unknown + [u])
  }

  function ParseCamera(s: seq<byte>, m: Camera, depth: nat): Parsed<Camera>
    decreases |s|
  {
    match ReadTag(s)
    case NoTag(atEnd) => Parsed(m, atEnd)
    case ATag(tag, rest) =>
      match ReadCameraField(tag, rest, depth)
      case Bad => Failed
      case Got(f, rest') => ParseCamera(rest', ApplyCamera(m, f), depth)
  }

  function MergeCamera(m: Camera, from: Camera): Camera {
    Camera(
      if from.guid != [] then from.guid else m.guid,
      if from.name != [] then from.name else m.name,
      m.streams + from.streams,
      m.unknown + from.unknown)
  }

  function ApplyCameraFields(m: Camera, fs: seq<CameraField>): Camera
    decreases |fs|
  {
    if fs == [] then m else ApplyCameraFields(ApplyCamera(m, fs[0]), fs[1..])
  }

  predicate KnownCameraTag(tag: nat) {
    tag in {10, 18, 26}
  }

  ghost predicate NestedOk(x: StreamInfo, depth: nat) {
    depth > 0 && StreamOk(x, depth - 1) && |SerializeStream(x)| < TWO_31
  }

  ghost predicate WellFormedCameraField(f: CameraField, depth: nat) {
    match f
    case Guid(x) => |x| < TWO_31
    case Name(x) => |x| < TWO_31
    case Stream(x) => NestedOk(x, depth)
    case Extra(u) => ValidUnknown(u, depth) && !KnownCameraTag(TagOf(u))
  }

  predicate CameraFieldTextOk(f: CameraField) {
    match f
    case Guid(x) => ValidUtf8(x)
    case Name(x) => ValidUtf8(x)
    case Stream(x) => StreamTextOk(x)
    case Extra(_) => true
  }

  ghost predicate AllCameraWellFormed(fs: seq<CameraField>, depth: nat)
    decreases |fs|
  {
    fs == [] || (WellFormedCameraField(fs[0], depth) && AllCameraWellFormed(fs[1..], depth))
  }

  predicate AllCameraTextOk(fs: seq<CameraField>)
    decreases |fs|
  {
    fs == [] || (CameraFieldTextOk(fs[0]) && AllCameraTextOk(fs[1..]))
  }

  /** A nested message is read back, its length prefix delimiting exactly it. */
  lemma ReadNested(x: StreamInfo, rest: seq<byte>, depth: nat)
    requires NestedOk(x, depth)
    ensures ReadStream(EncodeBytes(SerializeStream(x)) + rest, depth) == if StreamTextOk(x) then Got(x, rest) else Bad
  {
    var body := SerializeStream(x);
    Regroup(EncodeVarint(|body|), body, rest);
    ReadEncoded(|body|, body + rest);
    SplitAt(body, rest);
    StreamTextIff(x);
    StreamRoundTrip(x, depth - 1);
  }

  lemma ReadCameraFieldBack(f: CameraField, rest: seq<byte>, depth: nat)
    requires WellFormedCameraField(f, depth)
    ensures ReadCameraField(CameraTag(f), CameraPayload(f) + rest, depth)
         == if CameraFieldTextOk(f) then Got(f, rest) else Bad
  {
    match f
    case Guid(x) => ReadEncodedText(x, rest);
    case Name(x) => ReadEncodedText(x, rest);
    case Stream(x) => ReadNested(x, rest, depth);
    case Extra(u) => SkipEncoded(u, rest, depth);
  }

  lemma ParseCameraStep(f: CameraField, rest: seq<byte>, m: Camera, depth: nat)
    requires WellFormedCameraField(f, depth)
    ensures ParseCamera(EncodeCameraField(f) + rest, m, depth)
         == if CameraFieldTextOk(f) then ParseCamera(rest, ApplyCamera(m, f), depth) else Failed
  {
    var tail := CameraPayload(f) + rest;
    ReadEncodedTag(CameraTag(f), tail);
    ReadCameraFieldBack(f, rest, depth);
    ParseCameraOnce(EncodeVarint(CameraTag(f)) + tail, tail, m, depth);
    Regroup(EncodeVarint(CameraTag(f)), CameraPayload(f), rest);
  }

  ghost function Continue(r: Read<CameraField>, m: Camera, depth: nat): Parsed<Camera> {
    match r case Bad => Failed case Got(f, rest) => ParseCamera(rest, ApplyCamera(m, f), depth)
  }

  lemma ParseCameraOnce(s: seq<byte>, s': seq<byte>, m: Camera, depth: nat)
    requires ReadTag(s).ATag? && ReadTag(s).rest == s'
    ensures ParseCamera(s, m, depth) == Continue(ReadCameraField(ReadTag(s).tag, s', depth), m, depth)
  {
  }

  lemma EncodeFirst(fs: seq<CameraField>, rest: seq<byte>)
    requires fs != []
    ensures EncodeCameraFields(fs) + rest == EncodeCameraField(fs[0]) + (EncodeCameraFields(fs[1..]) + rest)
  {
    Regroup(EncodeCameraField(fs[0]), EncodeCameraFields(fs[1..]), rest);
  }

  lemma {:induction false} ParseCameraFields(fs: seq<CameraField>, rest: seq<byte>, m: Camera, depth: nat)
    requires AllCameraWellFormed(fs, depth)
    ensures ParseCamera(EncodeCameraFields(fs) + rest, m, depth)
         == if AllCameraTextOk(fs) then ParseCamera(rest, ApplyCameraFields(m, fs), depth) else Failed
    decreases |fs|
  {
    if fs == [] {
      assert [] + rest == rest;
    } else {
      EncodeFirst(fs, rest);
      ParseCameraStep(fs[0], EncodeCameraFields(fs[1..]) + rest, m, depth);
      ParseCameraFields(fs[1..], rest, ApplyCamera(m, fs[0]), depth);
    }
  }

  lemma {:induction false} EncodeCameraAppend(a: seq<CameraField>, b: seq<CameraField>)
    ensures EncodeCameraFields(a + b) == EncodeCameraFields(a) + EncodeCameraFields(b)
  {
    if a == [] {
      assert a + b == b;
    } else {
      assert (a + b)[1..] == a[1..] + b;
      EncodeCameraAppend(a[1..], b);
    }
  }

  /** What concatenated field lists do to application and the two checks. */
  lemma {:induction false} CameraAppend(m: Camera, a: seq<CameraField>, b: seq<CameraField>, depth: nat)
    ensures ApplyCameraFields(m, a + b) == ApplyCameraFields(ApplyCameraFields(m, a), b)
    ensures AllCameraTextOk(a + b) <==> AllCameraTextOk(a) && AllCameraTextOk(b)
    ensures AllCameraWellFormed(a + b, depth) <==> AllCameraWellFormed(a, depth) && AllCameraWellFormed(b, depth)
    decreases |a|
  {
    if a == [] {
      assert a + b == b;
    } else {
      assert (a + b)[1..] == a[1..] + b;
      CameraAppend(ApplyCamera(m, a[0]), a[1..], b, depth);
    }
  }

  lemma ApplyFirst(m: Camera, f: CameraField, fs: seq<CameraField>)
    ensures ApplyCameraFields(m, [f] + fs) == ApplyCameraFields(ApplyCamera(m, f), fs)
  {
    assert ([f] + fs)[1..] == fs;
  }

  lemma {:induction false} ApplyStreams(m: Camera, streams: seq<StreamInfo>)
    ensures ApplyCameraFields(m, Streams(streams)) == m.(streams := m.streams + streams)
    decreases |streams|
  {
    if streams == [] {
      assert m.streams + streams == m.streams;
    } else {
      var m' := ApplyCamera(m, Stream(streams[0]));
      ApplyFirst(m, Stream(streams[0]), Streams(streams[1..]));
      ApplyStreams(m', streams[1..]);
      assert m.streams + [streams[0]] + streams[1..] == m.streams + streams;
    }
  }

  lemma {:induction false} StreamsGood(streams: seq<StreamInfo>, depth: nat)
    ensures AllCameraTextOk(Streams(streams)) <==> forall i | 0 <= i < |streams| :: StreamTextOk(streams[i])
    ensures (forall i | 0 <= i < |streams| :: NestedOk(streams[i], depth)) ==>
      AllCameraWellFormed(Streams(streams), depth)
  {
    if streams != [] {
      assert Streams(streams)[1..] == Streams(streams[1..]);
      StreamsGood(streams[1..], depth);
      assert forall i :: 0 < i < |streams| ==> streams[i] == streams[1..][i - 1];
      assert forall i :: 0 <= i < |streams| - 1 ==> streams[1..][i] == streams[i + 1];
    }
  }

  lemma {:induction false} ApplyExtras(m: Camera, us: seq<Unknown>)
    ensures ApplyCameraFields(m, Extras(us)) == m.(unknown := m.unknown + us)
    decreases |us|
  {
    if us == [] {
      assert m.unknown + us == m.unknown;
    } else {
      var m' := ApplyCamera(m, Extra(us[0]));
      ApplyFirst(m, Extra(us[0]), Extras(us[1..]));
      ApplyExtras(m', us[1..]);
      assert m.unknown + [us[0]] + us[1..] == m.unknown + us;
    }
  }

  lemma {:induction false} ExtrasGood(us: seq<Unknown>, depth: nat)
    requires forall u | u in us :: ValidUnknown(u, depth) && !KnownCameraTag(TagOf(u))
    ensures AllCameraTextOk(Extras(us)) && AllCameraWellFormed(Extras(us), depth)
  {
    if us != [] {
      assert Extras(us)[1..] == Extras(us[1..]);
      ExtrasGood(us[1..], depth);
    }
  }

  // ---------------------------------------------------------------- the main results

  function Single(present: bool, f: CameraField): seq<CameraField> {
    if present then [f] else []
  }

  /** Below 2 GB, unknown fields really unknown, groups nested within the recursion budget. */
  ghost predicate CameraOk(m: Camera, depth: nat) {
    && |m.guid| < TWO_31 && |m.name| < TWO_31
    && (forall i | 0 <= i < |m.streams| :: NestedOk(m.streams[i], depth))
    && (forall u | u in m.unknown :: ValidUnknown(u, depth) && !KnownCameraTag(TagOf(u)))
  }

  predicate CameraTextOk(m: Camera) {
    ValidUtf8(m.guid) && ValidUtf8(m.name) && forall i | 0 <= i < |m.streams| :: StreamTextOk(m.streams[i])
  }

  /** The strings, those of the streams included, encode sequences of Unicode scalar values. */
  ghost predicate CameraIsText(m: Camera) {
    IsText(m.guid) && IsText(m.name) && forall i | 0 <= i < |m.streams| :: StreamIsText(m.streams[i])
  }

  lemma CameraTextIff(m: Camera)
    ensures CameraTextOk(m) <==> CameraIsText(m)
  {
    AcceptsJustTexts(m.guid);
    AcceptsJustTexts(m.name);
    forall i | 0 <= i < |m.streams|
      ensures StreamTextOk(m.streams[i]) <==> StreamIsText(m.streams[i])
    {
      StreamTextIff(m.streams[i]);
    }
  }

  /** Applying the fields that a camera serializes to is merging the camera. */
  lemma CameraFieldsMerge(m: Camera, from: Camera)
    ensures ApplyCameraFields(m, CameraFields(from)) == MergeCamera(m, from)
  {
    var guid, name := Single(from.guid != [], Guid(from.guid)), Single(from.name != [], Name(from.name));
    CameraAppend(m, guid + name + Streams(from.streams), Extras(from.unknown), 0);
    CameraAppend(m, guid + name, Streams(from.streams), 0);
    CameraAppend(m, guid, name, 0);
    var m1 := ApplyCameraFields(m, guid);
    var m2 := ApplyCameraFields(m1, name);
    ApplyStreams(m2, from.streams);
    ApplyExtras(m2.(streams := m2.streams + from.streams), from.unknown);
  }

  lemma CameraFieldsGood(m: Camera, depth: nat)
    requires CameraOk(m, depth)
    ensures AllCameraWellFormed(CameraFields(m), depth)
    ensures AllCameraTextOk(CameraFields(m)) <==> CameraTextOk(m)
  {
    var guid, name := Single(m.guid != [], Guid(m.guid)), Single(m.name != [], Name(m.name));
    CameraAppend(m, guid + name + Streams(m.streams), Extras(m.unknown), depth);
    CameraAppend(m, guid + name, Streams(m.streams), depth);
    CameraAppend(m, guid, name, depth);
    StreamsGood(m.streams, depth);
    ExtrasGood(m.unknown, depth);
    assert ValidUtf8([]);
  }

  lemma ParseSerializedCamera(from: Camera, rest: seq<byte>, m: Camera, depth: nat)
    requires CameraOk(from, depth)
    ensures ParseCamera(SerializeCamera(from) + rest, m, depth)
         == if CameraTextOk(from) then ParseCamera(rest, MergeCamera(m, from), depth) else Failed
  {
    CameraFieldsGood(from, depth);
    ParseCameraFields(CameraFields(from), rest, m, depth);
    CameraFieldsMerge(m, from);
  }

  lemma MergeIntoNothing(m: Camera)
    ensures MergeCamera(NO_CAMERA, m) == m
  {
  }

  lemma ParseNothing(m: Camera, depth: nat)
    ensures ParseCamera([], m, depth) == Parsed(m, true)
  {
  }

  /**
   Round trip: a camera with any number of streams and any unknown fields is read back as it was written,
   exactly when all its strings are UTF-8; otherwise the program writes a file that it cannot read.
   */
  lemma CameraRoundTrip(m: Camera, depth: nat)
    requires CameraOk(m, depth)
    ensures ParseCamera(SerializeCamera(m), NO_CAMERA, depth) == if CameraIsText(m) then Parsed(m, true) else Failed
  {
    CameraTextIff(m);
    ParseSerializedCamera(m, [], NO_CAMERA, depth);
    assert SerializeCamera(m) + [] == SerializeCamera(m);
    MergeIntoNothing(m);
    ParseNothing(m, depth);
  }

  /** A case: the program writes this camera, and cannot read what it wrote. */
  lemma BadTextIsUnreadable()
    ensures ParseCamera(SerializeCamera(Camera([0xFF], [], [], [])), NO_CAMERA, 100) == Failed
  {
    assert !ValidUtf8([0xFF]);
    AcceptsJustTexts([0xFF]);
    CameraRoundTrip(Camera([0xFF], [], [], []), 100);
  }

  /** Parsing the concatenation of two serialized cameras is merging the second into the first. */
  lemma ConcatenationIsMerge(a: Camera, b: Camera, depth: nat)
    requires CameraOk(a, depth) && CameraOk(b, depth) && CameraIsText(a) && CameraIsText(b)
    ensures ParseCamera(SerializeCamera(a) + SerializeCamera(b), NO_CAMERA, depth) == Parsed(MergeCamera(a, b), true)
  {
    CameraTextIff(a);
    CameraTextIff(b);
    ParseSerializedCamera(a, SerializeCamera(b), NO_CAMERA, depth);
    MergeIntoNothing(a);
    ParseSerializedCamera(b, [], a, depth);
    assert SerializeCamera(b) + [] == SerializeCamera(b);
    ParseNothing(MergeCamera(a, b), depth);
  }

  /** Swapping two neighbouring fields of different numbers, one of them known, changes nothing. */
  lemma SwapCameraFields(before: seq<CameraField>, f: CameraField, g: CameraField, after: seq<CameraField>, m: Camera,
      depth: nat)
    requires AllCameraWellFormed(before, depth) && WellFormedCameraField(f, depth) && WellFormedCameraField(g, depth)
    requires CameraTag(f) != CameraTag(g) && !(f.Extra? && g.Extra?)
    ensures ParseCamera(EncodeCameraFields(before + ([f] + ([g] + after))), m, depth)
         == ParseCamera(EncodeCameraFields(before + ([g] + ([f] + after))), m, depth)
  {
    ParseTwoInside(before, f, g, after, m, depth);
    ParseTwoInside(before, g, f, after, m, depth);
    var m' := ApplyCameraFields(m, before);
    assert ApplyCamera(ApplyCamera(m', f), g) == ApplyCamera(ApplyCamera(m', g), f);
  }

  lemma ParseTwoInside(before: seq<CameraField>, x: CameraField, y: CameraField, after: seq<CameraField>, m: Camera,
      depth: nat)
    requires AllCameraWellFormed(before, depth) && WellFormedCameraField(x, depth) && WellFormedCameraField(y, depth)
    ensures ParseCamera(EncodeCameraFields(before + ([x] + ([y] + after))), m, depth)
         == if AllCameraTextOk(before) && CameraFieldTextOk(x) && CameraFieldTextOk(y)
            then ParseCamera(EncodeCameraFields(after),
                             ApplyCamera(ApplyCamera(ApplyCameraFields(m, before), x), y), depth)
            else Failed
  {
    var m', rest := ApplyCameraFields(m, before), EncodeCameraFields(after);
    EncodeCameraAppend(before, [x] + ([y] + after));
    EncodeCameraAppend([x], [y] + after);
    EncodeCameraAppend([y], after);
    ParseCameraFields(before, EncodeCameraFields([x] + ([y] + after)), m, depth);
    EncodeSingle(x);
    EncodeSingle(y);
    ParseCameraStep(x, EncodeCameraField(y) + rest, m', depth);
    ParseCameraStep(y, rest, ApplyCamera(m', x), depth);
  }

  lemma EncodeSingle(f: CameraField)
    ensures EncodeCameraFields([f]) == EncodeCameraField(f)
  {
    assert [f][1..] == [];
  }

  // ---------------------------------------------------------------- size

  predicate CameraSizesFit(m: Camera) {
    && |m.guid| < TWO_31 && |m.name| < TWO_31
    && forall i | 0 <= i < |m.streams| :: NestedSizeFits(m.streams[i])
  }

  predicate NestedSizeFits(x: StreamInfo) {
    StreamSizesFit(x) && StreamSize(x) < TWO_31
  }

  function StreamsSize(streams: seq<StreamInfo>): nat
    requires forall i | 0 <= i < |streams| :: NestedSizeFits(streams[i])
  {
    if streams == [] then 0
    else
      assert NestedSizeFits(streams[0]);
      LengthDelimitedSize(StreamSize(streams[0])) + StreamsSize(streams[1..])
  }

  /** ByteSizeLong: one tag byte per nested message, then their delimited sizes, then the strings. */
  function CameraSize(m: Camera): nat
    requires CameraSizesFit(m)
  {
    |EncodeUnknowns(m.unknown)| + |m.streams| + StreamsSize(m.streams) + TextSize(m.guid) + TextSize(m.name)
  }

  lemma {:induction false} StreamsSizeExact(streams: seq<StreamInfo>)
    requires forall i | 0 <= i < |streams| :: NestedSizeFits(streams[i])
    ensures |EncodeCameraFields(Streams(streams))| == |streams| + StreamsSize(streams)
  {
    if streams != [] {
      StreamFieldLength(streams[0]);
      StreamsSizeExact(streams[1..]);
      assert Streams(streams)[1..] == Streams(streams[1..]);
    }
  }

  lemma StreamFieldLength(x: StreamInfo)
    requires NestedSizeFits(x)
    ensures |EncodeCameraField(Stream(x))| == 1 + LengthDelimitedSize(StreamSize(x))
  {
    StreamSizeExact(x);
    VarintSizeIsLength(StreamSize(x));
  }

  lemma {:induction false} EncodeExtras(us: seq<Unknown>)
    ensures EncodeCameraFields(Extras(us)) == EncodeUnknowns(us)
  {
    if us != [] {
      assert Extras(us)[1..] == Extras(us[1..]);
      EncodeExtras(us[1..]);
    }
  }

  lemma SingleTextLength(text: seq<byte>, f: CameraField)
    requires |text| < TWO_31 && (f == Guid(text) || f == Name(text))
    ensures |EncodeCameraFields(Single(text != [], f))| == TextSize(text)
  {
    VarintSizeIsLength(|text|);
    EncodeSingle(f);
  }

  /** The size computed beforehand is the size of what is written. */
  lemma CameraSizeExact(m: Camera)
    requires CameraSizesFit(m)
    ensures CameraSize(m) == |SerializeCamera(m)|
  {
    var guid, name := Single(m.guid != [], Guid(m.guid)), Single(m.name != [], Name(m.name));
    EncodeCameraAppend(guid + name + Streams(m.streams), Extras(m.unknown));
    EncodeCameraAppend(guid + name, Streams(m.streams));
    EncodeCameraAppend(guid, name);
    SingleTextLength(m.guid, Guid(m.guid));
    SingleTextLength(m.name, Name(m.name));
    StreamsSizeExact(m.streams);
    EncodeExtras(m.unknown);
  }
}
