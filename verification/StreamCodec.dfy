/**
 The message Camera.StreamInfo of include/proto/CameraInfoFile.pb.cc on values: what is serialized, what
 parsing a byte sequence into a message does, the size computation and the merge. CameraMessages.dfy holds
 the objects with the generated loops.
 */
module StreamCodec {
  import opened Common
  import opened Utf8
  import opened Wire

  /** Strings are byte sequences; `unknown` is the unknown field set. */
  datatype StreamInfo = StreamInfo(
    url: seq<byte>, ip: seq<byte>, port: uint32, userId: seq<byte>, userPw: seq<byte>, tcp: bool,
    accumulateTime: uint32, fps: uint32, used: bool, unknown: seq<Unknown>)

  const NO_STREAM := StreamInfo([], [], 0, [], [], false, 0, 0, false, [])

  /** `atEnd` tells whether the loop stopped at the end of its input, and not at a tag that is no tag. */
  datatype Parsed<+M> = Failed | Parsed(message: M, atEnd: bool)

  // ---------------------------------------------------------------- fields on the wire

  /** One field as it stands on the wire. */
  datatype StreamField =
    | Url(text: seq<byte>) | Ip(text: seq<byte>) | Port(number: uint32)
    | UserId(text: seq<byte>) | UserPw(text: seq<byte>) | Tcp(flag: bool)
    | AccumulateTime(number: uint32) | Fps(number: uint32) | Used(flag: bool)
    | Other(field: Unknown)

  function StreamTag(f: StreamField): nat {
    match f
    case Url(_) => 10 case Ip(_) => 18 case Port(_) => 24
    case UserId(_) => 34 case UserPw(_) => 42 case Tcp(_) => 48
    case AccumulateTime(_) => 56 case Fps(_) => 64 case Used(_) => 72
    case Other(u) => TagOf(u)
  }

  function EncodeBool(b: bool): seq<byte> {
    EncodeVarint(if b then 1 else 0)
  }

  function StreamPayload(f: StreamField): seq<byte> {
    if f.Other? then Payload(f.field)
    else if f.Port? || f.AccumulateTime? || f.Fps? then EncodeVarint(f.number)
    else if f.Tcp? || f.Used? then EncodeBool(f.flag)
    else EncodeBytes(f.text)
  }

  function EncodeStreamField(f: StreamField): seq<byte> {
    EncodeVarint(StreamTag(f)) + StreamPayload(f)
  }

  function EncodeStreamFields(fs: seq<StreamField>): seq<byte> {
    if fs == [] then [] else EncodeStreamField(fs[0]) + EncodeStreamFields(fs[1..])
  }

  function Others(us: seq<Unknown>): seq<StreamField> {
    if us == [] then [] else [Other(us[0])] + Others(us[1..])
  }

  function Present(present: bool, f: StreamField): seq<StreamField> {
    if present then [f] else []
  }

  /** SerializeWithCachedSizes: known fields in order, default values left out, then the unknown ones. */
  function StreamFields(m: StreamInfo): seq<StreamField> {
    KnownFields(m) + Others(m.unknown)
  }

  function KnownFields(m: StreamInfo): seq<StreamField> {
    Fields1To3(m) + Fields4To6(m) + Fields7To9(m)
  }

  function Fields1To3(m: StreamInfo): seq<StreamField> {
    Present(m.url != [], Url(m.url)) + Present(m.ip != [], Ip(m.ip)) + Present(m.port != 0, Port(m.port))
  }

  function Fields4To6(m: StreamInfo): seq<StreamField> {
    Present(m.userId != [], UserId(m.userId)) + Present(m.userPw != [], UserPw(m.userPw)) + Present(m.tcp, Tcp(m.tcp))
  }

  function Fields7To9(m: StreamInfo): seq<StreamField> {
    Present(m.accumulateTime != 0, AccumulateTime(m.accumulateTime))
    + Present(m.fps != 0, Fps(m.fps)) + Present(m.used, Used(m.used))
  }

  ghost predicate Ascending(fs: seq<StreamField>) {
    forall i, j | 0 <= i < j < |fs| :: StreamTag(fs[i]) < StreamTag(fs[j])
  }

  lemma ThreeAscend(c1: bool, f1: StreamField, c2: bool, f2: StreamField, c3: bool, f3: StreamField)
    requires StreamTag(f1) < StreamTag(f2) < StreamTag(f3)
    ensures Between(Present(c1, f1) + Present(c2, f2) + Present(c3, f3), StreamTag(f1), StreamTag(f3))
  {
  }

  lemma BothAscend(a: seq<StreamField>, low: nat, high: nat, b: seq<StreamField>, low': nat, high': nat)
    requires Between(a, low, high) && Between(b, low', high') && low <= high < low' <= high'
    ensures Between(a + b, low, high')
  {
  }

  ghost predicate Between(fs: seq<StreamField>, low: nat, high: nat) {
    Ascending(fs) && forall f | f in fs :: low <= StreamTag(f) <= high
  }

  lemma Ascend1To3(m: StreamInfo)
    ensures Between(Fields1To3(m), 10, 24)
  {
    ThreeAscend(m.url != [], Url(m.url), m.ip != [], Ip(m.ip), m.port != 0, Port(m.port));
  }

  lemma Ascend4To6(m: StreamInfo)
    ensures Between(Fields4To6(m), 34, 48)
  {
    ThreeAscend(m.userId != [], UserId(m.userId), m.userPw != [], UserPw(m.userPw), m.tcp, Tcp(m.tcp));
  }

  lemma Ascend7To9(m: StreamInfo)
    ensures Between(Fields7To9(m), 56, 72)
  {
    ThreeAscend(m.accumulateTime != 0, AccumulateTime(m.accumulateTime), m.fps != 0, Fps(m.fps), m.used, Used(m.used));
  }

  /** The known fields are serialized in the order of their numbers, each at most once. */
  lemma KnownFieldsAscend(m: StreamInfo)
    ensures Ascending(KnownFields(m))
  {
    Ascend1To3(m);
    Ascend4To6(m);
    Ascend7To9(m);
    BothAscend(Fields1To3(m), 10, 24, Fields4To6(m), 34, 48);
    BothAscend(Fields1To3(m) + Fields4To6(m), 10, 48, Fields7To9(m), 56, 72);
  }

  function SerializeStream(m: StreamInfo): seq<byte> {
    EncodeStreamFields(StreamFields(m))
  }

  function ReadText(s: seq<byte>): (r: Read<seq<byte>>)
    ensures r.Got? ==> |r.rest| < |s|
  {
    match ReadBytes(s)
    case Bad => Bad
    case Got(text, rest) => if ValidUtf8(text) then Got(text, rest) else Bad
  }

  function ReadBool(s: seq<byte>): (r: Read<bool>)
    ensures r.Got? ==> |r.rest| < |s|
  {
    match ReadVarint64(s)
    case Bad => Bad
    case Got(v, rest) => Got(v != 0, rest)
  }

  /** The dispatch on the tag in MergePartialFromCodedStream. */
  function ReadStreamField(tag: nat, s: seq<byte>, depth: nat): (r: Read<StreamField>)
    ensures r.Got? ==> |r.rest| <= |s|
  {
    if tag == 10 then match ReadText(s) case Bad => Bad case Got(x, rest) => Got(Url(x), rest)
    else if tag == 18 then match ReadText(s) case Bad => Bad case Got(x, rest) => Got(Ip(x), rest)
    else if tag == 24 then match ReadVarint32(s) case Bad => Bad case Got(x, rest) => Got(Port(x), rest)
    else if tag == 34 then match ReadText(s) case Bad => Bad case Got(x, rest) => Got(UserId(x), rest)
    else if tag == 42 then match ReadText(s) case Bad => Bad case Got(x, rest) => Got(UserPw(x), rest)
    else if tag == 48 then match ReadBool(s) case Bad => Bad case Got(x, rest) => Got(Tcp(x), rest)
    else if tag == 56 then match ReadVarint32(s) case Bad => Bad case Got(x, rest) => Got(AccumulateTime(x), rest)
    else if tag == 64 then match ReadVarint32(s) case Bad => Bad case Got(x, rest) => Got(Fps(x), rest)
    else if tag == 72 then match ReadBool(s) case Bad => Bad case Got(x, rest) => Got(Used(x), rest)
    else match SkipField(tag, s, depth) case Bad => Bad case Got(x, rest) => Got(Other(x), rest)
  }

  function ApplyStream(m: StreamInfo, f: StreamField): StreamInfo {
    match f
    case Url(x) => m.(url := x) case Ip(x) => m.(ip := x) case Port(x) => m.(port := x)
    case UserId(x) => m.(userId := x) case UserPw(x) => m.(userPw := x) case Tcp(x) => m.(tcp := x)
    case AccumulateTime(x) => m.(accumulateTime := x) case Fps(x) => m.(fps := x) case Used(x) => m.(used := x)
    case Other(u) => m.(unknown := m.unknown + [u])
  }

  function ParseStream(s: seq<byte>, m: StreamInfo, depth: nat): Parsed<StreamInfo>
    decreases |s|
  {
    match ReadTag(s)
    case NoTag(atEnd) => Parsed(m, atEnd)
    case ATag(tag, rest) =>
      match ReadStreamField(tag, rest, depth)
      case Bad => Failed
      case Got(f, rest') => ParseStream(rest', ApplyStream(m, f), depth)
  }

  /** Assignment of each field that `from` does not leave at its default; unknown fields are appended. */
  function MergeStream(m: StreamInfo, from: StreamInfo): StreamInfo {
    StreamInfo(
      if from.url != [] then from.url else m.url,
      if from.ip != [] then from.ip else m.ip,
      if from.port != 0 then from.port else m.port,
      if from.userId != [] then from.userId else m.userId,
      if from.userPw != [] then from.userPw else m.userPw,
      from.tcp || m.tcp,
      if from.accumulateTime != 0 then from.accumulateTime else m.accumulateTime,
      if from.fps != 0 then from.fps else m.fps,
      from.used || m.used,
      m.unknown + from.unknown)
  }

  function ApplyStreamFields(m: StreamInfo, fs: seq<StreamField>): StreamInfo
    decreases |fs|
  {
    if fs == [] then m else ApplyStreamFields(ApplyStream(m, fs[0]), fs[1..])
  }

  // ---------------------------------------------------------------- what serialization guarantees

  predicate KnownStreamTag(tag: nat) {
    tag in {10, 18, 24, 34, 42, 48, 56, 64, 72}
  }

  predicate HasText(f: StreamField) {
    f.Url? || f.Ip? || f.UserId? || f.UserPw?
  }

  /** A field that can stand in a message below 2 GB; an unknown one must not be one of the known. */
  ghost predicate WellFormedField(f: StreamField, depth: nat) {
    && (HasText(f) ==> |f.text| < TWO_31)
    && (f.Other? ==> ValidUnknown(f.field, depth) && !KnownStreamTag(TagOf(f.field)))
  }

  predicate TextOk(f: StreamField) {
    HasText(f) ==> ValidUtf8(f.text)
  }

  ghost predicate AllWellFormed(fs: seq<StreamField>, depth: nat)
    decreases |fs|
  {
    fs == [] || (WellFormedField(fs[0], depth) && AllWellFormed(fs[1..], depth))
  }

  predicate AllTextOk(fs: seq<StreamField>)
    decreases |fs|
  {
    fs == [] || (TextOk(fs[0]) && AllTextOk(fs[1..]))
  }

  lemma {:induction false} AllAppend(a: seq<StreamField>, b: seq<StreamField>, depth: nat)
    ensures AllTextOk(a + b) <==> AllTextOk(a) && AllTextOk(b)
    ensures AllWellFormed(a + b, depth) <==> AllWellFormed(a, depth) && AllWellFormed(b, depth)
    decreases |a|
  {
    if a == [] {
      assert a + b == b;
    } else {
      assert (a + b)[1..] == a[1..] + b;
      AllAppend(a[1..], b, depth);
    }
  }

  lemma ReadEncodedText(text: seq<byte>, rest: seq<byte>)
    requires |text| < TWO_31
    ensures ReadText(EncodeBytes(text) + rest) == if ValidUtf8(text) then Got(text, rest) else Bad
  {
    ReadEncodedBytes(text, rest);
  }

  lemma ReadEncodedBool(b: bool, rest: seq<byte>)
    ensures ReadBool(EncodeBool(b) + rest) == Got(b, rest)
  {
    ReadEncoded(if b then 1 else 0, rest);
  }

  lemma ReadStreamFieldBack(f: StreamField, rest: seq<byte>, depth: nat)
    requires WellFormedField(f, depth)
    ensures ReadStreamField(StreamTag(f), StreamPayload(f) + rest, depth) == if TextOk(f) then Got(f, rest) else Bad
  {
    if f.Other? {
      ReadOtherBack(f, rest, depth);
    } else if HasText(f) {
      ReadTextFieldBack(f, rest, depth);
    } else if f.Tcp? || f.Used? {
      ReadFlagBack(f, rest, depth);
    } else {
      ReadNumberBack(f, rest, depth);
    }
  }

  lemma ReadOtherBack(f: StreamField, rest: seq<byte>, depth: nat)
    requires f.Other? && WellFormedField(f, depth)
    ensures ReadStreamField(StreamTag(f), StreamPayload(f) + rest, depth) == Got(f, rest)
  {
    SkipEncoded(f.field, rest, depth);
    assert TagOf(f.field) !in {10, 18, 24, 34, 42, 48, 56, 64, 72};
  }

  lemma ReadFlagBack(f: StreamField, rest: seq<byte>, depth: nat)
    requires f.Tcp? || f.Used?
    ensures ReadStreamField(StreamTag(f), StreamPayload(f) + rest, depth) == Got(f, rest)
  {
    ReadEncodedBool(f.flag, rest);
  }

  lemma ReadNumberBack(f: StreamField, rest: seq<byte>, depth: nat)
    requires f.Port? || f.AccumulateTime? || f.Fps?
    ensures ReadStreamField(StreamTag(f), StreamPayload(f) + rest, depth) == Got(f, rest)
  {
    ReadEncodedSmall(f.number, rest);
  }

  lemma ReadTextFieldBack(f: StreamField, rest: seq<byte>, depth: nat)
    requires HasText(f) && |f.text| < TWO_31
    ensures ReadStreamField(StreamTag(f), StreamPayload(f) + rest, depth) == if TextOk(f) then Got(f, rest) else Bad
  {
    ReadEncodedText(f.text, rest);
  }

  /** Parsing one encoded field applies it, or fails on invalid text. */
  lemma ParseStreamStep(f: StreamField, rest: seq<byte>, m: StreamInfo, depth: nat)
    requires WellFormedField(f, depth)
    ensures ParseStream(EncodeStreamField(f) + rest, m, depth)
         == if TextOk(f) then ParseStream(rest, ApplyStream(m, f), depth) else Failed
  {
    var tail := StreamPayload(f) + rest;
    ReadEncodedTag(StreamTag(f), tail);
    ReadStreamFieldBack(f, rest, depth);
    ParseStreamOnce(EncodeVarint(StreamTag(f)) + tail, tail, m, depth);
    Regroup(EncodeVarint(StreamTag(f)), StreamPayload(f), rest);
  }

  ghost function Continue(r: Read<StreamField>, m: StreamInfo, depth: nat): Parsed<StreamInfo> {
    match r case Bad => Failed case Got(f, rest) => ParseStream(rest, ApplyStream(m, f), depth)
  }

  lemma ParseStreamOnce(s: seq<byte>, s': seq<byte>, m: StreamInfo, depth: nat)
    requires ReadTag(s).ATag? && ReadTag(s).rest == s'
    ensures ParseStream(s, m, depth) == Continue(ReadStreamField(ReadTag(s).tag, s', depth), m, depth)
  {
  }

  lemma {:induction false} ParseStreamFields(fs: seq<StreamField>, rest: seq<byte>, m: StreamInfo, depth: nat)
    requires AllWellFormed(fs, depth)
    ensures ParseStream(EncodeStreamFields(fs) + rest, m, depth)
         == if AllTextOk(fs) then ParseStream(rest, ApplyStreamFields(m, fs), depth) else Failed
    decreases |fs|
  {
    if fs == [] {
      assert [] + rest == rest;
    } else {
      var tail := EncodeStreamFields(fs[1..]);
      assert EncodeStreamFields(fs) + rest == EncodeStreamField(fs[0]) + (tail + rest);
      ParseStreamStep(fs[0], tail + rest, m, depth);
      ParseStreamFields(fs[1..], rest, ApplyStream(m, fs[0]), depth);
    }
  }

  lemma {:induction false} EncodeAppend(a: seq<StreamField>, b: seq<StreamField>)
    ensures EncodeStreamFields(a + b) == EncodeStreamFields(a) + EncodeStreamFields(b)
  {
    if a == [] {
      assert a + b == b;
    } else {
      assert (a + b)[1..] == a[1..] + b;
      EncodeAppend(a[1..], b);
    }
  }

  lemma {:induction false} ApplyAppend(m: StreamInfo, a: seq<StreamField>, b: seq<StreamField>)
    ensures ApplyStreamFields(m, a + b) == ApplyStreamFields(ApplyStreamFields(m, a), b)
    decreases |a|
  {
    if a == [] {
      assert a + b == b;
    } else {
      assert (a + b)[1..] == a[1..] + b;
      ApplyAppend(ApplyStream(m, a[0]), a[1..], b);
    }
  }

  function IfPresent(m: StreamInfo, present: bool, f: StreamField): StreamInfo {
    if present then ApplyStream(m, f) else m
  }

  lemma ApplyThree(m: StreamInfo, c1: bool, f1: StreamField, c2: bool, f2: StreamField, c3: bool, f3: StreamField)
    ensures ApplyStreamFields(m, Present(c1, f1) + Present(c2, f2) + Present(c3, f3))
         == IfPresent(IfPresent(IfPresent(m, c1, f1), c2, f2), c3, f3)
  {
    ApplyAppend(m, Present(c1, f1) + Present(c2, f2), Present(c3, f3));
    ApplyAppend(m, Present(c1, f1), Present(c2, f2));
    ApplyOne(m, c1, f1);
    ApplyOne(IfPresent(m, c1, f1), c2, f2);
    ApplyOne(IfPresent(IfPresent(m, c1, f1), c2, f2), c3, f3);
  }

  lemma ApplyOne(m: StreamInfo, c: bool, f: StreamField)
    ensures ApplyStreamFields(m, Present(c, f)) == IfPresent(m, c, f)
  {
  }

  lemma {:induction false} ApplyOthers(m: StreamInfo, us: seq<Unknown>)
    ensures ApplyStreamFields(m, Others(us)) == m.(unknown := m.unknown + us)
    decreases |us|
  {
    if us == [] {
      assert m.unknown + us == m.unknown;
    } else {
      var m' := ApplyStream(m, Other(us[0]));
      assert Others(us) == [Other(us[0])] + Others(us[1..]);
      assert Others(us)[1..] == Others(us[1..]);
      assert ApplyStreamFields(m, Others(us)) == ApplyStreamFields(m', Others(us[1..]));
      ApplyOthers(m', us[1..]);
      assert m.unknown + [us[0]] + us[1..] == m.unknown + us;
    }
  }

  lemma Merge1To3(m: StreamInfo, from: StreamInfo)
    ensures ApplyStreamFields(m, Fields1To3(from))
         == m.(url := if from.url != [] then from.url else m.url,
               ip := if from.ip != [] then from.ip else m.ip,
               port := if from.port != 0 then from.port else m.port)
  {
    ApplyThree(m, from.url != [], Url(from.url), from.ip != [], Ip(from.ip), from.port != 0, Port(from.port));
  }

  lemma Merge4To6(m: StreamInfo, from: StreamInfo)
    ensures ApplyStreamFields(m, Fields4To6(from))
         == m.(userId := if from.userId != [] then from.userId else m.userId,
               userPw := if from.userPw != [] then from.userPw else m.userPw,
               tcp := from.tcp || m.tcp)
  {
    ApplyThree(m, from.userId != [], UserId(from.userId), from.userPw != [], UserPw(from.userPw), from.tcp,
      Tcp(from.tcp));
  }

  lemma Merge7To9(m: StreamInfo, from: StreamInfo)
    ensures ApplyStreamFields(m, Fields7To9(from))
         == m.(accumulateTime := if from.accumulateTime != 0 then from.accumulateTime else m.accumulateTime,
               fps := if from.fps != 0 then from.fps else m.fps,
               used := from.used || m.used)
  {
    ApplyThree(m, from.accumulateTime != 0, AccumulateTime(from.accumulateTime), from.fps != 0, Fps(from.fps),
      from.used, Used(from.used));
  }

  /** Applying the fields that a message serializes to is merging the message. */
  lemma FieldsMerge(m: StreamInfo, from: StreamInfo)
    ensures ApplyStreamFields(m, StreamFields(from)) == MergeStream(m, from)
  {
    ApplyAppend(m, KnownFields(from), Others(from.unknown));
    ApplyAppend(m, Fields1To3(from) + Fields4To6(from), Fields7To9(from));
    ApplyAppend(m, Fields1To3(from), Fields4To6(from));
    Merge1To3(m, from);
    var m3 := ApplyStreamFields(m, Fields1To3(from));
    Merge4To6(m3, from);
    var m6 := ApplyStreamFields(m3, Fields4To6(from));
    Merge7To9(m6, from);
    ApplyOthers(ApplyStreamFields(m6, Fields7To9(from)), from.unknown);
  }

  /** Messages that the generated code accepts to serialize: below 2 GB, unknown fields really unknown. */
  ghost predicate StreamOk(m: StreamInfo, depth: nat) {
    && |m.url| < TWO_31 && |m.ip| < TWO_31 && |m.userId| < TWO_31 && |m.userPw| < TWO_31
    && forall u | u in m.unknown :: ValidUnknown(u, depth) && !KnownStreamTag(TagOf(u))
  }

  predicate StreamTextOk(m: StreamInfo) {
    ValidUtf8(m.url) && ValidUtf8(m.ip) && ValidUtf8(m.userId) && ValidUtf8(m.userPw)
  }

  lemma {:induction false} OthersGood(us: seq<Unknown>, depth: nat)
    requires forall u | u in us :: ValidUnknown(u, depth) && !KnownStreamTag(TagOf(u))
    ensures AllTextOk(Others(us)) && AllWellFormed(Others(us), depth)
  {
    if us != [] {
      assert Others(us)[1..] == Others(us[1..]);
      OthersGood(us[1..], depth);
    }
  }

  lemma ThreeGood(c1: bool, f1: StreamField, c2: bool, f2: StreamField, c3: bool, f3: StreamField, depth: nat)
    ensures var fs := Present(c1, f1) + Present(c2, f2) + Present(c3, f3);
            && (AllTextOk(fs) <==> (c1 ==> TextOk(f1)) && (c2 ==> TextOk(f2)) && (c3 ==> TextOk(f3)))
            && (AllWellFormed(fs, depth) <==>
                  (c1 ==> WellFormedField(f1, depth)) && (c2 ==> WellFormedField(f2, depth))
                    && (c3 ==> WellFormedField(f3, depth)))
  {
    AllAppend(Present(c1, f1) + Present(c2, f2), Present(c3, f3), depth);
    AllAppend(Present(c1, f1), Present(c2, f2), depth);
  }

  lemma Good1To3(m: StreamInfo, depth: nat)
    requires StreamOk(m, depth)
    ensures AllWellFormed(Fields1To3(m), depth)
    ensures AllTextOk(Fields1To3(m)) <==> ValidUtf8(m.url) && ValidUtf8(m.ip)
  {
    ThreeGood(m.url != [], Url(m.url), m.ip != [], Ip(m.ip), m.port != 0, Port(m.port), depth);
    assert ValidUtf8([]);
  }

  lemma Good4To6(m: StreamInfo, depth: nat)
    requires StreamOk(m, depth)
    ensures AllWellFormed(Fields4To6(m), depth)
    ensures AllTextOk(Fields4To6(m)) <==> ValidUtf8(m.userId) && ValidUtf8(m.userPw)
  {
    ThreeGood(m.userId != [], UserId(m.userId), m.userPw != [], UserPw(m.userPw), m.tcp, Tcp(m.tcp), depth);
    assert ValidUtf8([]);
  }

  lemma Good7To9(m: StreamInfo, depth: nat)
    ensures AllWellFormed(Fields7To9(m), depth) && AllTextOk(Fields7To9(m))
  {
    ThreeGood(m.accumulateTime != 0, AccumulateTime(m.accumulateTime), m.fps != 0, Fps(m.fps), m.used, Used(m.used),
      depth);
  }

  lemma FieldsGood(m: StreamInfo, depth: nat)
    requires StreamOk(m, depth)
    ensures AllWellFormed(StreamFields(m), depth)
    ensures AllTextOk(StreamFields(m)) <==> StreamTextOk(m)
  {
    AllAppend(KnownFields(m), Others(m.unknown), depth);
    AllAppend(Fields1To3(m) + Fields4To6(m), Fields7To9(m), depth);
    AllAppend(Fields1To3(m), Fields4To6(m), depth);
    Good1To3(m, depth);
    Good4To6(m, depth);
    Good7To9(m, depth);
    OthersGood(m.unknown, depth);
  }

  /**
   Parsing a serialized message, and more input after it, merges that message; if one of its strings is not
   UTF-8 (the serializer only logs that) parsing fails.
   */
  lemma ParseSerializedStream(from: StreamInfo, rest: seq<byte>, m: StreamInfo, depth: nat)
    requires StreamOk(from, depth)
    ensures ParseStream(SerializeStream(from) + rest, m, depth)
         == if StreamTextOk(from) then ParseStream(rest, MergeStream(m, from), depth) else Failed
  {
    FieldsGood(from, depth);
    ParseStreamFields(StreamFields(from), rest, m, depth);
    FieldsMerge(m, from);
  }

  lemma MergeIntoEmpty(m: StreamInfo)
    ensures MergeStream(NO_STREAM, m) == m
  {
  }

  /** The strings encode sequences of Unicode scalar values. */
  ghost predicate StreamIsText(m: StreamInfo) {
    IsText(m.url) && IsText(m.ip) && IsText(m.userId) && IsText(m.userPw)
  }

  lemma StreamTextIff(m: StreamInfo)
    ensures StreamTextOk(m) <==> StreamIsText(m)
  {
    AcceptsJustTexts(m.url);
    AcceptsJustTexts(m.ip);
    AcceptsJustTexts(m.userId);
    AcceptsJustTexts(m.userPw);
  }

  /** Round trip: it succeeds exactly for messages whose strings are UTF-8. */
  lemma StreamRoundTrip(m: StreamInfo, depth: nat)
    requires StreamOk(m, depth)
    ensures ParseStream(SerializeStream(m), NO_STREAM, depth) == if StreamIsText(m) then Parsed(m, true) else Failed
  {
    StreamTextIff(m);
    ParseSerializedStream(m, [], NO_STREAM, depth);
    assert SerializeStream(m) + [] == SerializeStream(m);
    MergeIntoEmpty(m);
  }

  lemma ParseTwoInside(before: seq<StreamField>, x: StreamField, y: StreamField, after: seq<StreamField>,
      m: StreamInfo, depth: nat)
    requires AllWellFormed(before, depth) && WellFormedField(x, depth) && WellFormedField(y, depth)
    ensures ParseStream(EncodeStreamFields(before + ([x] + ([y] + after))), m, depth)
         == if AllTextOk(before) && TextOk(x) && TextOk(y)
            then ParseStream(EncodeStreamFields(after),
                             ApplyStream(ApplyStream(ApplyStreamFields(m, before), x), y), depth)
            else Failed
  {
    var m', rest := ApplyStreamFields(m, before), EncodeStreamFields(after);
    EncodeAppend(before, [x] + ([y] + after));
    EncodeAppend([x], [y] + after);
    EncodeAppend([y], after);
    ParseStreamFields(before, EncodeStreamFields([x] + ([y] + after)), m, depth);
    EncodeSingle(x);
    EncodeSingle(y);
    ParseStreamStep(x, EncodeStreamField(y) + rest, m', depth);
    ParseStreamStep(y, rest, ApplyStream(m', x), depth);
  }

  lemma EncodeSingle(f: StreamField)
    ensures EncodeStreamFields([f]) == EncodeStreamField(f)
  {
    assert [f][1..] == [];
  }

  /** Swapping two neighbouring fields of different numbers, one of them known, changes nothing. */
  lemma SwapStreamFields(before: seq<StreamField>, f: StreamField, g: StreamField, after: seq<StreamField>,
      m: StreamInfo, depth: nat)
    requires AllWellFormed(before, depth) && WellFormedField(f, depth) && WellFormedField(g, depth)
    requires StreamTag(f) != StreamTag(g) && !(f.Other? && g.Other?)
    ensures ParseStream(EncodeStreamFields(before + ([f] + ([g] + after))), m, depth)
         == ParseStream(EncodeStreamFields(before + ([g] + ([f] + after))), m, depth)
  {
    ParseTwoInside(before, f, g, after, m, depth);
    ParseTwoInside(before, g, f, after, m, depth);
    StreamFieldsCommute(ApplyStreamFields(m, before), f, g);
  }

  lemma StreamFieldsCommute(m: StreamInfo, f: StreamField, g: StreamField)
    requires StreamTag(f) != StreamTag(g) && !(f.Other? && g.Other?)
    ensures ApplyStream(ApplyStream(m, f), g) == ApplyStream(ApplyStream(m, g), f)
  {
  }

  // ---------------------------------------------------------------- size

  /** A length prefix and that many bytes. */
  function LengthDelimitedSize(n: uint32): nat {
    n + VarintSize32(n)
  }

  function TextSize(text: seq<byte>): nat
    requires |text| < TWO_31
  {
    if text != [] then 1 + LengthDelimitedSize(|text|) else 0
  }

  function NumberSize(n: uint32): nat {
    if n != 0 then 1 + VarintSize32(n) else 0
  }

  function FlagSize(b: bool): nat {
    if b then 1 + 1 else 0
  }

  predicate StreamSizesFit(m: StreamInfo) {
    |m.url| < TWO_31 && |m.ip| < TWO_31 && |m.userId| < TWO_31 && |m.userPw| < TWO_31
  }

  /** ByteSizeLong, in the order in which it adds; the size of the unknown fields is that of their encoding. */
  function StreamSize(m: StreamInfo): nat
    requires StreamSizesFit(m)
  {
    |EncodeUnknowns(m.unknown)|
    + TextSize(m.url) + TextSize(m.ip) + TextSize(m.userId) + TextSize(m.userPw)
    + NumberSize(m.port) + NumberSize(m.accumulateTime)
    + FlagSize(m.tcp) + FlagSize(m.used) + NumberSize(m.fps)
  }

  lemma {:induction false} EncodeOthers(us: seq<Unknown>)
    ensures EncodeStreamFields(Others(us)) == EncodeUnknowns(us)
  {
    if us != [] {
      assert Others(us)[1..] == Others(us[1..]);
      EncodeOthers(us[1..]);
    }
  }

  lemma FieldLength(f: StreamField)
    requires !f.Other? && (HasText(f) ==> |f.text| < TWO_31)
    ensures |EncodeStreamField(f)| == 1 +
              if HasText(f) then LengthDelimitedSize(|f.text|)
              else if f.Tcp? || f.Used? then 1
              else VarintSize32(f.number)
  {
    if HasText(f) {
      VarintSizeIsLength(|f.text|);
    } else if !f.Tcp? && !f.Used? {
      VarintSizeIsLength(f.number);
    }
  }

  lemma PresentLength(c: bool, f: StreamField)
    ensures |EncodeStreamFields(Present(c, f))| == if c then |EncodeStreamField(f)| else 0
  {
  }

  lemma ThreeLength(c1: bool, f1: StreamField, c2: bool, f2: StreamField, c3: bool, f3: StreamField)
    ensures |EncodeStreamFields(Present(c1, f1) + Present(c2, f2) + Present(c3, f3))|
         == (if c1 then |EncodeStreamField(f1)| else 0) + (if c2 then |EncodeStreamField(f2)| else 0)
          + (if c3 then |EncodeStreamField(f3)| else 0)
  {
    EncodeAppend(Present(c1, f1) + Present(c2, f2), Present(c3, f3));
    EncodeAppend(Present(c1, f1), Present(c2, f2));
    PresentLength(c1, f1);
    PresentLength(c2, f2);
    PresentLength(c3, f3);
  }

  lemma Length1To3(m: StreamInfo)
    requires StreamSizesFit(m)
    ensures |EncodeStreamFields(Fields1To3(m))| == TextSize(m.url) + TextSize(m.ip) + NumberSize(m.port)
  {
    ThreeLength(m.url != [], Url(m.url), m.ip != [], Ip(m.ip), m.port != 0, Port(m.port));
    FieldLength(Url(m.url));
    FieldLength(Ip(m.ip));
    FieldLength(Port(m.port));
  }

  lemma Length4To6(m: StreamInfo)
    requires StreamSizesFit(m)
    ensures |EncodeStreamFields(Fields4To6(m))| == TextSize(m.userId) + TextSize(m.userPw) + FlagSize(m.tcp)
  {
    ThreeLength(m.userId != [], UserId(m.userId), m.userPw != [], UserPw(m.userPw), m.tcp, Tcp(m.tcp));
    FieldLength(UserId(m.userId));
    FieldLength(UserPw(m.userPw));
    FieldLength(Tcp(m.tcp));
  }

  lemma Length7To9(m: StreamInfo)
    ensures |EncodeStreamFields(Fields7To9(m))| == NumberSize(m.accumulateTime) + NumberSize(m.fps) + FlagSize(m.used)
  {
    ThreeLength(m.accumulateTime != 0, AccumulateTime(m.accumulateTime), m.fps != 0, Fps(m.fps), m.used, Used(m.used));
    FieldLength(AccumulateTime(m.accumulateTime));
    FieldLength(Fps(m.fps));
    FieldLength(Used(m.used));
  }

  /** The size computed beforehand is the size of what is written. */
  lemma StreamSizeExact(m: StreamInfo)
    requires StreamSizesFit(m)
    ensures StreamSize(m) == |SerializeStream(m)|
  {
    EncodeAppend(KnownFields(m), Others(m.unknown));
    EncodeAppend(Fields1To3(m) + Fields4To6(m), Fields7To9(m));
    EncodeAppend(Fields1To3(m), Fields4To6(m));
    Length1To3(m);
    Length4To6(m);
    Length7To9(m);
    EncodeOthers(m.unknown);
  }
}
