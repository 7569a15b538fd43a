/**
 H.264 access-unit assembly of src/live555/rtsp_H264Sink.cpp: NAL units from RTP packets are collected, each
 behind a start code, and delivered as one Annex B byte stream when the packet with the marker bit arrives.
 */
module AnnexB {
  import opened Common
  import StringUtil

  const START_CODE: seq<byte> := [0, 0, 0, 1]
  const HEADER_CAPACITY := 1024
  const PACKET_CAPACITY := 425984
  const RECEIVED_CAPACITY := PACKET_CAPACITY + 32

  const SEQUENCE_PARAMETER_SET := 7
  const PICTURE_PARAMETER_SET := 8
  const IDR_SLICE := 5

  // ---------------------------------------------------------------- bounded appending

  /** A piece that does not fit is left out whole. */
  function Appended(contents: seq<byte>, piece: seq<byte>, capacity: nat): seq<byte> {
    if |contents| + |piece| > capacity then contents else contents + piece
  }

  function AppendAll(contents: seq<byte>, pieces: seq<seq<byte>>, capacity: nat): seq<byte>
    decreases |pieces|
  {
    if pieces == [] then contents else AppendAll(Appended(contents, pieces[0], capacity), pieces[1..], capacity)
  }

  function Concat(pieces: seq<seq<byte>>): seq<byte> {
    if pieces == [] then [] else pieces[0] + Concat(pieces[1..])
  }

  /** The pieces for which there was still room, when `used` bytes were taken before. */
  function Kept(used: nat, pieces: seq<seq<byte>>, capacity: nat): seq<seq<byte>>
    decreases |pieces|
  {
    if pieces == [] then []
    else if used + |pieces[0]| > capacity then Kept(used, pieces[1..], capacity)
    else [pieces[0]] + Kept(used + |pieces[0]|, pieces[1..], capacity)
  }

  /** `a` is `b` with some elements left out. */
  ghost predicate Subsequence<T>(a: seq<T>, b: seq<T>)
    decreases |b|
  {
    a == [] || (b != [] && ((a[0] == b[0] && Subsequence(a[1..], b[1..])) || Subsequence(a, b[1..])))
  }

  lemma ConcatFirst(first: seq<byte>, rest: seq<seq<byte>>)
    ensures Concat([first] + rest) == first + Concat(rest)
  {
    assert ([first] + rest)[1..] == rest;
  }

  lemma {:induction false} ConcatAppend(a: seq<seq<byte>>, b: seq<seq<byte>>)
    ensures Concat(a + b) == Concat(a) + Concat(b)
  {
    if a == [] {
      assert a + b == b;
    } else {
      assert (a + b)[1..] == a[1..] + b;
      ConcatAppend(a[1..], b);
    }
  }

  lemma {:induction false} AppendAllAppend(contents: seq<byte>, a: seq<seq<byte>>, b: seq<seq<byte>>, capacity: nat)
    ensures AppendAll(contents, a + b, capacity) == AppendAll(AppendAll(contents, a, capacity), b, capacity)
    decreases |a|
  {
    if a == [] {
      assert a + b == b;
    } else {
      assert (a + b)[1..] == a[1..] + b;
      AppendAllAppend(Appended(contents, a[0], capacity), a[1..], b, capacity);
    }
  }

  /** Also on overflow: whole pieces, in their order, never more than the capacity. */
  lemma {:induction false} WholePiecesInOrder(contents: seq<byte>, pieces: seq<seq<byte>>, capacity: nat)
    requires |contents| <= capacity
    ensures AppendAll(contents, pieces, capacity) == contents + Concat(Kept(|contents|, pieces, capacity))
    ensures Subsequence(Kept(|contents|, pieces, capacity), pieces)
    ensures |AppendAll(contents, pieces, capacity)| <= capacity
    decreases |pieces|
  {
    if pieces != [] {
      var next := Appended(contents, pieces[0], capacity);
      WholePiecesInOrder(next, pieces[1..], capacity);
      var kept := Kept(|next|, pieces[1..], capacity);
      if |contents| + |pieces[0]| <= capacity {
        ConcatFirst(pieces[0], kept);
        assert ([pieces[0]] + kept)[1..] == kept;
      }
    }
  }

  /** Nothing is lost exactly when everything fits. */
  lemma {:induction false} NothingLostIffFits(contents: seq<byte>, pieces: seq<seq<byte>>, capacity: nat)
    requires |contents| <= capacity
    ensures AppendAll(contents, pieces, capacity) == contents + Concat(pieces)
      <==> |contents| + |Concat(pieces)| <= capacity
    decreases |pieces|
  {
    WholePiecesInOrder(contents, pieces, capacity);
    if pieces != [] && |contents| + |Concat(pieces)| <= capacity {
      NothingLostIffFits(contents + pieces[0], pieces[1..], capacity);
      Regroup(contents, pieces[0], Concat(pieces[1..]));
    }
  }

  // ---------------------------------------------------------------- packets, units and frames

  /** `rtpSource` and `listening`: the subsession has an RTP source, the session a frame callback. */
  datatype Packet = Packet(nal: seq<byte>, marker: bool, rtpSource: bool, listening: bool)

  datatype VideoFrame = VideoFrame(keyFrame: bool, bytes: seq<byte>)

  /** `first` is the first byte in the packet buffer, which an empty packet leaves as it was. */
  datatype Sink = Sink(header: seq<byte>, received: seq<byte>, first: byte, frames: seq<VideoFrame>)

  function FirstByte(nal: seq<byte>, before: byte): byte {
    if nal == [] then before else nal[0]
  }

  function PacketPieces(header: seq<byte>, p: Packet): seq<seq<byte>> {
    (if p.marker then [header] else []) + [START_CODE, p.nal]
  }

  function Receive(s: Sink, p: Packet): Sink {
    var first := FirstByte(p.nal, s.first);
    if !p.rtpSource then s.(first := first)
    else
      var received := AppendAll(s.received, PacketPieces(s.header, p), RECEIVED_CAPACITY);
      if !p.marker then s.(first := first, received := received)
      else
        var frame := VideoFrame(first % 32 == IDR_SLICE, received);
        s.(first := first, received := [], frames := s.frames + if p.listening then [frame] else [])
  }

  function Run(s: Sink, packets: seq<Packet>): Sink
    decreases |packets|
  {
    if packets == [] then s else Run(Receive(s, packets[0]), packets[1..])
  }

  function UnitPieces(header: seq<byte>, unit: seq<Packet>): seq<seq<byte>> {
    if unit == [] then [] else PacketPieces(header, unit[0]) + UnitPieces(header, unit[1..])
  }

  /** The access units, cut after each marker; `pending` was received before. Packets without a source do not count. */
  function Units(pending: seq<Packet>, packets: seq<Packet>): seq<seq<Packet>>
    decreases |packets|
  {
    if packets == [] then []
    else if !packets[0].rtpSource then Units(pending, packets[1..])
    else if packets[0].marker then [pending + [packets[0]]] + Units([], packets[1..])
    else Units(pending + [packets[0]], packets[1..])
  }

  predicate IsUnit(unit: seq<Packet>) {
    unit != [] && unit[|unit| - 1].marker && forall i | 0 <= i < |unit| - 1 :: !unit[i].marker
  }

  function FrameBytes(header: seq<byte>, unit: seq<Packet>): seq<byte> {
    AppendAll([], UnitPieces(header, unit), RECEIVED_CAPACITY)
  }

  /** The bytes of the units that someone listened to. */
  function Delivered(header: seq<byte>, units: seq<seq<Packet>>): seq<seq<byte>> {
    if units == [] then []
    else (if Listened(units[0]) then [FrameBytes(header, units[0])] else []) + Delivered(header, units[1..])
  }

  predicate Listened(unit: seq<Packet>) {
    unit != [] && unit[|unit| - 1].listening
  }

  function Bytes(frames: seq<VideoFrame>): seq<seq<byte>> {
    if frames == [] then [] else Bytes(frames[..|frames| - 1]) + [frames[|frames| - 1].bytes]
  }

  lemma {:induction false} UnitPiecesSnoc(header: seq<byte>, unit: seq<Packet>, p: Packet)
    ensures UnitPieces(header, unit + [p]) == UnitPieces(header, unit) + PacketPieces(header, p)
  {
    if unit == [] {
      assert unit + [p] == [p] && [p][1..] == [];
    } else {
      assert (unit + [p])[1..] == unit[1..] + [p];
      UnitPiecesSnoc(header, unit[1..], p);
    }
  }

  lemma {:induction false} UnitsAreUnits(pending: seq<Packet>, packets: seq<Packet>)
    requires forall p | p in pending :: !p.marker
    ensures forall u | u in Units(pending, packets) :: IsUnit(u)
    decreases |packets|
  {
    if packets != [] {
      UnitsAreUnits([], packets[1..]);
      if !packets[0].rtpSource {
        UnitsAreUnits(pending, packets[1..]);
      } else if !packets[0].marker {
        UnitsAreUnits(pending + [packets[0]], packets[1..]);
      }
    }
  }

  lemma ReceivedSoFar(s: Sink, pending: seq<Packet>, p: Packet)
    requires s.received == FrameBytes(s.header, pending) && p.rtpSource
    ensures AppendAll(s.received, PacketPieces(s.header, p), RECEIVED_CAPACITY) == FrameBytes(s.header, pending + [p])
  {
    UnitPiecesSnoc(s.header, pending, p);
    AppendAllAppend([], UnitPieces(s.header, pending), PacketPieces(s.header, p), RECEIVED_CAPACITY);
  }

  /**
   Over any run of packets the frames delivered are those of the access units, each assembled from its own
   packets alone: nothing leaks from one unit into the next.
   */
  lemma {:induction false} UnitsAreDelivered(s: Sink, pending: seq<Packet>, packets: seq<Packet>)
    requires s.received == FrameBytes(s.header, pending) && forall p | p in pending :: !p.marker
    ensures forall u | u in Units(pending, packets) :: IsUnit(u)
    ensures Bytes(Run(s, packets).frames) == Bytes(s.frames) + Delivered(s.header, Units(pending, packets))
    decreases |packets|
  {
    UnitsAreUnits(pending, packets);
    if packets != [] {
      var p, next := packets[0], Receive(s, packets[0]);
      if !p.rtpSource {
        UnitsAreDelivered(next, pending, packets[1..]);
      } else {
        ReceivedSoFar(s, pending, p);
        if p.marker {
          UnitsAreDelivered(next, [], packets[1..]);
          FrameAdded(s, p, pending, Units([], packets[1..]));
        } else {
          UnitsAreDelivered(next, pending + [p], packets[1..]);
        }
      }
    }
  }

  lemma BytesSnoc(frames: seq<VideoFrame>, frame: VideoFrame)
    ensures Bytes(frames + [frame]) == Bytes(frames) + [frame.bytes]
  {
    assert (frames + [frame])[..|frames|] == frames;
  }

  lemma DeliveredCons(header: seq<byte>, unit: seq<Packet>, later: seq<seq<Packet>>)
    ensures Delivered(header, [unit] + later)
         == (if Listened(unit) then [FrameBytes(header, unit)] else []) + Delivered(header, later)
  {
    assert ([unit] + later)[1..] == later;
  }

  lemma FrameAdded(s: Sink, p: Packet, pending: seq<Packet>, later: seq<seq<Packet>>)
    requires s.received == FrameBytes(s.header, pending) && p.rtpSource && p.marker
    ensures Bytes(Receive(s, p).frames) + Delivered(s.header, later)
         == Bytes(s.frames) + Delivered(s.header, [pending + [p]] + later)
  {
    var unit := pending + [p];
    ReceivedSoFar(s, pending, p);
    assert unit[|unit| - 1] == p;
    DeliveredCons(s.header, unit, later);
    if p.listening {
      var frame := VideoFrame(FirstByte(p.nal, s.first) % 32 == IDR_SLICE, FrameBytes(s.header, unit));
      BytesSnoc(s.frames, frame);
      Regroup(Bytes(s.frames), [frame.bytes], Delivered(s.header, later));
    } else {
      assert s.frames + [] == s.frames;
    }
  }

  function Flags(frames: seq<VideoFrame>): seq<bool> {
    if frames == [] then [] else Flags(frames[..|frames| - 1]) + [frames[|frames| - 1].keyFrame]
  }

  /** For each unit that someone listened to: is the NAL unit of its marker packet an IDR slice? */
  function KeyUnits(units: seq<seq<Packet>>): seq<bool> {
    if units == [] then []
    else (if Listened(units[0]) then [IsIdr(units[0][|units[0]| - 1].nal)] else []) + KeyUnits(units[1..])
  }

  predicate IsIdr(nal: seq<byte>) {
    nal != [] && nal[0] % 32 == 5
  }

  /**
   A frame is flagged as a key frame exactly when its unit's last NAL unit is an IDR slice; earlier ones do not
   matter.
   */
  lemma {:induction false} KeyFramesFollowMarkers(s: Sink, pending: seq<Packet>, packets: seq<Packet>)
    requires forall p | p in packets :: p.nal != []
    ensures Flags(Run(s, packets).frames) == Flags(s.frames) + KeyUnits(Units(pending, packets))
    decreases |packets|
  {
    if packets != [] {
      var p, next := packets[0], Receive(s, packets[0]);
      if p.rtpSource && p.marker {
        KeyFramesFollowMarkers(next, [], packets[1..]);
        FlagAdded(s, p, pending, Units([], packets[1..]));
      } else {
        KeyFramesFollowMarkers(next, if p.rtpSource then pending + [p] else pending, packets[1..]);
      }
    }
  }

  lemma FlagAdded(s: Sink, p: Packet, pending: seq<Packet>, later: seq<seq<Packet>>)
    requires p.rtpSource && p.marker && p.nal != []
    ensures Flags(Receive(s, p).frames) + KeyUnits(later) == Flags(s.frames) + KeyUnits([pending + [p]] + later)
  {
    var unit := pending + [p];
    assert ([unit] + later)[1..] == later && unit[|unit| - 1] == p;
    var frames := Receive(s, p).frames;
    if p.listening {
      assert frames[..|frames| - 1] == s.frames;
      Regroup(Flags(s.frames), [IsIdr(p.nal)], KeyUnits(later));
    } else {
      assert frames == s.frames;
    }
  }

  // ---------------------------------------------------------------- the Annex B byte stream

  /** Each NAL unit behind a start code: what a decoder of a byte stream expects. */
  function StartCoded(nals: seq<seq<byte>>): seq<byte> {
    if nals == [] then [] else [0, 0, 0, 1] + nals[0] + StartCoded(nals[1..])
  }

  function Nals(unit: seq<Packet>): seq<seq<byte>> {
    if unit == [] then [] else [unit[0].nal] + Nals(unit[1..])
  }

  /** The order in which a decoder gets them: the parameter sets stand before the last NAL unit. */
  function StreamNals(parameterSets: seq<seq<byte>>, unit: seq<Packet>): seq<seq<byte>>
    requires unit != []
  {
    Nals(unit[..|unit| - 1]) + parameterSets + [unit[|unit| - 1].nal]
  }

  lemma {:induction false} StartCodedAppend(a: seq<seq<byte>>, b: seq<seq<byte>>)
    ensures StartCoded(a + b) == StartCoded(a) + StartCoded(b)
  {
    if a == [] {
      assert a + b == b;
    } else {
      assert (a + b)[1..] == a[1..] + b;
      StartCodedAppend(a[1..], b);
      Regroup(START_CODE + a[0], StartCoded(a[1..]), StartCoded(b));
    }
  }

  lemma {:induction false} StartCodedIsJoin(before: seq<byte>, nals: seq<seq<byte>>)
    ensures StringUtil.Join([before] + nals, START_CODE) == before + StartCoded(nals)
    decreases |nals|
  {
    if nals != [] {
      StringUtil.JoinCons(before, nals, START_CODE);
      assert nals == [nals[0]] + nals[1..];
      StartCodedIsJoin(nals[0], nals[1..]);
      Regroup(before, START_CODE, nals[0] + StartCoded(nals[1..]));
      Regroup(START_CODE, nals[0], StartCoded(nals[1..]));
    }
  }

  lemma {:induction false} PiecesWithoutMarker(header: seq<byte>, unit: seq<Packet>)
    requires forall p | p in unit :: !p.marker
    ensures Concat(UnitPieces(header, unit)) == StartCoded(Nals(unit))
  {
    if unit != [] {
      PiecesWithoutMarker(header, unit[1..]);
      ConcatAppend([START_CODE, unit[0].nal], UnitPieces(header, unit[1..]));
      ConcatTwo(START_CODE, unit[0].nal);
      assert Nals(unit)[1..] == Nals(unit[1..]);
      assert PacketPieces(header, unit[0]) == [START_CODE, unit[0].nal];
    }
  }

  lemma ConcatTwo(a: seq<byte>, b: seq<byte>)
    ensures Concat([a, b]) == a + b
  {
    assert [a, b][1..] == [b] && [b][1..] == [];
    assert Concat([b]) == b + [];
  }

  lemma UnitConcat(parameterSets: seq<seq<byte>>, unit: seq<Packet>)
    requires IsUnit(unit)
    ensures Concat(UnitPieces(StartCoded(parameterSets), unit)) == StartCoded(StreamNals(parameterSets, unit))
  {
    var header, front, last := StartCoded(parameterSets), unit[..|unit| - 1], unit[|unit| - 1];
    assert unit == front + [last];
    UnitPiecesSnoc(header, front, last);
    ConcatAppend(UnitPieces(header, front), PacketPieces(header, last));
    PiecesWithoutMarker(header, front);
    ConcatFirst(header, [START_CODE, last.nal]);
    ConcatTwo(START_CODE, last.nal);
    StartCodedAppend(Nals(front) + parameterSets, [last.nal]);
    StartCodedAppend(Nals(front), parameterSets);
    assert StartCoded([last.nal]) == START_CODE + last.nal;
    Regroup(StartCoded(Nals(front)), header, START_CODE + last.nal);
  }

  /** The frame of a unit is its Annex B stream exactly when that fits the receive buffer. */
  lemma FrameIsAnnexB(parameterSets: seq<seq<byte>>, unit: seq<Packet>)
    requires IsUnit(unit)
    ensures var stream := StartCoded(StreamNals(parameterSets, unit));
            FrameBytes(StartCoded(parameterSets), unit) == stream <==> |stream| <= 426016
  {
    UnitConcat(parameterSets, unit);
    NothingLostIffFits([], UnitPieces(StartCoded(parameterSets), unit), RECEIVED_CAPACITY);
  }

  lemma StartCodeUnbordered()
    ensures StringUtil.Unbordered(START_CODE)
  {
    forall k | 0 < k < |START_CODE|
      ensures START_CODE[k..] != START_CODE[..|START_CODE| - k]
    {
      assert START_CODE[k..][|START_CODE| - k - 1] == 1 && START_CODE[..|START_CODE| - k][|START_CODE| - k - 1] == 0;
    }
  }

  lemma CutAtStartCodes(parameterSets: seq<seq<byte>>, unit: seq<Packet>, code: seq<byte>)
    requires IsUnit(unit) && |StartCoded(StreamNals(parameterSets, unit))| <= RECEIVED_CAPACITY && code == START_CODE
    ensures var nals := StreamNals(parameterSets, unit);
            StringUtil.Split(FrameBytes(StartCoded(parameterSets), unit), code) == [[]] + nals
            <==> forall nal | nal in nals :: !StringUtil.Contains(nal, code)
  {
    var nals := StreamNals(parameterSets, unit);
    FrameIsAnnexB(parameterSets, unit);
    StartCodedIsJoin([], nals);
    StartCodeUnbordered();
    StringUtil.SplitAfterJoin([[]] + nals, START_CODE);
    assert !StringUtil.Contains<byte>([], START_CODE);
    assert forall nal :: nal in [[]] + nals <==> nal == [] || nal in nals;
  }

  /**
   When the unit fits, cutting the frame at the start codes gives back its NAL units, with the parameter
   sets before the last one, exactly when none of them contains a start code.
   */
  lemma NalsAreRecovered(parameterSets: seq<seq<byte>>, unit: seq<Packet>)
    requires IsUnit(unit) && |StartCoded(StreamNals(parameterSets, unit))| <= RECEIVED_CAPACITY
    ensures var nals, code: seq<byte> := StreamNals(parameterSets, unit), [0, 0, 0, 1];
            StringUtil.Split(FrameBytes(StartCoded(parameterSets), unit), code) == [[]] + nals
            <==> forall nal | nal in nals :: !StringUtil.Contains(nal, code)
  {
    CutAtStartCodes(parameterSets, unit, [0, 0, 0, 1]);
  }

  /** On overflow, too, a frame is a sequence of whole pieces in their order and never above the capacity. */
  lemma OverflowKeepsWholePieces(header: seq<byte>, unit: seq<Packet>)
    ensures var kept := Kept(0, UnitPieces(header, unit), RECEIVED_CAPACITY);
            FrameBytes(header, unit) == Concat(kept) && Subsequence(kept, UnitPieces(header, unit))
    ensures |FrameBytes(header, unit)| <= RECEIVED_CAPACITY
  {
    WholePiecesInOrder([], UnitPieces(header, unit), RECEIVED_CAPACITY);
  }

  /**
   But a start code and its NAL unit are separate pieces, so near the end of the buffer one can be kept
   without the other: exactly when the NAL unit is not empty and only one of the two finds room.
   */
  lemma StartCodeAndNalTogether(received: seq<byte>, nal: seq<byte>)
    requires |received| <= RECEIVED_CAPACITY
    ensures var room := RECEIVED_CAPACITY - |received|;
            AppendAll(received, [START_CODE, nal], RECEIVED_CAPACITY) in {received, received + (START_CODE + nal)}
            <==> nal == [] || (room < 4 && room < |nal|) || |nal| + 4 <= room
  {
    AppendTwo(received, START_CODE, nal, RECEIVED_CAPACITY);
    var room := RECEIVED_CAPACITY - |received|;
    var result := AppendAll(received, [START_CODE, nal], RECEIVED_CAPACITY);
    assert received + START_CODE + nal == received + (START_CODE + nal);
    assert |received + (START_CODE + nal)| == |received| + 4 + |nal|;
    if nal == [] {
      assert START_CODE + nal == START_CODE && received + nal == received;
    }
  }

  // ---------------------------------------------------------------- runs in which one piece is kept without the other

  /** A packet of the network source before the marker. */
  function Part(nal: seq<byte>): Packet {
    Packet(nal, false, true, false)
  }

  /** The last packet of a unit that someone listens to. */
  function Last(nal: seq<byte>): Packet {
    Packet(nal, true, true, true)
  }

  lemma ReceivesPart(s: Sink, nal: seq<byte>)
    ensures var s' := Receive(s, Part(nal));
            && s'.header == s.header && s'.frames == s.frames
            && s'.received == Appended(Appended(s.received, START_CODE, RECEIVED_CAPACITY), nal, RECEIVED_CAPACITY)
  {
    assert PacketPieces(s.header, Part(nal)) == [START_CODE, nal];
    AppendTwo(s.received, START_CODE, nal, RECEIVED_CAPACITY);
  }

  lemma ReceivesLast(s: Sink, nal: seq<byte>)
    requires s.header == []
    ensures var s' := Receive(s, Last(nal));
            && |s'.frames| == |s.frames| + 1
            && s'.frames[|s.frames|].bytes
               == Appended(Appended(s.received, START_CODE, RECEIVED_CAPACITY), nal, RECEIVED_CAPACITY)
  {
    assert [[]] + [START_CODE, nal] == [[], START_CODE, nal];
    assert [[], START_CODE, nal][1..] == [START_CODE, nal];
    AppendTwo(s.received, START_CODE, nal, RECEIVED_CAPACITY);
    assert s.received + [] == s.received;
  }

  lemma RunOfThree(s: Sink, p: Packet, q: Packet, r: Packet)
    ensures Run(s, [p, q, r]) == Receive(Receive(Receive(s, p), q), r)
  {
    var one := Receive(s, p);
    assert [p, q, r][1..] == [q, r] && [q, r][1..] == [r] && [r][1..] == [];
    assert Run(one, [q, r]) == Run(Receive(one, q), [r]);
  }

  lemma FrameOfThree(s: Sink, a: seq<byte>, b: seq<byte>, c: seq<byte>)
    requires s.header == s.received == [] && |a| + |b| + 8 <= RECEIVED_CAPACITY
    ensures var (s', before) := (Run(s, [Part(a), Part(b), Last(c)]), START_CODE + a + START_CODE + b);
            && |s'.frames| == |s.frames| + 1
            && s'.frames[|s.frames|].bytes
               == Appended(Appended(before, START_CODE, RECEIVED_CAPACITY), c, RECEIVED_CAPACITY)
  {
    RunOfThree(s, Part(a), Part(b), Last(c));
    var one := Receive(s, Part(a));
    var two := Receive(one, Part(b));
    ReceivesPart(s, a);
    assert [] + START_CODE == START_CODE;
    ReceivesPart(one, b);
    ReceivesLast(two, c);
  }

  /** A run: with two bytes of room a one-byte NAL unit is delivered without its start code. */
  lemma NalWithoutStartCode(s: Sink, a: seq<byte>, b: seq<byte>, c: byte)
    requires s.header == s.received == [] && |a| == PACKET_CAPACITY && |b| == 22
    ensures var s' := Run(s, [Part(a), Part(b), Last([c])]);
            && |s'.frames| == |s.frames| + 1
            && s'.frames[|s.frames|].bytes == START_CODE + a + START_CODE + b + [c]
  {
    FrameOfThree(s, a, b, [c]);
  }

  /** A run: with four bytes of room a start code is delivered without its NAL unit. */
  lemma StartCodeWithoutNal(s: Sink, a: seq<byte>, b: seq<byte>, c: seq<byte>)
    requires s.header == s.received == [] && |a| == PACKET_CAPACITY && |b| == 20 && c != []
    ensures var s' := Run(s, [Part(a), Part(b), Last(c)]);
            && |s'.frames| == |s.frames| + 1
            && s'.frames[|s.frames|].bytes == START_CODE + a + START_CODE + b + START_CODE
  {
    FrameOfThree(s, a, b, c);
  }

  // ---------------------------------------------------------------- the parameter-set header

  predicate IsParameterSet(record: seq<byte>) {
    record != [] && record[0] % 32 in {SEQUENCE_PARAMETER_SET, PICTURE_PARAMETER_SET}
  }

  function ParameterSets(records: seq<seq<byte>>): seq<seq<byte>> {
    if records == [] then []
    else (if IsParameterSet(records[0]) then [records[0]] else []) + ParameterSets(records[1..])
  }

  function HeaderPieces(parameterSets: seq<seq<byte>>): seq<seq<byte>> {
    if parameterSets == [] then [] else [START_CODE, parameterSets[0]] + HeaderPieces(parameterSets[1..])
  }

  function HeaderOf(records: seq<seq<byte>>): seq<byte> {
    AppendAll([], HeaderPieces(ParameterSets(records)), HEADER_CAPACITY)
  }

  lemma {:induction false} HeaderConcat(parameterSets: seq<seq<byte>>)
    ensures Concat(HeaderPieces(parameterSets)) == StartCoded(parameterSets)
  {
    if parameterSets != [] {
      HeaderConcat(parameterSets[1..]);
      ConcatAppend([START_CODE, parameterSets[0]], HeaderPieces(parameterSets[1..]));
      ConcatTwo(START_CODE, parameterSets[0]);
    }
  }

  /** The records of the NAL unit types 7 and 8, in their order. */
  lemma {:induction false} ParameterSetsAre(records: seq<seq<byte>>)
    ensures forall r :: r in ParameterSets(records) <==> r in records && r != [] && r[0] % 32 in {7, 8}
    ensures |ParameterSets(records)| <= |records|
  {
    if records != [] {
      ParameterSetsAre(records[1..]);
      assert records == [records[0]] + records[1..];
    }
  }

  lemma {:induction false} ParameterSetsInOrder(a: seq<seq<byte>>, b: seq<seq<byte>>)
    ensures ParameterSets(a + b) == ParameterSets(a) + ParameterSets(b)
  {
    if a == [] {
      assert a + b == b;
    } else {
      assert (a + b)[1..] == a[1..] + b;
      ParameterSetsInOrder(a[1..], b);
    }
  }

  /** The header is the start-coded SPS and PPS records in their order exactly when they fit its buffer. */
  lemma HeaderIsAnnexB(records: seq<seq<byte>>)
    ensures HeaderOf(records) == StartCoded(ParameterSets(records))
      <==> |StartCoded(ParameterSets(records))| <= 1024
    ensures |HeaderOf(records)| <= 1024
  {
    HeaderConcat(ParameterSets(records));
    NothingLostIffFits([], HeaderPieces(ParameterSets(records)), HEADER_CAPACITY);
    WholePiecesInOrder([], HeaderPieces(ParameterSets(records)), HEADER_CAPACITY);
  }

  /** From the session description to the decoder: records, packets of one unit, and the frame they give. */
  lemma SpropToFrame(records: seq<seq<byte>>, unit: seq<Packet>)
    requires IsUnit(unit) && |StartCoded(ParameterSets(records))| <= HEADER_CAPACITY
    requires |StartCoded(StreamNals(ParameterSets(records), unit))| <= RECEIVED_CAPACITY
    ensures var nals, code: seq<byte> := StreamNals(ParameterSets(records), unit), [0, 0, 0, 1];
            StringUtil.Split(FrameBytes(HeaderOf(records), unit), code) == [[]] + nals
            <==> forall nal | nal in nals :: !StringUtil.Contains(nal, code)
  {
    HeaderIsAnnexB(records);
    NalsAreRecovered(ParameterSets(records), unit);
  }

  // ---------------------------------------------------------------- the objects

  /** `array_ex`: a fixed array that is filled from the front. */
  class ArrayEx {
    const data: array<byte>
    var len: nat

    ghost predicate Valid()
      reads this
    {
      len <= data.Length
    }

    ghost function Contents(): seq<byte>
      requires Valid()
      reads this, data
    {
      data[..len]
    }

    constructor (capacity: nat)
      ensures Valid() && fresh(data) && data.Length == capacity && Contents() == []
    {
      data, len := new byte[capacity], 0;
    }

    method Append(piece: seq<byte>) returns (newLen: nat)
      requires Valid()
      modifies this, data
      ensures Valid() && Contents() == Appended(old(Contents()), piece, data.Length)
      ensures newLen == if old(len) + |piece| > data.Length then 0 else len
    {
      if len + |piece| > data.Length {
        return 0;
      }
      ghost var before := data[..len];
      forall i | 0 <= i < |piece| {
        data[len + i] := piece[i];
      }
      assert data[..len + |piece|] == before + piece;
      len := len + |piece|;
      newLen := len;
    }

    method Clear()
      modifies this
      ensures Valid() && Contents() == []
    {
      len := 0;
    }
  }

  class H264Sink {
    const packetBuffer: array<byte>
    const headerBuffer: ArrayEx
    const receivedBuffer: ArrayEx
    /** What the session's callback was handed. */
    var frames: seq<VideoFrame>

    ghost predicate Valid()
      reads this, headerBuffer, receivedBuffer
    {
      && packetBuffer.Length == PACKET_CAPACITY
      && headerBuffer != receivedBuffer && headerBuffer.data != receivedBuffer.data
      && headerBuffer.data != packetBuffer && receivedBuffer.data != packetBuffer
      && headerBuffer.data.Length == HEADER_CAPACITY && headerBuffer.Valid()
      && receivedBuffer.data.Length == RECEIVED_CAPACITY && receivedBuffer.Valid()
    }

    ghost function Value(): Sink
      requires Valid()
      reads this, packetBuffer, headerBuffer, headerBuffer.data, receivedBuffer, receivedBuffer.data
    {
      Sink(headerBuffer.Contents(), receivedBuffer.Contents(), packetBuffer[0], frames)
    }

    constructor ()
      ensures Valid() && Value().header == Value().received == [] && Value().frames == []
    {
      packetBuffer := new byte[PACKET_CAPACITY];
      headerBuffer := new ArrayEx(HEADER_CAPACITY);
      receivedBuffer := new ArrayEx(RECEIVED_CAPACITY);
      frames := [];
    }

    /** `records` is absent when the session description has no parameter sets, or they cannot be parsed. */
    method SetSpropRecords(records: seq<seq<byte>>, present: bool) returns (any: bool)
      requires Valid()
      modifies headerBuffer, headerBuffer.data
      ensures Valid() && Value() == if present then old(Value()).(header := HeaderOf(records)) else old(Value())
      ensures any == (Value().header != [])
    {
      if present {
        headerBuffer.Clear();
        ghost var target := HeaderOf(records);
        ghost var rest := records;
        var i := 0;
        while i < |records|
          invariant 0 <= i <= |records| && Valid() && rest == records[i..]
          invariant AppendAll(headerBuffer.Contents(), HeaderPieces(ParameterSets(rest)), HEADER_CAPACITY) == target
        {
          HeaderStep(headerBuffer.Contents(), rest);
          if IsParameterSet(records[i]) {
            var _ := headerBuffer.Append(START_CODE);
            var _ := headerBuffer.Append(records[i]);
          }
          i, rest := i + 1, rest[1..];
        }
      }
      any := headerBuffer.len > 0;
    }

    /** The network source has written a packet; `afterGettingFrame` in its normal parse mode. */
    method AfterGettingFrame(p: Packet)
      requires Valid() && |p.nal| <= PACKET_CAPACITY
      modifies this, packetBuffer, receivedBuffer, receivedBuffer.data
      ensures Valid() && Value() == Receive(old(Value()), p)
    {
      StorePacket(p.nal);
      var keyFrame := packetBuffer[0] % 32 == IDR_SLICE;
      if !p.rtpSource {
        return;
      }
      ReceiveSteps(Value().received, Value().header, p);
      if p.marker {
        AppendHeaderPacket();
      }
      AppendBodyPacket(|p.nal|);
      if p.marker {
        if p.listening {
          frames := frames + [VideoFrame(keyFrame, receivedBuffer.data[..receivedBuffer.len])];
        }
        receivedBuffer.Clear();
      }
    }

    method StorePacket(nal: seq<byte>)
      requires Valid() && |nal| <= PACKET_CAPACITY
      modifies packetBuffer
      ensures Valid() && packetBuffer[..|nal|] == nal
      ensures packetBuffer[0] == FirstByte(nal, old(packetBuffer[0]))
    {
      forall i | 0 <= i < |nal| {
        packetBuffer[i] := nal[i];
      }
    }

    method AppendHeaderPacket()
      requires Valid()
      modifies receivedBuffer, receivedBuffer.data
      ensures Valid()
      ensures receivedBuffer.Contents()
        == Appended(old(receivedBuffer.Contents()), headerBuffer.Contents(), RECEIVED_CAPACITY)
    {
      var _ := receivedBuffer.Append(headerBuffer.data[..headerBuffer.len]);
    }

    method AppendBodyPacket(size: nat)
      requires Valid() && size <= PACKET_CAPACITY
      modifies receivedBuffer, receivedBuffer.data
      ensures Valid()
      ensures receivedBuffer.Contents()
           == Appended(Appended(old(receivedBuffer.Contents()), START_CODE, RECEIVED_CAPACITY), packetBuffer[..size],
                       RECEIVED_CAPACITY)
    {
      var _ := receivedBuffer.Append(START_CODE);
      var _ := receivedBuffer.Append(packetBuffer[..size]);
    }
  }

  lemma AppendTwo(contents: seq<byte>, a: seq<byte>, b: seq<byte>, capacity: nat)
    ensures AppendAll(contents, [a, b], capacity) == Appended(Appended(contents, a, capacity), b, capacity)
  {
    assert [a, b][1..] == [b] && [b][1..] == [];
    assert AppendAll(Appended(contents, a, capacity), [b], capacity)
      == Appended(Appended(contents, a, capacity), b, capacity);
  }

  lemma ReceiveSteps(received: seq<byte>, header: seq<byte>, p: Packet)
    ensures var r := if p.marker then Appended(received, header, RECEIVED_CAPACITY) else received;
            AppendAll(received, PacketPieces(header, p), RECEIVED_CAPACITY)
            == Appended(Appended(r, START_CODE, RECEIVED_CAPACITY), p.nal, RECEIVED_CAPACITY)
  {
    var r := if p.marker then Appended(received, header, RECEIVED_CAPACITY) else received;
    AppendTwo(r, START_CODE, p.nal, RECEIVED_CAPACITY);
    if p.marker {
      assert ([header] + [START_CODE, p.nal])[1..] == [START_CODE, p.nal];
    } else {
      assert PacketPieces(header, p) == [START_CODE, p.nal];
    }
  }

  lemma HeaderStep(contents: seq<byte>, records: seq<seq<byte>>)
    requires records != []
    ensures AppendAll(contents, HeaderPieces(ParameterSets(records)), HEADER_CAPACITY)
         == AppendAll(if IsParameterSet(records[0])
                      then Appended(Appended(contents, START_CODE, HEADER_CAPACITY), records[0], HEADER_CAPACITY)
                      else contents,
                      HeaderPieces(ParameterSets(records[1..])), HEADER_CAPACITY)
  {
    if IsParameterSet(records[0]) {
      var rest := HeaderPieces(ParameterSets(records[1..]));
      assert ParameterSets(records)[1..] == ParameterSets(records[1..]);
      AppendAllAppend(contents, [START_CODE, records[0]], rest, HEADER_CAPACITY);
      AppendTwo(contents, START_CODE, records[0], HEADER_CAPACITY);
    } else {
      assert ParameterSets(records) == ParameterSets(records[1..]);
    }
  }
}
