/** The queueing half of src/decoder/Decoder.cpp: frame bytes and frame metadata in two queues. */
module DecoderQueue {
  import opened Common
  import opened RingQueue

  const STREAM_QUEUE_SIZE := 1024 * 1024

  /** Without the data pointer, which the queue does not use. */
  datatype VideoSource = VideoSource(dataSize: int, keyFrame: bool, timestamp: int)

  datatype QueueVideoSrc = QueueVideoSrc(video: VideoSource, time: int)

  datatype Frame = Frame(bytes: seq<byte>, item: QueueVideoSrc)

  // ---------------------------------------------------------------- two queues in lockstep

  function Total(items: seq<QueueVideoSrc>): int {
    if items == [] then 0 else items[0].video.dataSize + Total(items[1..])
  }

  ghost predicate AllPositive(items: seq<QueueVideoSrc>) {
    forall i | 0 <= i < |items| :: items[i].video.dataSize > 0
  }

  /** The byte queue holds just the bytes that the metadata queue accounts for. */
  ghost predicate Lockstep(bytes: seq<byte>, items: seq<QueueVideoSrc>) {
    AllPositive(items) && |bytes| == Total(items)
  }

  lemma {:induction false} TotalNatural(items: seq<QueueVideoSrc>)
    requires AllPositive(items)
    ensures Total(items) >= |items|
  {
    if items != [] {
      TotalNatural(items[1..]);
    }
  }

  /** The frames that the two queues hold together. */
  ghost function Frames(bytes: seq<byte>, items: seq<QueueVideoSrc>): seq<Frame>
    requires Lockstep(bytes, items)
    decreases |items|
  {
    if items == [] then []
    else
      var n := items[0].video.dataSize;
      TotalNatural(items[1..]);
      [Frame(bytes[..n], items[0])] + Frames(bytes[n..], items[1..])
  }

  predicate MatchingSize(f: Frame, item: QueueVideoSrc) {
    f.item == item && |f.bytes| == item.video.dataSize > 0
  }

  lemma {:induction false} FramesMatch(bytes: seq<byte>, items: seq<QueueVideoSrc>)
    requires Lockstep(bytes, items)
    ensures |Frames(bytes, items)| == |items|
    ensures forall i | 0 <= i < |items| :: MatchingSize(Frames(bytes, items)[i], items[i])
    decreases |items|
  {
    if items != [] {
      TotalNatural(items[1..]);
      FramesMatch(bytes[items[0].video.dataSize..], items[1..]);
    }
  }

  lemma {:induction false} PushKeepsLockstep(bytes: seq<byte>, items: seq<QueueVideoSrc>, data: seq<byte>,
      item: QueueVideoSrc)
    requires Lockstep(bytes, items) && |data| == item.video.dataSize > 0
    ensures Lockstep(bytes + data, items + [item])
    ensures Frames(bytes + data, items + [item]) == Frames(bytes, items) + [Frame(data, item)]
    decreases |items|
  {
    if items == [] {
      assert items + [item] == [item] && [item][1..] == [] && bytes + data == data;
      assert Total([item]) == |data| && data[..|data|] == data && data[|data|..] == [];
      assert Frames(data, [item]) == [Frame(data, item)] + Frames([], []);
    } else {
      var n, rest := items[0].video.dataSize, items[1..];
      TotalNatural(rest);
      assert (items + [item])[1..] == rest + [item];
      assert (bytes + data)[n..] == bytes[n..] + data && (bytes + data)[..n] == bytes[..n];
      PushKeepsLockstep(bytes[n..], rest, data, item);
    }
  }

  // ---------------------------------------------------------------- what the queues do, on values

  /** `open`: the byte queue has its buffer. */
  datatype Queue = Queue(open: bool, frames: seq<Frame>)

  function Used(frames: seq<Frame>): nat {
    if frames == [] then 0 else |frames[0].bytes| + Used(frames[1..])
  }

  function PushCode(q: Queue, video: VideoSource): int {
    if video.dataSize <= 0 then 1
    else if !q.open || Used(q.frames) + video.dataSize > STREAM_QUEUE_SIZE - 1 then 2
    else 0
  }

  function Pushed(q: Queue, data: seq<byte>, video: VideoSource, now: int): Queue {
    if PushCode(q, video) != 0 || |data| < video.dataSize then q
    else q.(frames := q.frames + [Frame(data[..video.dataSize], QueueVideoSrc(video, now))])
  }

  /** The oldest frame is due when it has been kept for the accumulate time. */
  predicate Due(q: Queue, accumulateTime: int, now: int) {
    q.frames != [] && now - q.frames[0].item.time >= accumulateTime
  }

  lemma {:induction false} UsedIsLength(bytes: seq<byte>, items: seq<QueueVideoSrc>)
    requires Lockstep(bytes, items)
    ensures Used(Frames(bytes, items)) == |bytes|
    decreases |items|
  {
    if items != [] {
      var n := items[0].video.dataSize;
      TotalNatural(items[1..]);
      UsedIsLength(bytes[n..], items[1..]);
      assert Frames(bytes, items)[1..] == Frames(bytes[n..], items[1..]);
    }
  }

  // ---------------------------------------------------------------- the object

  class Decoder {
    const accumulateTime: int
    const queueStream: QueueLocalMemory
    var queueSrc: seq<QueueVideoSrc>
    /** The loop's copy of the frame being decoded; it grows and never shrinks. */
    var arrBufferSrc: array<byte>

    ghost predicate Valid()
      reads this, queueStream, queueStream.buffer
    {
      && queueStream.Valid() && queueStream.popDataLen == 0
      && arrBufferSrc != queueStream.buffer
      && (queueStream.buffer == null ==> queueSrc == [])
      && (queueStream.buffer != null ==>
            queueStream.queueSize == STREAM_QUEUE_SIZE && Lockstep(queueStream.Contents(), queueSrc))
    }

    /** In every state the two queues hold the same frames, each with as many bytes as its metadata says. */
    ghost function Value(): (q: Queue)
      requires Valid()
      reads this, queueStream, queueStream.buffer
      ensures |q.frames| == |queueSrc| && forall i | 0 <= i < |queueSrc| :: MatchingSize(q.frames[i], queueSrc[i])
    {
      if queueStream.buffer == null then Queue(false, [])
      else
        FramesMatch(queueStream.Contents(), queueSrc);
        Queue(true, Frames(queueStream.Contents(), queueSrc))
    }

    /** Initialize, on a new object. */
    constructor (accumulateTime: int)
      ensures Valid() && Value() == Queue(true, []) && this.accumulateTime == accumulateTime
      ensures fresh(queueStream) && fresh(queueStream.buffer) && fresh(arrBufferSrc)
    {
      this.accumulateTime := accumulateTime;
      queueStream := new QueueLocalMemory();
      queueSrc := [];
      arrBufferSrc := new byte[1024];
      new;
      var _ := queueStream.Initialize(STREAM_QUEUE_SIZE);
    }

    /** `data` is what the source's pointer leads to: at least as many bytes as its size says. */
    method QueuePush(data: seq<byte>, video: VideoSource, now: int) returns (code: int)
      requires Valid() && video.dataSize <= |data|
      modifies this`queueSrc, queueStream, queueStream.buffer
      ensures Valid() && queueStream.buffer == old(queueStream.buffer)
      ensures code == PushCode(old(Value()), video) && Value() == Pushed(old(Value()), data, video, now)
      ensures code == if video.dataSize <= 0 then 1
                      else if queueStream.buffer == null then 2
                      else if old(|queueStream.Contents()|) + video.dataSize > 1048575 then 2
                      else 0
      ensures queueSrc == old(queueSrc) + if code == 0 then [QueueVideoSrc(video, now)] else []
    {
      if video.dataSize <= 0 {
        return 1;
      }
      var bytes := data[..video.dataSize];
      if queueStream.buffer != null {
        UsedIsLength(queueStream.Contents(), queueSrc);
        PushKeepsLockstep(queueStream.Contents(), queueSrc, bytes, QueueVideoSrc(video, now));
      }
      var result := queueStream.Push(bytes);
      if !result.Success? {
        return 2;
      }
      queueSrc := queueSrc + [QueueVideoSrc(video, now)];
      code := 0;
    }

    /** The part of the loop under the queue lock: the oldest frame, once it is due. */
    method TakeFrame(now: int) returns (taken: bool, item: QueueVideoSrc)
      requires Valid()
      modifies this, arrBufferSrc, queueStream
      ensures Valid() && taken == Due(old(Value()), accumulateTime, now)
      ensures !taken ==> Value() == old(Value())
      ensures taken ==> var f := old(Value()).frames[0];
        |f.bytes| <= arrBufferSrc.Length && arrBufferSrc[..|f.bytes|] == f.bytes && item == f.item
      ensures taken ==> Value() == Queue(true, old(Value()).frames[1..])
      ensures arrBufferSrc == old(arrBufferSrc) || fresh(arrBufferSrc)
    {
      taken, item := false, QueueVideoSrc(VideoSource(0, false, 0), 0);
      if queueSrc == [] {
        return;
      }
      item := queueSrc[0];
      if now - item.time < accumulateTime {
        return;
      }
      var n := item.video.dataSize;
      TotalNatural(queueSrc[1..]);
      if arrBufferSrc.Length < n {
        arrBufferSrc := new byte[n];
      }
      ghost var contents := queueStream.Contents();
      var _ := queueStream.Front(arrBufferSrc, n);
      queueSrc := queueSrc[1..];
      var _ := queueStream.Pop();
      assert queueStream.Contents() == contents[n..];
      taken := true;
    }

    method Finalize()
      requires Valid()
      modifies this`queueSrc, queueStream`buffer
      ensures Valid() && Value() == Queue(false, [])
    {
      queueStream.Finalize();
      while queueSrc != []
        invariant queueStream.buffer == null
      {
        queueSrc := queueSrc[1..];
      }
    }
  }

  // ---------------------------------------------------------------- every run

  datatype Event = Push(data: seq<byte>, video: VideoSource, now: int) | Poll(now: int) | Finish

  /** What happened so far: the accepted frames, and those handed to Decode with the time at which that was. */
  datatype History = History(queue: Queue, accepted: seq<Frame>, decoded: seq<(Frame, int)>)

  const START := History(Queue(true, []), [], [])

  function Step(h: History, accumulateTime: int, e: Event): History {
    match e
    case Push(data, video, now) =>
      var queue := Pushed(h.queue, data, video, now);
      History(queue, h.accepted + queue.frames[|h.queue.frames|..], h.decoded)
    case Poll(now) =>
      if Due(h.queue, accumulateTime, now) then
        History(h.queue.(frames := h.queue.frames[1..]), h.accepted, h.decoded + [(h.queue.frames[0], now)])
      else h
    case Finish => h.(queue := Queue(false, []))
  }

  function Run(accumulateTime: int, events: seq<Event>): History {
    if events == [] then START
    else Step(Run(accumulateTime, events[..|events| - 1]), accumulateTime, events[|events| - 1])
  }

  ghost predicate Inv(h: History, accumulateTime: int) {
    && |h.decoded| + |h.queue.frames| <= |h.accepted|
    && (forall i | 0 <= i < |h.decoded| :: h.decoded[i].0 == h.accepted[i])
    && (forall i | 0 <= i < |h.decoded| :: h.decoded[i].1 - h.decoded[i].0.item.time >= accumulateTime)
    && (h.queue.open ==> |h.accepted| == |h.decoded| + |h.queue.frames|)
    && (forall i | 0 <= i < |h.queue.frames| :: h.queue.frames[i] == h.accepted[|h.decoded| + i])
    && (!h.queue.open ==> h.queue.frames == [])
    && (forall f | f in h.accepted :: |f.bytes| == f.item.video.dataSize > 0)
    && Used(h.queue.frames) < STREAM_QUEUE_SIZE
  }

  lemma {:induction false} UsedSnoc(frames: seq<Frame>, f: Frame)
    ensures Used(frames + [f]) == Used(frames) + |f.bytes|
  {
    if frames == [] {
      assert frames + [f] == [f] && [f][1..] == [];
      assert Used([f]) == |f.bytes| + Used([]);
    } else {
      assert (frames + [f])[1..] == frames[1..] + [f];
      UsedSnoc(frames[1..], f);
    }
  }

  lemma AcceptKeepsInv(h: History, accumulateTime: int, f: Frame)
    requires Inv(h, accumulateTime) && h.queue.open
    requires |f.bytes| == f.item.video.dataSize > 0 && Used(h.queue.frames) + |f.bytes| < STREAM_QUEUE_SIZE
    ensures Inv(History(h.queue.(frames := h.queue.frames + [f]), h.accepted + [f], h.decoded), accumulateTime)
  {
    UsedSnoc(h.queue.frames, f);
  }

  lemma DecodeKeepsInv(h: History, accumulateTime: int, now: int)
    requires Inv(h, accumulateTime) && Due(h.queue, accumulateTime, now)
    ensures Inv(Step(h, accumulateTime, Poll(now)), accumulateTime)
  {
  }

  lemma StepKeepsInv(h: History, accumulateTime: int, e: Event)
    requires Inv(h, accumulateTime)
    ensures Inv(Step(h, accumulateTime, e), accumulateTime)
  {
    match e
    case Push(data, video, now) =>
      if PushCode(h.queue, video) == 0 && video.dataSize <= |data| {
        var f := Frame(data[..video.dataSize], QueueVideoSrc(video, now));
        AcceptKeepsInv(h, accumulateTime, f);
        assert (h.queue.frames + [f])[|h.queue.frames|..] == [f];
      } else {
        assert h.accepted + h.queue.frames[|h.queue.frames|..] == h.accepted;
      }
    case Poll(now) =>
      if Due(h.queue, accumulateTime, now) {
        DecodeKeepsInv(h, accumulateTime, now);
      }
    case Finish =>
  }

  /**
   Over every run of pushes (accepted or not), polls and shutdown, Decode gets the accepted frames with
   their exact bytes, each at most once, in the order of the pushes, none left out and none before its
   accumulate time; until shutdown the frames not yet decoded are the queued ones.
   */
  lemma {:induction false} DecodedInPushOrder(accumulateTime: int, events: seq<Event>)
    ensures Inv(Run(accumulateTime, events), accumulateTime)
  {
    if events != [] {
      DecodedInPushOrder(accumulateTime, events[..|events| - 1]);
      StepKeepsInv(Run(accumulateTime, events[..|events| - 1]), accumulateTime, events[|events| - 1]);
    }
  }

  // ---------------------------------------------------------------- the same, read off the events

  /** The i-th event pushes a frame with data, before the shutdown, and the queue has room for it. */
  ghost predicate Accepts(accumulateTime: int, events: seq<Event>, i: nat) {
    && i < |events| && events[i].Push? && Finish !in events[..i]
    && 0 < events[i].video.dataSize <= |events[i].data|
    && Held(Run(accumulateTime, events[..i])) + events[i].video.dataSize <= 1048575
  }

  /** The bytes of the accepted frames that were not decoded. */
  ghost function Held(h: History): nat {
    Used(h.queue.frames)
  }

  ghost predicate IsFrameOf(f: Frame, e: Event) {
    && e.Push? && 0 <= e.video.dataSize <= |e.data|
    && f.bytes == e.data[..e.video.dataSize] && f.item.video == e.video && f.item.time == e.now
  }

  /** `pushes` are the positions of the events that the accepted frames come from. */
  ghost predicate ComeFrom(accumulateTime: int, events: seq<Event>, pushes: seq<nat>) {
    var h := Run(accumulateTime, events);
    && |pushes| == |h.accepted|
    && (forall j, k | 0 <= j < k < |pushes| :: pushes[j] < pushes[k])
    && (forall k | 0 <= k < |pushes| :: pushes[k] < |events| && IsFrameOf(h.accepted[k], events[pushes[k]]))
    && (forall i: nat | i < |events| :: Accepts(accumulateTime, events, i) <==> i in pushes)
  }

  lemma {:induction false} OpenUntilFinish(accumulateTime: int, events: seq<Event>)
    ensures Run(accumulateTime, events).queue.open <==> Finish !in events
  {
    if events != [] {
      var n := |events| - 1;
      OpenUntilFinish(accumulateTime, events[..n]);
      assert events == events[..n] + [events[n]];
    }
  }

  lemma AcceptsBefore(accumulateTime: int, events: seq<Event>, i: nat)
    requires i + 1 < |events|
    ensures Accepts(accumulateTime, events, i) <==> Accepts(accumulateTime, events[..|events| - 1], i)
  {
    assert events[..|events| - 1][..i] == events[..i];
  }

  lemma LastAccepted(accumulateTime: int, events: seq<Event>)
    requires events != []
    ensures var n, h, h' := |events| - 1, Run(accumulateTime, events[..|events| - 1]), Run(accumulateTime, events);
            if Accepts(accumulateTime, events, n)
            then |h'.accepted| == |h.accepted| + 1 && h'.accepted[..|h.accepted|] == h.accepted
                 && IsFrameOf(h'.accepted[|h.accepted|], events[n])
            else h'.accepted == h.accepted
  {
    var n := |events| - 1;
    var h := Run(accumulateTime, events[..n]);
    OpenUntilFinish(accumulateTime, events[..n]);
    assert h.accepted + h.queue.frames[|h.queue.frames|..] == h.accepted;
  }

  /**
   Over every run the accepted frames are, in order, those of the pushes with data, before the shutdown, that found
   room; each with the bytes that its size says, its metadata and the instant of its push.
   */
  lemma {:induction false} AcceptedAreThePushes(accumulateTime: int, events: seq<Event>) returns (pushes: seq<nat>)
    ensures ComeFrom(accumulateTime, events, pushes)
  {
    pushes := [];
    if events != [] {
      var n := |events| - 1;
      pushes := AcceptedAreThePushes(accumulateTime, events[..n]);
      LastAccepted(accumulateTime, events);
      EarlierAccepted(accumulateTime, events, pushes);
      if Accepts(accumulateTime, events, n) {
        pushes := pushes + [n];
      }
    }
  }

  lemma EarlierAccepted(accumulateTime: int, events: seq<Event>, pushes: seq<nat>)
    requires events != [] && ComeFrom(accumulateTime, events[..|events| - 1], pushes)
    ensures forall i: nat | i < |events| - 1 :: Accepts(accumulateTime, events, i) <==> i in pushes
    ensures |events| - 1 !in pushes
  {
    var before := events[..|events| - 1];
    forall i: nat | i < |before|
      ensures Accepts(accumulateTime, events, i) <==> i in pushes
    {
      AcceptsBefore(accumulateTime, events, i);
      assert Accepts(accumulateTime, before, i) <==> i in pushes;
    }
  }

  /** Each frame is decoded no earlier than its accumulate time after its own push. */
  lemma DecodedAfterAccumulateTime(accumulateTime: int, events: seq<Event>, pushes: seq<nat>, k: nat)
    requires ComeFrom(accumulateTime, events, pushes) && k < |Run(accumulateTime, events).decoded|
    ensures var h := Run(accumulateTime, events);
            && k < |pushes| && IsFrameOf(h.decoded[k].0, events[pushes[k]])
            && h.decoded[k].1 - events[pushes[k]].now >= accumulateTime
  {
    DecodedInPushOrder(accumulateTime, events);
  }

  /** A poll decodes the oldest frame not yet decoded if and only if its accumulate time since its push is over. */
  lemma PollDecodesIff(accumulateTime: int, events: seq<Event>, pushes: seq<nat>, now: int)
    requires ComeFrom(accumulateTime, events, pushes)
    ensures var h, h' := Run(accumulateTime, events), Run(accumulateTime, events + [Poll(now)]);
            var n := |h.decoded|;
            h'.decoded == h.decoded +
              if Finish !in events && n < |pushes| && now - events[pushes[n]].now >= accumulateTime
              then [(h.accepted[n], now)] else []
  {
    var h := Run(accumulateTime, events);
    DecodedInPushOrder(accumulateTime, events);
    OpenUntilFinish(accumulateTime, events);
    assert (events + [Poll(now)])[..|events|] == events;
    assert h.decoded + [] == h.decoded;
    if h.queue.frames != [] {
      assert h.queue.frames[0] == h.accepted[|h.decoded| + 0];
    }
  }

  /** After the shutdown nothing is accepted and nothing decoded any more. */
  lemma {:induction false} NothingAfterFinish(accumulateTime: int, before: seq<Event>, after: seq<Event>)
    ensures var h := Run(accumulateTime, before + [Finish] + after);
            h == Run(accumulateTime, before).(queue := Queue(false, []))
    decreases |after|
  {
    var run := before + [Finish] + after;
    if after == [] {
      assert run == before + [Finish] && run[..|run| - 1] == before;
    } else {
      assert run[..|run| - 1] == before + [Finish] + after[..|after| - 1];
      NothingAfterFinish(accumulateTime, before, after[..|after| - 1]);
    }
  }
}
