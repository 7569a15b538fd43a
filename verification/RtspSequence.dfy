/**
 The RTSP command sequence of src/live555/rtsp_callback.cpp: SETUP for one subsession after the other, then
 PLAY, and the shutdown when streams end. The network decides when and how each request is answered.
 */
module RtspSequence {
  import opened Common

  /** The names that the callbacks tell apart. */
  datatype Medium = Video | Audio | Application | OtherMedium
  datatype Codec = H264 | Mp4vEs | Jpeg | OtherCodec

  /** `initiates` is what initiate() returns for the subsession. */
  datatype Subsession = Subsession(medium: Medium, codec: Codec, initiates: bool)

  datatype Command = Setup(index: nat) | Play

  /** `current` is the subsession being set up, or -1; `sinks[i]` tells whether subsession i has a sink. */
  datatype Client = Client(
    next: nat, current: int, sinks: seq<bool>, commands: seq<Command>, tornDown: bool, closed: bool)

  // ---------------------------------------------------------------- one callback, on values

  predicate Admitted(s: Subsession) {
    s.medium.Video? || s.codec.H264?
  }

  predicate Eligible(s: Subsession) {
    Admitted(s) && s.initiates
  }

  predicate GetsSink(s: Subsession) {
    s.medium.Video? && s.codec.H264?
  }

  function SetupNext(ss: seq<Subsession>, c: Client): Client
    decreases |ss| - c.next
  {
    if c.next >= |ss| then c.(current := -1, commands := c.commands + [Play])
    else
      var moved := c.(next := c.next + 1, current := c.next);
      if Eligible(ss[c.next]) then moved.(commands := c.commands + [Setup(c.next)])
      else SetupNext(ss, moved)
  }

  /** A failed SETUP is passed over; `created` is whether a sink could be made. */
  function AfterSetup(ss: seq<Subsession>, c: Client, ok: bool, created: bool): Client
    requires 0 <= c.current < |ss| == |c.sinks|
  {
    SetupNext(ss, if ok && GetsSink(ss[c.current]) then c.(sinks := c.sinks[c.current := created]) else c)
  }

  predicate AnyOpen(sinks: seq<bool>) {
    exists i :: 0 <= i < |sinks| && sinks[i]
  }

  function NoSinks(n: nat): seq<bool> {
    seq(n, _ => false)
  }

  function ShutDown(c: Client): Client {
    c.(sinks := NoSinks(|c.sinks|), tornDown := c.tornDown || AnyOpen(c.sinks), closed := true)
  }

  function AfterPlaying(c: Client, i: nat): Client
    requires i < |c.sinks|
  {
    var ended := c.(sinks := c.sinks[i := false]);
    if AnyOpen(ended.sinks) then ended else ShutDown(ended)
  }

  // ---------------------------------------------------------------- the plan

  /** The commands that are due from subsession `from` on. */
  function Plan(ss: seq<Subsession>, from: nat): (p: seq<Command>)
    ensures p != [] && p[|p| - 1] == Play
    decreases |ss| - from
  {
    if from >= |ss| then [Play]
    else (if Eligible(ss[from]) then [Setup(from)] else []) + Plan(ss, from + 1)
  }

  lemma TakesFirst(ss: seq<Subsession>, from: nat, next: nat)
    requires from < |ss| && next == from + 1
    ensures Plan(ss, from) == if Eligible(ss[from]) then [Setup(from)] + Plan(ss, next) else Plan(ss, next)
  {
  }

  ghost predicate Entries(ss: seq<Subsession>, p: seq<Command>, from: nat) {
    forall k | 0 <= k < |p| - 1 :: p[k].Setup? && from <= p[k].index < |ss| && Eligible(ss[p[k].index])
  }

  ghost predicate Increasing(p: seq<Command>) {
    forall j, k | 0 <= j < k < |p| - 1 :: p[j].Setup? && p[k].Setup? && p[j].index < p[k].index
  }

  lemma ConsInOrder(ss: seq<Subsession>, rest: seq<Command>, from: nat)
    requires rest != [] && from < |ss| && Eligible(ss[from]) && Entries(ss, rest, from + 1) && Increasing(rest)
    ensures Entries(ss, [Setup(from)] + rest, from) && Increasing([Setup(from)] + rest)
  {
    var p := [Setup(from)] + rest;
    assert forall k :: 0 < k < |p| ==> p[k] == rest[k - 1];
  }

  lemma EntriesFromEarlier(ss: seq<Subsession>, p: seq<Command>, from: nat)
    requires Entries(ss, p, from + 1)
    ensures Entries(ss, p, from)
  {
  }

  lemma {:induction false} PlanIncreases(ss: seq<Subsession>, from: nat)
    requires from <= |ss|
    ensures Entries(ss, Plan(ss, from), from) && Increasing(Plan(ss, from))
    decreases |ss| - from
  {
    if from < |ss| {
      PlanIncreases(ss, from + 1);
      TakesFirst(ss, from, from + 1);
      if Eligible(ss[from]) {
        ConsInOrder(ss, Plan(ss, from + 1), from);
      } else {
        EntriesFromEarlier(ss, Plan(ss, from + 1), from);
      }
    } else {
      assert Plan(ss, from) == [Play];
    }
  }

  lemma {:induction false} PlanIsComplete(ss: seq<Subsession>, from: nat)
    requires from <= |ss|
    ensures forall i | from <= i < |ss| && Eligible(ss[i]) :: Setup(i) in Plan(ss, from)
    decreases |ss| - from
  {
    if from < |ss| {
      PlanIsComplete(ss, from + 1);
    }
  }

  /** SETUP exactly once for each admitted and initiated subsession, in order, then PLAY once. */
  lemma PlanIsInOrder(ss: seq<Subsession>)
    ensures var p := Plan(ss, 0);
            && p[|p| - 1] == Play
            && (forall k | 0 <= k < |p| - 1 :: p[k].Setup? && p[k].index < |ss|)
            && (forall k, s | 0 <= k < |p| - 1 && s == ss[p[k].index] ::
                  (s.medium.Video? || s.codec.H264?) && s.initiates)
            && (forall j, k | 0 <= j < k < |p| - 1 :: p[j].index < p[k].index)
            && (forall i | 0 <= i < |ss| && (ss[i].medium.Video? || ss[i].codec.H264?) && ss[i].initiates ::
                  Setup(i) in p)
  {
    PlanIncreases(ss, 0);
    PlanIsComplete(ss, 0);
  }

  /** What was sent, with what remains to be sent, is the plan; nothing remains once PLAY is sent. */
  ghost predicate OnPlan(ss: seq<Subsession>, whole: seq<Command>, c: Client) {
    && c.next <= |ss| && c.commands != []
    && (c.current == -1 ==> c.commands == whole && c.commands[|c.commands| - 1] == Play)
    && (c.current != -1 ==>
          && c.commands + Plan(ss, c.next) == whole && c.next == c.current + 1
          && c.commands[|c.commands| - 1] == Setup(c.current) && Eligible(ss[c.current]))
  }

  /** The search for the next subsession sends just the next command of the plan. */
  lemma {:induction false} SetupNextFollowsPlan(ss: seq<Subsession>, whole: seq<Command>, c: Client)
    requires c.next <= |ss| && c.commands + Plan(ss, c.next) == whole
    ensures OnPlan(ss, whole, SetupNext(ss, c)) && OneMore(c, SetupNext(ss, c))
    decreases |ss| - c.next
  {
    if c.next < |ss| && !Eligible(ss[c.next]) {
      var moved := c.(next := c.next + 1, current := c.next);
      TakesFirst(ss, c.next, moved.next);
      SetupNextFollowsPlan(ss, whole, moved);
      OneMoreSkipped(c, moved, SetupNext(ss, moved));
      assert SetupNext(ss, c) == SetupNext(ss, moved);
    } else if c.next < |ss| {
      var sent := c.(next := c.next + 1, current := c.next, commands := c.commands + [Setup(c.next)]);
      TakesFirst(ss, c.next, sent.next);
      SendsSetup(ss, whole, c, sent);
    } else {
      SendsPlay(ss, whole, c, c.(current := -1, commands := c.commands + [Play]));
    }
  }

  lemma OneMoreSkipped(c: Client, moved: Client, c': Client)
    requires moved == c.(next := c.next + 1, current := c.next) && OneMore(moved, c')
    ensures OneMore(c, c')
  {
  }

  lemma SendsSetup(ss: seq<Subsession>, whole: seq<Command>, c: Client, c': Client)
    requires c.next < |ss| && Eligible(ss[c.next]) && c.commands + ([Setup(c.next)] + Plan(ss, c'.next)) == whole
    requires c' == c.(next := c.next + 1, current := c.next, commands := c.commands + [Setup(c.next)])
    ensures OnPlan(ss, whole, c') && OneMore(c, c')
  {
    Regroup(c.commands, [Setup(c.next)], Plan(ss, c'.next));
  }

  lemma SendsPlay(ss: seq<Subsession>, whole: seq<Command>, c: Client, c': Client)
    requires c.next == |ss| && c.commands + [Play] == whole && c' == c.(current := -1, commands := c.commands + [Play])
    ensures OnPlan(ss, whole, c') && OneMore(c, c')
  {
  }

  /** One command was sent, and the search went on from where it was. */
  ghost predicate OneMore(c: Client, c': Client) {
    && |c'.commands| == |c.commands| + 1 && c'.sinks == c.sinks && c'.tornDown == c.tornDown && c'.closed == c.closed
    && (c'.current == -1 || c'.current >= c.next)
  }

  // ---------------------------------------------------------------- every run

  /** Answers to the outstanding request, and the end of a stream or a BYE for it. */
  datatype Event = SetupAnswer(ok: bool, created: bool) | PlayAnswer(ok: bool) | Ending(index: nat)

  /** `answers` to requests so far, the sinks `everOpen`, the subsessions that `ended`. */
  datatype History = History(client: Client, answers: nat, everOpen: set<int>, ended: set<int>, playFailed: bool)

  /** A session without subsessions is given up before this. */
  function Begin(ss: seq<Subsession>): History
    requires ss != []
  {
    History(SetupNext(ss, Client(0, -1, NoSinks(|ss|), [], false, false)), 0, {}, {}, false)
  }

  /** A request is answered once; handlers exist for sinks that were opened; a client that was closed gets no event. */
  predicate Enabled(ss: seq<Subsession>, h: History, e: Event) {
    && !h.client.closed && |h.client.sinks| == |ss|
    && match e
       case SetupAnswer(_, _) => 0 <= h.client.current < |ss| && h.answers + 1 == |h.client.commands|
       case PlayAnswer(_) => h.client.current == -1 && h.answers + 1 == |h.client.commands|
       case Ending(i) => i in h.everOpen && i < |ss|
  }

  function Step(ss: seq<Subsession>, h: History, e: Event): History {
    if !Enabled(ss, h, e) then h
    else
      var c := h.client;
      match e
      case SetupAnswer(ok, created) =>
        var opens := ok && created && ss[c.current].medium.Video? && ss[c.current].codec.H264?;
        h.(client := AfterSetup(ss, c, ok, created), answers := h.answers + 1,
           everOpen := h.everOpen + if opens then {c.current} else {})
      case PlayAnswer(ok) =>
        h.(client := if ok then c else ShutDown(c), answers := h.answers + 1, playFailed := !ok)
      case Ending(i) =>
        h.(client := AfterPlaying(c, i), ended := h.ended + {i})
  }

  function Run(ss: seq<Subsession>, events: seq<Event>): History
    requires ss != []
  {
    if events == [] then Begin(ss) else Step(ss, Run(ss, events[..|events| - 1]), events[|events| - 1])
  }

  /** Requests go out one at a time: the next only after the last was answered. */
  ghost predicate OneOutstanding(h: History) {
    if h.client.current == -1 then |h.client.commands| - 1 <= h.answers <= |h.client.commands|
    else h.answers == |h.client.commands| - 1
  }

  /** A sink is open while the client is, from its creation until its stream ends. */
  ghost predicate SinksMatch(ss: seq<Subsession>, h: History) {
    && |h.client.sinks| == |ss|
    && (forall i | 0 <= i < |ss| :: h.client.sinks[i] <==> !h.client.closed && i in h.everOpen && i !in h.ended)
    && h.ended <= h.everOpen
    && (forall i | i in h.everOpen :: 0 <= i < |ss| && Eligible(ss[i]) && GetsSink(ss[i]))
    && (forall i | i in h.everOpen && h.client.current != -1 :: i < h.client.current)
  }

  /**
   The client is closed when PLAY failed or when the last open sink was closed; TEARDOWN is sent just when PLAY
   failed while a sink was open.
   */
  ghost predicate ClosedWhenDone(h: History) {
    && (h.client.closed <==> h.playFailed || (h.ended != {} && h.everOpen <= h.ended))
    && (h.client.tornDown <==> h.playFailed && !(h.everOpen <= h.ended))
  }

  ghost predicate Inv(ss: seq<Subsession>, h: History) {
    OnPlan(ss, Plan(ss, 0), h.client) && OneOutstanding(h) && SinksMatch(ss, h) && ClosedWhenDone(h)
  }

  lemma BeginInv(ss: seq<Subsession>)
    requires ss != []
    ensures Inv(ss, Begin(ss))
  {
    SetupNextFollowsPlan(ss, Plan(ss, 0), Client(0, -1, NoSinks(|ss|), [], false, false));
  }

  lemma SetupAnswerInv(ss: seq<Subsession>, h: History, ok: bool, created: bool)
    requires Inv(ss, h) && Enabled(ss, h, SetupAnswer(ok, created))
    ensures Inv(ss, Step(ss, h, SetupAnswer(ok, created)))
  {
    var c := h.client;
    var after := if ok && GetsSink(ss[c.current]) then c.(sinks := c.sinks[c.current := created]) else c;
    SetupNextFollowsPlan(ss, Plan(ss, 0), after);
  }

  lemma PlayAnswerInv(ss: seq<Subsession>, h: History, ok: bool)
    requires Inv(ss, h) && Enabled(ss, h, PlayAnswer(ok))
    ensures Inv(ss, Step(ss, h, PlayAnswer(ok)))
  {
    OpenSinks(ss, h);
  }

  /** While the client is there, some sink is open if and only if one that was opened has not ended. */
  lemma OpenSinks(ss: seq<Subsession>, h: History)
    requires SinksMatch(ss, h) && !h.client.closed
    ensures AnyOpen(h.client.sinks) <==> !(h.everOpen <= h.ended)
  {
    if AnyOpen(h.client.sinks) {
      var i :| 0 <= i < |h.client.sinks| && h.client.sinks[i];
      assert i in h.everOpen && i !in h.ended;
    } else {
      forall i | i in h.everOpen
        ensures i in h.ended
      {
        assert !h.client.sinks[i];
      }
    }
  }

  lemma EndingInv(ss: seq<Subsession>, h: History, i: nat)
    requires Inv(ss, h) && Enabled(ss, h, Ending(i))
    ensures Inv(ss, Step(ss, h, Ending(i)))
  {
    var sinks := h.client.sinks[i := false];
    var ended := h.ended + {i};
    assert i in ended;
    if AnyOpen(sinks) {
      var j :| 0 <= j < |sinks| && sinks[j];
      assert j in h.everOpen && j !in ended;
    } else {
      assert Step(ss, h, Ending(i)).ended == h.ended + {i};
      forall j | j in h.everOpen
        ensures j in ended
      {
        assert !sinks[j];
      }
    }
  }

  /**
   For every list of subsessions, every outcome of the requests and every order of endings: SETUP goes to the
   admitted and initiated subsessions in order, one at a time, then PLAY once; and the client is closed just
   when the last open sink closes, or when PLAY fails.
   */
  lemma {:induction false} EveryRunFollowsPlan(ss: seq<Subsession>, events: seq<Event>)
    requires ss != []
    ensures Inv(ss, Run(ss, events))
  {
    if events == [] {
      BeginInv(ss);
    } else {
      EveryRunFollowsPlan(ss, events[..|events| - 1]);
      var h, e := Run(ss, events[..|events| - 1]), events[|events| - 1];
      if Enabled(ss, h, e) {
        match e
        case SetupAnswer(ok, created) => SetupAnswerInv(ss, h, ok, created);
        case PlayAnswer(ok) => PlayAnswerInv(ss, h, ok);
        case Ending(i) => EndingInv(ss, h, i);
      }
    }
  }

  /** After k answers the first k + 1 commands of the plan have been sent, whatever else happened. */
  lemma SentAfterAnswers(ss: seq<Subsession>, events: seq<Event>)
    requires ss != []
    ensures var h, plan := Run(ss, events), Plan(ss, 0);
            && h.answers <= |plan|
            && h.client.commands == if h.answers < |plan| then plan[..h.answers + 1] else plan
  {
    EveryRunFollowsPlan(ss, events);
    var h, plan := Run(ss, events), Plan(ss, 0);
  }

  // ---------------------------------------------------------------- the callbacks

  class StreamClient {
    const subsessions: seq<Subsession>
    var next: nat
    var current: int
    const sinks: array<bool>
    var commands: seq<Command>
    var tornDown: bool
    var closed: bool

    ghost predicate Valid()
      reads this
    {
      sinks.Length == |subsessions|
    }

    ghost function Value(): Client
      reads this, sinks
    {
      Client(next, current, sinks[..], commands, tornDown, closed)
    }

    /** A session has been described, and has subsessions. */
    constructor (subsessions: seq<Subsession>)
      ensures Valid() && this.subsessions == subsessions
      ensures Value() == Client(0, -1, NoSinks(|subsessions|), [], false, false)
    {
      this.subsessions := subsessions;
      next, current, commands, tornDown, closed := 0, -1, [], false, false;
      sinks := new bool[|subsessions|](_ => false);
      new;
      assert sinks[..] == NoSinks(|subsessions|);
    }

    method SetupNextSubsession()
      requires Valid()
      modifies this
      ensures Value() == SetupNext(subsessions, old(Value()))
      decreases |subsessions| - next
    {
      if next >= |subsessions| {
        current, commands := -1, commands + [Play];
        return;
      }
      current, next := next, next + 1;
      var subsession := subsessions[current];
      if !(subsession.medium.Video? || subsession.codec.H264?) {
        SetupNextSubsession();
        return;
      }
      if !subsession.initiates {
        SetupNextSubsession();
      } else {
        commands := commands + [Setup(current)];
      }
    }

    method ContinueAfterSetup(resultCode: int, created: bool)
      requires Valid() && 0 <= current < |subsessions|
      modifies this, sinks
      ensures Value() == AfterSetup(subsessions, old(Value()), resultCode == 0, created)
    {
      var subsession := subsessions[current];
      if resultCode == 0 {
        if subsession.medium.Video? {
          if subsession.codec.H264? {
            sinks[current] := created;
          }
        }
      }
      SetupNextSubsession();
    }

    method ContinueAfterPlay(resultCode: int)
      requires Valid()
      modifies this, sinks
      ensures Value() == if resultCode == 0 then old(Value()) else ShutDown(old(Value()))
    {
      if resultCode != 0 {
        ShutdownStream();
      }
    }

    /** Also what a BYE for the subsession leads to. */
    method SubsessionAfterPlaying(i: nat)
      requires Valid() && i < |subsessions|
      modifies this, sinks
      ensures Value() == AfterPlaying(old(Value()), i)
    {
      sinks[i] := false;
      ghost var ended := sinks[..];
      assert ended == old(sinks[..])[i := false];
      for j := 0 to |subsessions|
        invariant sinks[..] == ended && forall k | 0 <= k < j :: !ended[k]
        invariant Value() == old(Value()).(sinks := ended)
      {
        if sinks[j] {
          assert ended[j];
          return;
        }
        assert !ended[j];
      }
      ShutdownStream();
    }

    method ShutdownStream()
      requires Valid()
      modifies this, sinks
      ensures Value() == ShutDown(old(Value()))
    {
      var someActive := false;
      ghost var before := sinks[..];
      for j := 0 to |subsessions|
        modifies sinks
        invariant forall k | 0 <= k < j :: !sinks[k]
        invariant forall k | j <= k < sinks.Length :: sinks[k] == before[k]
        invariant someActive <==> exists k :: 0 <= k < j && before[k]
      {
        if sinks[j] {
          sinks[j] := false;
          someActive := true;
        }
      }
      if someActive {
        tornDown := true;
      }
      closed := true;
      assert sinks[..] == NoSinks(sinks.Length);
      assert someActive <==> AnyOpen(before);
    }
  }
}
