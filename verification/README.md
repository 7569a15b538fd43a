# Verified model of CameraEv

CameraEv receives H.264 video over RTSP, queues and decodes it, and passes frames to other processes. This
project models the parts of it that carry real invariants and proves them in Dafny 4.11:
`dafny verify dfyconfig.toml` checks everything.

| file | models |
|---|---|
| TimerSpec.dfy, TimerRequests.dfy, TimerStack.dfy | the timer stack: OS timer slots, base lists, named lockers that share an OS timer; runs of it refine independent timers with the periods asked for |
| OsTimers.dfy | which OS timers the slot table kills, and when that is another list's; the manager of TimerStack.dfy makes exactly its steps |
| Lockers.dfy, RepeatWork.dfy | the event, and the registry of repeating works as an object whose calls come one at a time |
| WorkRegistry.dfy, WorkQueue.dfy, WorkShutdown.dfy, WorkRunning.dfy, WorkRuns.dfy | the same registry under every interleaving of its calls, the producer/consumer protocol around it, the end of `Deactivate`, the work under execution, and pieces of runs |
| LockOrder.dfy | the mutexes of the timer stack and the repeating works, on any number of threads |
| Wire.dfy, Utf8.dfy, StreamCodec.dfy, CameraCodec.dfy, MalformedInput.dfy, CameraMessages.dfy | the generated protobuf code for `Camera` and its nested `StreamInfo`: wire format, text check, meaning of parse, serialize, size and merge, refused input, and the objects that do it |
| StringUtil.dfy | leftmost split and in-place replacement |
| AnnexB.dfy | assembly of H.264 access units into an Annex B byte stream |
| RingQueue.dfy, DecoderQueue.dfy, DecoderBuffers.dfy, DecoderThread.dfy | the decoder's byte ring, its two queues, its destination buffers, and the end of its thread |
| CopyName.dfy | the generator of copy names |
| RtspSequence.dfy | SETUP, PLAY and shutdown of an RTSP session |
| Common.dfy, Arithmetic.dfy, Decimal.dfy | shared declarations, division facts, decimal text |

Where the program changes objects in place the model has classes (`Locker`, `TimerTable`, `TimerLockerList`,
`TimerLockerManager`, `RepeatWorkProc`, `CodedInputStream`, `CodedOutputStream`, `StreamInfoMessage`,
`CameraMessage`, `ArrayEx`, `H264Sink`, `QueueLocalMemory`, `Decoder`, `DecoderBuffers`, `StreamClient`) whose
methods are proved equal to functions on values; the properties of every run are then proved about those
functions. Concurrency is a step relation over atomic steps, quantified over every interleaving.

Some promises turned out to hold only under a condition, which is proved exactly:

* `Deactivate` of the repeating works returns if and only if the worker has stored its running flag before
  the flag is lowered (`WorkShutdown.DeactivateReturnsIff`); otherwise the store undoes the stop, as it does
  when `Activate` is followed by `Deactivate` at once (`WorkShutdown.ActivateThenDeactivateHangs`). The thread
  of the decoder has the same flag and the same condition, and it must not wait for a frame timer that no
  longer ticks (`DecoderThread.DeactivateReturnsIff`, `DecoderThread.ActivateThenDeactivateHangs`,
  `DecoderThread.KilledTimerHangs`, `DecoderThread.ReplacedTimerHangs`).
* While `Deactivate` waits, the work left for the worker is bounded if and only if no timer of a work is alive
  or about to be made while the worker drains (`WorkShutdown.ShutdownIsBoundedIff`,
  `WorkShutdown.TimerOutlivesShutdown`).
* The two maps of works and timers agree with each other and with the live timers whenever nothing is in
  progress, in every run without a race, and the list of races is exact for the two maps, their iterators and
  the locker pointers (`WorkQueue.RegistryAgrees`, `WorkRegistry.AgreementIffClean`). src/Camera.cpp stops this
  worker (line 125) while the thread that calls AddWork (line 191) still runs, so that an AddWork can straddle the
  clearing (`WorkQueue.AddWorkAcrossClear`); two calls for one id at a time are another case
  (`WorkQueue.OverlappingAddWorks`).
* The work that the worker executes, through a reference into the map, stays registered until it returns if and
  only if neither Deactivate nor the work itself erases it meanwhile (`WorkRunning.RunningStaysRegisteredIff`);
  both can, without a race (`WorkRunning.DeactivateErasesRunningWork`, `WorkRunning.WorkErasesItself`, which is
  what the test in lines 124-153 of include/common/RepeatWorkProc.cpp does).
* A refused OS timer leaves the timers of the other lists running if and only if none of them has the OS id
  that the first free slot still records (`OsTimers.KeepRunningIff`,
  `TimerStack.RequestKeepsRunningIff`, `OsTimers.RefusalKillsAnotherList`).
* A camera with a string that is not UTF-8 is written to a file that cannot be read again
  (`CameraCodec.CameraRoundTrip`, `CameraCodec.BadTextIsUnreadable`): serialization only logs the problem,
  parsing fails on it.
* A full receive buffer can keep a NAL unit without its start code, or a start code without its NAL unit
  (`AnnexB.StartCodeAndNalTogether`, `AnnexB.NalWithoutStartCode`, `AnnexB.StartCodeWithoutNal`).
* A decoded frame has the size that its frame information needs when both critical sections see the same
  information, the frame type is wanted and the resolution is known (`DecoderBuffers.SameInfoAgrees`). It need
  not when `SetFrameInfo` comes between them (`DecoderBuffers.InfoChangesBetween`), when the type is no longer
  wanted (`DecoderBuffers.NoLongerWanted`) or when the resolution is unknown: then all of the buffer is exposed.
* A copy of a copy loses the original name if that name has an opening parenthesis
  (`CopyName.OriginalNameKept`, `CopyName.OpenParenthesisLosesName`).

The model follows the code where its comments say something else:

* include/common/Locker.h says that WakeUp must be called as often as the maximum count for a Wait to go
  through; in the code one WakeUp lets that many waits pass (`Lockers.PassesUpToMaximum`).
* include/common/RepeatWorkProc.h says that AddWork returns 0 on success; it also returns 0 when the OS refuses
  the timer, and then stores a null timer (`RepeatWork.RepeatWorkProc.AddWork`).

Constants and formats: the protobuf wire format follows the Protocol Buffers Encoding document ("Message
Structure", "Last One Wins"), its strings section 3 of RFC 3629, the byte stream ITU-T H.264 section B.1 with the marker bit of RFC 6184 section
5.1, and the command sequence RFC 2326 sections 10.4, 10.5 and 10.7.

## Model

| member | source | states |
|---|---|---|
| TimerSpec.MultiplexingRefinesIndependentTimers | include/common/TimerLockerManager.cpp:152-174 | for every run of creations, deletions, resolution changes and ticks, a locker of period P in the list of base d, n ticks of d after its request, has fired exactly floor(n*d/P) times and its counter is the remainder: the multiplexed timer behaves like one of its own |
| TimerSpec.FiringsDoNotDrift | include/common/TimerLockerManager.cpp:239-273 | with ideal ticks the k-th firing of a locker requested at instant a lies in (a + k*P - d, a + k*P], for every k and every run |
| TimerSpec.FiresExactlyAtMultiples | include/common/TimerLockerManager.cpp:164-171 | at any point of any run the next tick of its base makes a live locker fire exactly when the elapsed ticks make a multiple of its period |
| TimerSpec.InvHoldsOnRuns | include/common/TimerLockerManager.cpp:212-237 | in every run names are unique across all lists, no stored list is empty, each list key divides each member's period, each counter is a multiple of the key and below the period |
| TimerSpec.DivisorProperties | include/common/TimerLockerManager.cpp:239-252 | the base for a period is its least divisor not below the resolution, exists for each clamped period, and is its own base |
| TimerRequests.LiveAsLastAsked | include/common/TimerLockerManager.cpp:254-273 | over every run, read off the events: a live locker has the larger of the milliseconds last requested for its name and the resolution at that request, the callback of that request, and stands in the list of the least divisor of that period not below that resolution |
| TimerRequests.FiresAsAsked | include/common/TimerLockerManager.cpp:152-174 | the law floor(n*d/P) with the P of the request itself |
| TimerRequests.LivesIff | include/common/TimerLockerManager.cpp:254-314 | over every run a name lives if and only if it was created after its last deletion and that request could be served: the OS granted a timer or the list for the period had another member |
| TimerRequests.ListsInOrder | include/common/TimerLockerManager.cpp:96-101 | over every run the lockers of a list stand in the order of their last requests |
| TimerRequests.FiredAreTheDue | include/common/TimerLockerManager.cpp:159-173 | a tick fires exactly the members whose accumulated time reaches their period, each once, in list order |
| TimerSpec.WithoutProperties | include/common/TimerLockerManager.cpp:103-124 | deleting by name from a list with unique names removes exactly the locker of that name and keeps all others, unique |
| TimerStack.TimerTable.CreateTimerId | include/common/TimerEx.cpp:72-83 | the index of the first free slot, or 64 exactly when no slot is free |
| TimerStack.TimerTable.CreateTimer | include/common/TimerEx.cpp:152-171 | a free slot is filled with key and OS handle exactly when the OS grants the timer; on refusal an id is handed out and the table is unchanged |
| TimerStack.TimerTable.DeleteTimer | include/common/TimerEx.cpp:173-189 | frees the slot of the id whether or not it was used, and no other slot, and kills the OS timer recorded there, which may be left over from an earlier use; an id outside the table is an error without effect |
| TimerStack.TimerLockerList.SendEvent | include/common/TimerLockerManager.cpp:152-174 | one pass in place over the lockers: each accumulates the base, the due ones are reset and run their callback, in order; equals the tick of the specification |
| TimerStack.TimerLockerList.DeleteItem | include/common/TimerLockerManager.cpp:103-124 | removes the first locker of the name, if there is one, after waking whoever waits on it, and tells whether there was |
| TimerStack.TimerLockerList.Finalize | include/common/TimerLockerManager.cpp:80-87 | empties the list and frees its slot, also when called a second time, and reports the OS timer that this kills |
| TimerStack.TimerLockerManager.GetDivisor | include/common/TimerLockerManager.cpp:239-252 | the search loop computes the divisor of the specification |
| TimerStack.TimerLockerManager.OsCallback | include/common/TimerEx.cpp:63-70 | a tick of slot i ticks exactly the list whose OS timer sits in slot i, because used slots and stored lists are in bijection and the slot's value is the list's key; a tick of a free slot does nothing |
| TimerStack.TimerLockerManager.CallbackTimer | include/common/TimerLockerManager.cpp:200-210 | the state after a base tick, and the fired lockers in order; an unknown base changes nothing |
| TimerStack.TimerLockerManager.DeleteTimerLocker | include/common/TimerLockerManager.cpp:288-314 | the state after a deletion by name, with the double release of the slot of a list that became empty, which is exactly one step End of OsTimers; the slot bijection and the manager invariant are kept |
| TimerStack.TimerLockerManager.GetList | include/common/TimerLockerManager.cpp:212-237 | the list of a base, created with its OS timer when missing; on refusal nothing is stored, and the slot bijection survives the release of the unused slot; exactly the steps Grant and Refuse of OsTimers |
| TimerStack.TimerLockerManager.GetTimerLockerByTime | include/common/TimerLockerManager.cpp:254-273 | the state after a request (clamp, delete the old holder of the name, find or make the list, append), and the new locker or none exactly when a needed OS timer is refused, the new one with the larger of the period asked for and the resolution; invariant and bijection are kept, and the OS timers go exactly through the end of the list that the old holder leaves empty and the grant or refusal for a new list |
| TimerStack.FreeSlotExists | include/common/TimerEx.cpp:72-83 | fewer stored lists than slots leave a slot free |
| TimerStack.RequestKeepsRunningIff | include/common/TimerLockerManager.cpp:254-273 | a request to the manager leaves every stored list with a running OS timer of its own if and only if it is not refused while some list has the OS id that the first free slot still records |
| OsTimers.StepKeepsRunningIff | include/common/TimerEx.cpp:152-189 | a step that creates, refuses or ends a list leaves every stored list with a running OS timer of its own if and only if it is not a refusal while some stored list has the OS id left over in the first free slot |
| OsTimers.KeepRunningIff | include/common/TimerEx.cpp:152-189 | over any run of such steps every stored list has a running OS timer all the time if and only if no step is such a refusal |
| OsTimers.HarmlessRunsKeepRunning | include/common/TimerEx.cpp:152-189 | over every run without such a refusal each stored list keeps a running OS timer of its own |
| OsTimers.RefusalKillsAnotherList | include/common/TimerEx.cpp:173-189 | a run of five creations and ends after which a refused request kills the OS timer of another list |
| RepeatWork.TimerNameInjective | include/common/RepeatWorkProc.cpp:44-47 | different work ids have different timer names |
| RepeatWork.RepeatWorkProc.AddWork | include/common/RepeatWorkProc.cpp:49-74 | an id already registered is refused without effect; otherwise both maps gain the id, the timer entry being the new locker, with the larger of the period asked for and the resolution, or null when the OS refuses, and the registry stays in agreement with the live lockers |
| RepeatWork.RepeatWorkProc.DeleteWork | include/common/RepeatWorkProc.cpp:76-96 | both maps lose the id and exactly its locker leaves the manager; the branch for a missing timer is never taken |
| RepeatWork.RepeatWorkProc.OsTick | include/common/RepeatWorkProc.cpp:64-67 | an OS tick appends the ids of the fired work lockers to the queue in firing order and sets the token when there was one |
| RepeatWork.TickQueuesOnce | include/common/RepeatWorkProc.cpp:64-67 | a tick queues the id of a registered work exactly once if its locker stands in the ticked list and has accumulated its period, and otherwise not at all |
| RepeatWork.PushesAppend | include/common/RepeatWorkProc.cpp:64-67 | the ids are queued in the order in which the lockers fire |
| RepeatWork.RepeatWorkProc.StopTimers | include/common/RepeatWorkProc.cpp:25-35 | the first part of Deactivate: maps empty, no locker that pushes work is left, lockers of other users survive, flag lowered, worker woken |
| RepeatWork.ForeignEventsKeepRegistry | include/common/TimerLockerManager.cpp:254-314 | nothing that other users of the manager do, and no tick, disturbs the agreement between the registry and the live lockers |
| RepeatWork.CreatingRegisters | include/common/RepeatWorkProc.cpp:62-71 | creating the locker of a new id extends the agreement by exactly that id |
| RepeatWork.DeletingUnregisters | include/common/RepeatWorkProc.cpp:86-88 | deleting the locker of an id shrinks the agreement by exactly that id |
| WorkQueue.SleepingWorkerHasNoWork | include/common/Locker.cpp:14-59 | no lost wakeup: in every interleaving, a worker at Wait without a token and without a callback between push and wake has an empty queue |
| WorkQueue.WakeupsAreNotLost | include/common/RepeatWorkProc.cpp:64-67 | in every interleaving queued work is accompanied by a token or a callback about to set it, whenever the worker is not draining |
| WorkQueue.WorkRunsInFiringOrder | include/common/RepeatWorkProc.cpp:107-120 | the pushed ids are, in order, those dealt with, the one in flight and the queued ones: none lost, doubled or reordered |
| WorkQueue.WorkIsConserved | include/common/RepeatWorkProc.cpp:107-120 | while an id stays registered, firings plus entries pending at its registration = executions + pending entries + those a Deactivate discarded, and none is dropped |
| WorkQueue.QueueIsRecent | include/common/RepeatWorkProc.cpp:38-39 | over every run what is in flight or queued are the last ids pushed since a Deactivate ended: entries stay until they are dealt with and none outlives a Deactivate |
| WorkQueue.WaitsArePaid | include/common/Locker.cpp:14-59 | over every run the worker goes through its wait at most once for each time it was woken |
| WorkQueue.DeletedWorkNeverStarts | include/common/RepeatWorkProc.cpp:113-119 | from any state on, in every interleaving, a work that is not registered and not registered again is never started: its queued entries are dropped |
| WorkQueue.RegistryAgrees | include/common/RepeatWorkProc.cpp:49-96 | in every interleaving of timer callbacks, worker, AddWork and DeleteWork on any threads, and Deactivate, in which no call races: an id without a call in progress, while Deactivate does not clear, is in both maps or in neither, and its timer entry points at the live locker or is null when there is none |
| WorkQueue.AddWorkAcrossClear | include/common/RepeatWorkProc.cpp:28-32 | a reachable run of the whole protocol: an AddWork past line 59 when Deactivate clears leaves a live timer with an entry and no work |
| WorkQueue.OverlappingAddWorks | include/common/RepeatWorkProc.cpp:51-71 | a reachable run of the whole protocol: two AddWork calls at a time for one id leave an entry that points at a deleted locker |
| WorkRegistry.AgreementIffClean | include/common/RepeatWorkProc.cpp:49-96 | the condition is exact: after any race-free run a step races (AddWork past its check while another call for the id is in progress, or inserting while Deactivate clears; DeleteWork of an id with a null timer, or overlapping a call for it or Deactivate; Deactivate starting to clear with a null timer, an AddWork past line 59 or a DeleteWork) if and only if some race-free continuation ends in disagreement at rest or follows a null or dangling locker pointer or an invalid iterator |
| WorkRegistry.CleanRunKeepsInv | include/common/RepeatWorkProc.cpp:49-96 | what race-free runs keep at every step: each call in progress finds in the maps and among the live timers what its line relies on, and everything else agrees |
| WorkRunning.RunningStaysRegisteredIff | include/common/RepeatWorkProc.cpp:113-119 | over every run, whatever else is interleaved, the work that the worker executes through a reference into the map is registered all the time if and only if Deactivate never executes line 32, and no work line 92 for itself, while a registered work runs |
| WorkRunning.NothingIsOverwritten | include/common/RepeatWorkProc.cpp:57-60 | in every run line 59 never assigns to a registered work while a work is executed |
| WorkRunning.DeactivateErasesRunningWork | include/common/RepeatWorkProc.cpp:28-32 | a reachable run without a race in which Deactivate erases the function that the worker executes |
| WorkRunning.WorkErasesItself | include/common/RepeatWorkProc.cpp:90-93 | a reachable run without a race in which a work that deletes itself erases the function that is being executed |
| WorkShutdown.DeactivateReturnsIff | include/common/RepeatWorkProc.cpp:25-42 | in every interleaving, whatever is registered meanwhile: once Deactivate has woken the worker, it can return if and only if the worker had executed line 100 before the flag was lowered |
| WorkShutdown.OvertakenShutdownHangs | include/common/RepeatWorkProc.cpp:98-106 | when the flag is lowered before the worker stores it, the store undoes the stop and Deactivate never returns |
| WorkShutdown.ActivateThenDeactivateHangs | include/common/RepeatWorkProc.cpp:17-42 | a reachable failure: Activate, then Deactivate up to the wake before the new thread runs |
| WorkShutdown.ShutdownIsBoundedIff | include/common/RepeatWorkProc.cpp:98-122 | while Deactivate waits and no work calls AddWork, the steps that the worker still makes are bounded if and only if it is not draining or no timer of a work is alive or about to be made; then by three per queued entry and a constant |
| WorkShutdown.ShutdownHasNoBound | include/common/RepeatWorkProc.cpp:107-120 | with the worker draining and a timer alive, or about to be made, it can make any number of steps while Deactivate waits |
| WorkShutdown.TimerOutlivesShutdown | include/common/RepeatWorkProc.cpp:28-36 | a reachable shutdown without a bound and without a race: an AddWork between lines 32 and 34 makes a timer, and the worker makes any number of steps while Deactivate waits |
| WorkShutdown.RegisteringWorkHasNoBound | include/common/RepeatWorkProc.cpp:49-74 | a work that registers another one from the worker during the shutdown takes the bound away |
| WorkShutdown.ShutdownNeverBlocks | include/common/RepeatWorkProc.cpp:25-42 | until the worker has left its loop its thread can always make its next step; afterwards the join returns |
| WorkShutdown.WorkerExits | include/common/RepeatWorkProc.cpp:98-122 | the worker alone gets through everything that is queued and to its exit |
| Lockers.PassesUpToMaximum | include/common/Locker.cpp:14-59 | in every run the next wait goes through exactly when fewer waits than the maximum were tried since the last WakeUp: one WakeUp lets that many waits pass, wakeups do not add up |
| Lockers.AutoResetEvent | include/common/Locker.cpp:48-59 | with the default maximum of one a wait goes through exactly when a WakeUp came after the last wait, as the token of WorkQueue does |
| Lockers.Locker.WaitProc | include/common/Locker.cpp:14-24 | takes one from a positive count and lets the thread go; otherwise nothing changes |
| Lockers.Locker.WakeUp | include/common/Locker.cpp:48-59 | fills the count to the maximum, whatever it was |
| LockOrder.SourceIsDisciplined | include/common/RepeatWorkProc.cpp:25-122 | every entry point, also a work that adds or deletes works from the worker, acquires along repeat, items, lockers or timers, event |
| LockOrder.NoCircularWait | include/common/TimerLockerManager.cpp:80-124 | for any number of threads running any entry points in any interleaving, no reachable state has a circular wait for mutexes and for the worker that Deactivate joins |
| LockOrder.DeadlockFree | include/common/TimerEx.cpp:152-189 | as long as some thread is inside an entry point, the join of Deactivate included, some thread can proceed |
| CameraCodec.CameraRoundTrip | include/proto/CameraInfoFile.pb.cc:1114-1226 | parsing a serialized camera, with any number of nested streams and any unknown fields, gives the camera back if and only if each of its strings encodes some sequence of Unicode scalar values, and fails otherwise |
| Utf8.AcceptsJustTexts | include/proto/CameraInfoFile.pb.cc:1124-1134 | VerifyUtf8String accepts a byte sequence if and only if it is the concatenation of the one- to four-byte encodings of some sequence of Unicode scalar values, 0 to 10FFFF without the surrogates |
| CameraCodec.BadTextIsUnreadable | include/proto/CameraInfoFile.pb.cc:1120-1134 | a camera whose guid is the byte FF is written to bytes that do not parse |
| CameraCodec.ConcatenationIsMerge | include/proto/CameraInfoFile.pb.cc:1330-1346 | parsing the bytes of a followed by those of b gives the merge of b into a: streams appended, default-valued fields of b not overwriting |
| CameraCodec.CameraFieldsMerge | include/proto/CameraInfoFile.pb.cc:1330-1346 | applying the fields that a camera serializes to, one by one, is merging the camera |
| CameraCodec.SwapCameraFields | include/proto/CameraInfoFile.pb.cc:1114-1178 | swapping two neighbouring fields of different numbers, at least one of them known, does not change the parse |
| CameraCodec.CameraSizeExact | include/proto/CameraInfoFile.pb.cc:1272-1313 | the size computed beforehand is the length of the serialization, nested length prefixes included |
| CameraCodec.ReadNested | include/proto/CameraInfoFile.pb.cc:1155-1164 | a nested message is read back, its length prefix delimiting exactly it |
| CameraCodec.ParseSerializedCamera | include/proto/CameraInfoFile.pb.cc:1114-1178 | parsing serialized bytes in front of any further bytes into any message merges and goes on with the rest |
| StreamCodec.StreamRoundTrip | include/proto/CameraInfoFile.pb.cc:461-614 | the same round trip for the nested message, under the same condition on its strings |
| StreamCodec.FieldsMerge | include/proto/CameraInfoFile.pb.cc:870-908 | applying the fields that a stream info serializes to is merging it |
| StreamCodec.SwapStreamFields | include/proto/CameraInfoFile.pb.cc:461-614 | swapping two neighbouring fields of different numbers, at least one of them known, does not change the parse |
| StreamCodec.KnownFieldsAscend | include/proto/CameraInfoFile.pb.cc:617-693 | the tags of the known fields of a serialization ascend strictly |
| StreamCodec.StreamSizeExact | include/proto/CameraInfoFile.pb.cc:778-853 | the computed size is the length of the serialization |
| Wire.ReadEncoded | include/proto/CameraInfoFile.pb.cc:505-512 | a number below 2^64 written as a varint is read back, whatever follows, and truncated to 32 bits for a 32-bit field |
| Wire.VarintDigits | include/proto/CameraInfoFile.pb.cc:624-660 | byte i of an encoded number holds its i-th group of seven bits, with the top bit set on all but the last byte |
| Wire.VarintSizeIsLength | include/proto/CameraInfoFile.pb.cc:820-848 | the multiply-and-shift size formula gives the length of the encoding |
| Wire.SkipEncoded | include/proto/CameraInfoFile.pb.cc:597-603 | an unknown field, nested groups included, is kept as it was written |
| CameraMessages.StreamIsSerializedTo | include/proto/CameraInfoFile.pb.cc:617-693 | the serialization byte for byte: the tags 10, 18, 24, 34, 42, 48, 56, 64 and 72 in this order before the values that are not the default, then the unknown fields |
| CameraMessages.CameraIsSerializedTo | include/proto/CameraInfoFile.pb.cc:1186-1226 | the serialization byte for byte: guid behind 10, name behind 18, each stream behind 26 and its length, then the unknown fields |
| MalformedInput.NestedMustFit | include/proto/CameraInfoFile.pb.cc:1155-1164 | bytes given as a nested message are accepted if and only if parsing them one recursion level deeper ends exactly where their length says |
| MalformedInput.LengthRefused | include/proto/CameraInfoFile.pb.cc:1155-1164 | a length beyond the input, or negative as an int, is refused for strings and for nested messages |
| MalformedInput.StopsWithoutError | include/proto/CameraInfoFile.pb.cc:596-600 | parsing stops without an error at the end of the input, at a zero tag and at a number that does not end within ten bytes, and tells the first from the others |
| MalformedInput.NoFieldFails | include/proto/CameraInfoFile.pb.cc:597-603 | field number 0, the wire types 6 and 7, and the end of a group that was not begun make parsing fail |
| MalformedInput.GroupRefused | include/proto/CameraInfoFile.pb.cc:601-603 | a group beyond the recursion budget or with the end tag of another group is refused |
| CameraMessages.CodedInputStream.ReadVarint | include/proto/CameraInfoFile.pb.cc:505-512 | the byte loop computes the varint of the specification and consumes exactly its bytes |
| CameraMessages.CodedInputStream.ReadTagOrZero | include/proto/CameraInfoFile.pb.cc:466-469 | the next tag, or 0 with the note whether the end was reached |
| CameraMessages.StreamInfoMessage.MergePartialFromCodedStream | include/proto/CameraInfoFile.pb.cc:461-614 | the parse loop fails or leaves the message exactly as the specification says |
| CameraMessages.StreamInfoMessage.ReadField | include/proto/CameraInfoFile.pb.cc:470-605 | the dispatch on the tag, with wrong wire types treated as unknown fields |
| CameraMessages.StreamInfoMessage.SerializeWithCachedSizes | include/proto/CameraInfoFile.pb.cc:617-693 | appends the serialization: fields in order, defaults left out, unknown fields last |
| CameraMessages.StreamInfoMessage.ByteSizeLong | include/proto/CameraInfoFile.pb.cc:778-853 | returns and caches the exact length of the serialization |
| CameraMessages.StreamInfoMessage.MergeFrom | include/proto/CameraInfoFile.pb.cc:870-908 | field-wise merge in place |
| CameraMessages.CameraMessage.MergePartialFromCodedStream | include/proto/CameraInfoFile.pb.cc:1114-1184 | the parse loop with nested messages under their limits fails or leaves the message exactly as the specification says |
| CameraMessages.CameraMessage.ReadMessage | include/proto/CameraInfoFile.pb.cc:1155-1164 | a nested message is parsed under its length limit and one recursion level, and must end where the limit is |
| CameraMessages.CameraMessage.ByteSizeLong | include/proto/CameraInfoFile.pb.cc:1272-1313 | returns and caches the exact length, and leaves the exact length in each nested message |
| CameraMessages.CameraMessage.SerializeWithCachedSizes | include/proto/CameraInfoFile.pb.cc:1186-1226 | relying on the cached nested sizes, appends exactly the serialization |
| CameraMessages.CameraMessage.Serialize | include/proto/CameraInfoFile.pb.cc:1186-1313 | sizes first, then bytes: the bytes are the serialization and their number is the cached size |
| CameraMessages.CameraMessage.MergeFrom | include/proto/CameraInfoFile.pb.cc:1330-1346 | merge in place with copies of the nested messages |
| StringUtil.ReplaceAll | include/common/Util.cpp:327-340 | the in-place loop ends and gives the pieces of the leftmost split joined with the replacement |
| StringUtil.EmptyPatternNeverEnds | include/common/Util.cpp:333-337 | with an empty pattern the loop finds it again after any number of turns, with the whole text still ahead |
| StringUtil.EmptyIsFoundAtOnce | include/common/Util.cpp:361-367 | an empty separator is found where the search starts and nowhere else, so the split loop never gets past it |
| StringUtil.SplitString | include/common/Util.cpp:357-372 | appends the pieces of the leftmost split |
| StringUtil.SplitDelimiter | include/common/Util.cpp:391-399 | appends the same pieces, without the last one if the text is empty or ends with the delimiter |
| StringUtil.SplitIsLeftmost | include/common/Util.cpp:357-372 | the text is cut at its first separator and the rest in the same way; without a separator it is the one piece |
| StringUtil.JoinAfterSplit | include/common/Util.cpp:357-372 | joining the pieces with the separator gives the text back, so replacing a pattern by itself changes nothing |
| StringUtil.PiecesFreeOfSeparator | include/common/Util.cpp:357-372 | no piece contains the separator |
| StringUtil.SplitAfterJoin | include/common/Util.cpp:357-372 | for a separator without border, splitting undoes joining if and only if no piece contains the separator |
| StringUtil.IndexOfIsLeftmost | include/common/Util.cpp:361 | the search reports the leftmost occurrence, and none exactly when there is none |
| AnnexB.UnitsAreDelivered | src/live555/rtsp_H264Sink.cpp:212-236 | over any run of packets the delivered frames are those of the access units cut at the markers, each assembled from its own packets alone |
| AnnexB.FrameIsAnnexB | src/live555/rtsp_H264Sink.cpp:212-236 | a frame is the start-coded NAL units in order with the parameter sets before the last one, each behind the bytes 0, 0, 0, 1, if and only if that fits the 426016 bytes of the receive buffer |
| AnnexB.NalsAreRecovered | src/live555/rtsp_H264Sink.h:44 | when the unit fits, splitting the frame at the bytes 0, 0, 0, 1 gives exactly its NAL units if and only if none of them contains the start code |
| AnnexB.SpropToFrame | src/live555/rtsp_H264Sink.cpp:288-342 | the same from the session description's records on, if and only if no NAL unit contains the start code |
| AnnexB.OverflowKeepsWholePieces | src/live555/rtsp_H264Sink.h:17-26 | on overflow a frame is still a sequence of whole pieces in their order and never exceeds the capacity |
| AnnexB.StartCodeAndNalTogether | src/live555/rtsp_H264Sink.cpp:338-342 | a NAL unit and its start code are kept or dropped together if and only if the stated condition on the room left holds: at the end of the buffer one can be kept without the other |
| AnnexB.NalWithoutStartCode | src/live555/rtsp_H264Sink.cpp:212-236 | a run of three packets, of 425984, 22 and 1 bytes, whose frame has the third NAL unit without its start code |
| AnnexB.StartCodeWithoutNal | src/live555/rtsp_H264Sink.cpp:212-236 | a run of three packets, the first two of 425984 and 20 bytes, whose frame ends in a start code without the third NAL unit |
| AnnexB.HeaderIsAnnexB | src/live555/rtsp_H264Sink.cpp:288-326 | the header is the start-coded SPS and PPS records if and only if they fit 1024 bytes |
| AnnexB.ParameterSetsAre | src/live555/rtsp_H264Sink.cpp:300-318 | the parameter sets are the records whose NAL unit type is 7 or 8 |
| AnnexB.ParameterSetsInOrder | src/live555/rtsp_H264Sink.cpp:300-318 | they keep their order and number |
| AnnexB.KeyFramesFollowMarkers | src/live555/rtsp_H264Sink.cpp:130-152 | over any run of non-empty packets a delivered frame is flagged as key frame exactly when the NAL unit of its marker packet is an IDR slice; the other NAL units of the unit do not matter |
| AnnexB.ArrayEx.Append | src/live555/rtsp_H264Sink.h:17-26 | appends the piece whole, or leaves the contents and returns 0 when it does not fit |
| AnnexB.H264Sink.AfterGettingFrame | src/live555/rtsp_H264Sink.cpp:156-273 | in place, the step of the specification: header before the marker's NAL unit, delivery, clearing |
| AnnexB.H264Sink.SetSpropRecords | src/live555/rtsp_H264Sink.cpp:288-326 | the header is rebuilt from the SPS and PPS records; true exactly when it is not empty |
| RingQueue.QueueLocalMemory.Push | src/decoder/Decoder.cpp:162 | the ring takes the bytes at its end, around the end of the buffer, exactly when they leave one byte free (the call into lines 93-133 of include/common/QueueLocalMemory.cpp) |
| RingQueue.QueueLocalMemory.Front | src/decoder/Decoder.cpp:288 | copies out the oldest bytes exactly when there are enough, without removing them (lines 135-170 there) |
| RingQueue.QueueLocalMemory.Pop | src/decoder/Decoder.cpp:292 | removes exactly what the last Front copied (lines 172-188 there) |
| RingQueue.QueueLocalMemory.Initialize | src/decoder/Decoder.cpp:41-45 | a queue that was never used starts empty; the positions of a used one are not reset (lines 52-64 there) |
| DecoderQueue.DecodedInPushOrder | src/decoder/Decoder.cpp:154-171 | over every run Decode gets the accepted frames with their exact bytes, at most once, in push order, none skipped, none before its accumulate time; the rest is queued |
| DecoderQueue.AcceptedAreThePushes | src/decoder/Decoder.cpp:154-171 | over every run, read off the events: the accepted frames are, in order, those of the pushes with a positive size, before the shutdown, that leave one of 1048576 bytes free, each with the first data_size bytes of its push, its metadata and its instant |
| DecoderQueue.DecodedAfterAccumulateTime | src/decoder/Decoder.cpp:278-282 | over every run a frame is decoded no earlier than the accumulate time after the instant of its own push |
| DecoderQueue.PollDecodesIff | src/decoder/Decoder.cpp:270-293 | at any point of any run a pass of the loop decodes the oldest frame not yet decoded if and only if the accumulate time since its push is over |
| DecoderQueue.Decoder.Value | src/decoder/Decoder.cpp:154-171 | in every state of the decoder the byte queue and the metadata queue hold equally many frames, each with as many bytes as its metadata says |
| DecoderQueue.NothingAfterFinish | src/decoder/Decoder.cpp:52-63 | after Finalize nothing is accepted or decoded |
| DecoderQueue.PushKeepsLockstep | src/decoder/Decoder.cpp:161-170 | bytes and metadata pushed together extend the frames by exactly one |
| DecoderQueue.Decoder.QueuePush | src/decoder/Decoder.cpp:154-171 | error 1 for a size that is not positive, 2 when finalized or out of room, both without effect; otherwise the frame joins both queues, which stay in lockstep, with its metadata and the present instant |
| DecoderQueue.Decoder.TakeFrame | src/decoder/Decoder.cpp:270-293 | the oldest frame with its exact bytes, if and only if it is due |
| DecoderQueue.Decoder.Finalize | src/decoder/Decoder.cpp:52-63 | both queues end up empty and closed |
| DecoderThread.DeactivateReturnsIff | src/decoder/Decoder.cpp:75-83 | with the frame timer left alone from then on, Deactivate can return if and only if, when the flag was lowered, the thread was never started or had executed line 264, and was not stranded: before or at the wait of line 324 without a token, for a timer that does not tick or a locker that is gone |
| DecoderThread.OvertakenHangs | src/decoder/Decoder.cpp:264-265 | otherwise, in every interleaving, the store undoes the stop and the join never returns |
| DecoderThread.StrandedHangs | src/decoder/Decoder.cpp:324 | a stranded thread stays at the wait: in every interleaving when the locker is gone, and as long as the frame timer is left alone when its OS timer is killed |
| DecoderThread.StoppingIsBounded | src/decoder/Decoder.cpp:264-324 | a thread that is stopping makes at most three more steps, whatever happens to its timer |
| DecoderThread.ActivateThenDeactivateHangs | src/decoder/Decoder.cpp:65-83 | a reachable failure: Activate, and Deactivate before the new thread runs |
| DecoderThread.KilledTimerHangs | src/decoder/Decoder.cpp:324 | a reachable failure with line 264 executed: the OS timer is killed while the thread waits |
| DecoderThread.ReplacedTimerHangs | src/decoder/Decoder.cpp:312-324 | a reachable failure with line 264 executed: another decoder asks for the locker of the same name, and after one last pass no future returns |
| DecoderBuffers.DecoderBuffers.DeliverFrame | src/decoder/Decoder.cpp:295-320 | whatever frame information the two critical sections see, at the callback each buffer is null and empty or the current one with at most its length, and the callback is skipped exactly when decoding failed or a buffer grew; the delivered size is the one needed at the second critical section, or all of the buffer where nothing is wanted there or the resolution is unknown, and it agrees with the delivered frame information exactly when that needs as much |
| DecoderBuffers.SameInfoAgrees | src/decoder/Decoder.cpp:207-244 | with the same information at both critical sections the size agrees with it if and only if the frame type is wanted or its buffer is empty, once the resolution is known |
| DecoderBuffers.InfoChangesBetween | src/decoder/Decoder.cpp:295-320 | a run in which SetFrameInfo falls between the critical sections: a frame of 8 bytes with information that needs 12 |
| DecoderBuffers.NoLongerWanted | src/decoder/Decoder.cpp:295-320 | a run in which a frame type is no longer wanted: a frame of 12 bytes with information that needs none |
| DecoderBuffers.DecoderBuffers.SetDstBufferInfo | src/decoder/Decoder.cpp:207-220 | exposes each non-empty buffer with its full length and copies the frame information |
| DecoderBuffers.DecoderBuffers.SetAllocBuffer | src/decoder/Decoder.cpp:222-244 | each wanted frame type gets the size of its picture, its buffer the larger of that and its old length; the result tells whether one was replaced |
| DecoderBuffers.PictureSize | src/decoder/Decoder.cpp:113-140 | 24-bit pictures take height rows of the least multiple of four bytes that holds 3 * width, YUY2 two bytes a pixel, YV12 a plane and half as much again rounded down, other formats nothing |
| DecoderBuffers.NeededIsSize | src/decoder/Decoder.cpp:228-235 | nothing is needed for a frame type without a format, not wanted or of unknown resolution, and a picture of its kind otherwise |
| DecoderBuffers.LossesBoundedByChanges | src/decoder/Decoder.cpp:305-309 | over any run every frame lost to reallocation but the first is paid for by a change of the frame information |
| DecoderBuffers.AtMostOneMoreLoss | src/decoder/Decoder.cpp:305-309 | once the information stops changing at most one more decoded frame is lost |
| DecoderBuffers.BuffersOnlyGrow | src/decoder/Decoder.cpp:236-240 | over any run no buffer shrinks, and the information just seen needs no further growth |
| DecoderBuffers.LineSize | src/decoder/Decoder.cpp:121 | rows of 24-bit pixels are padded to the next multiple of four bytes and no further |
| CopyName.UnusedName | include/common/FileOperations.cpp:241-252 | for every start name and every finite set of existing files the renaming loop ends, on the first generated name that no file has |
| CopyName.NumberedFromThree | include/common/FileOperations.cpp:308-354 | from the third rename on the names are "Copy (k) of T" with k counting up, T, folder and extension fixed, and no name comes twice |
| CopyName.ThreeSteps | include/common/FileOperations.cpp:318-349 | every name has the numbered form after three renames |
| CopyName.NumbersCountUp | include/common/FileOperations.cpp:342-346 | the name after number k is number k + 1 of the same text |
| CopyName.FirstCopy | include/common/FileOperations.cpp:318-322 | a file whose name has no "Copy " in it becomes "Copy of " and that name, in the same folder and with the same extension |
| CopyName.PathParts | include/common/FileOperations.cpp:308-317 | the name and the extension, from the last dot on, hold no separator; the folder ends in a separator or behind the colon of a drive; together they are the path |
| CopyName.OriginalNameKept | include/common/FileOperations.cpp:325-347 | for a name without "Copy " the second rename is copy number 1 of that name if and only if the name has no opening parenthesis |
| CopyName.UnclosedNameIsLost | include/common/FileOperations.cpp:331-347 | with an opening parenthesis that is never closed the second rename is "Copy of " and nothing else |
| CopyName.OpenParenthesisLosesName | include/common/FileOperations.cpp:331-347 | the case of the name a(b |
| CopyName.FolderAndExtensionStay | include/common/FileOperations.cpp:351 | splitting a renamed path gives the same folder and extension and the renamed name |
| CopyName.FirstOutside | include/common/FileOperations.cpp:246-249 | repeated application ends on the first result outside a finite set when from some point on no result comes twice |
| RtspSequence.EveryRunFollowsPlan | src/live555/rtsp_callback.cpp:201-309 | for any subsessions, outcomes and endings: requests go out one at a time along the plan, sinks are open from creation to ending, and the client is closed exactly when the last open sink closes or PLAY fails; TEARDOWN is sent if and only if PLAY failed while a sink that had been opened had not ended |
| RtspSequence.PlanIsInOrder | src/live555/rtsp_callback.cpp:201-285 | the plan is SETUP exactly once for each subsession that is video or H.264 and could be initiated, in order, then PLAY once |
| RtspSequence.SentAfterAnswers | src/live555/rtsp_callback.cpp:81-151 | after k answers exactly the first k + 1 commands of the plan have been sent |
| RtspSequence.SetupNextFollowsPlan | src/live555/rtsp_callback.cpp:201-285 | the search for the next subsession sends exactly the next command of the plan |
| RtspSequence.StreamClient.SetupNextSubsession | src/live555/rtsp_callback.cpp:201-285 | the recursive search, in place, equals the one of the specification |
| RtspSequence.StreamClient.ContinueAfterSetup | src/live555/rtsp_callback.cpp:81-151 | a sink only for a successful SETUP of H.264 video, then the next subsession |
| RtspSequence.StreamClient.SubsessionAfterPlaying | src/live555/rtsp_callback.cpp:290-309 | closes the sink, and shuts the client down exactly when no other is open |
| RtspSequence.StreamClient.ShutdownStream | src/live555/rtsp_callback.cpp:334-370 | closes all sinks and the client, with TEARDOWN exactly when one was open |
| Decimal.DecimalDigits | include/common/RepeatWorkProc.cpp:44-47 | the text of a number has its decimal digits, the highest first, without a leading zero |
| Decimal.AtoiAfterToString | include/common/FileOperations.cpp:344-346 | reading back the decimal text of an integer gives the integer |

## Left out

Statements that are weaker than the program's full behaviour:

- WorkQueue.WakeupsAreNotLost: pushes to and pops from the work queue, and single operations on the maps, are taken as atomic, although the program guards only some of them with a mutex. The same holds for the other lemmas of WorkQueue, WorkRegistry and WorkShutdown.
- WorkQueue.WorkRunsInFiringOrder: Activate is not called while a started worker has not yet stored its running flag, the program checking only that flag, and Deactivate is called by one thread at a time and not from a work, where it would join its own thread.
- WorkRegistry.AgreementIffClean: the continuations are those of the registry alone; the mutex of the repeating works, which only delays lines 59 and 92, is part of WorkQueue. A step that follows a null or dangling locker pointer or an invalid iterator is recorded and the run goes on. The reference through which the worker calls a work is the subject of WorkRunning.
- WorkShutdown.ShutdownIsBoundedIff: that no work calls AddWork while Deactivate waits is part of the statement; what such a call does is WorkShutdown.RegisteringWorkHasNoBound.
- RepeatWork.RepeatWorkProc.AddWork: calls of the registry come one at a time in this class, and a new base list needs a free slot; overlapping calls are the subject of WorkQueue.RegistryAgrees and WorkRegistry.AgreementIffClean.
- RepeatWork.RepeatWorkProc.DeleteWork: requires that the OS granted the timer of the work; the program follows the stored pointer without a check, which is one of the races of WorkRegistry.AgreementIffClean.
- RepeatWork.RepeatWorkProc.StopTimers: the same, for every registered work.
- TimerStack.TimerTable.CreateTimer: requires a free slot when the OS grants the timer; with a full table the program writes at the index 64, outside the table. The same holds for GetList and, when no existing list serves the request, for GetTimerLockerByTime.
- TimerStack.TimerLockerManager.GetList: see CreateTimer.
- TimerStack.TimerLockerManager.GetTimerLockerByTime: see CreateTimer; the resolution is positive. A locker object is a value held by its list, with an address that stands for pointer identity, and its own event is left to WorkQueue.
- TimerStack.TimerLockerManager.DeleteTimerLocker: visits the bases in any order, the program in ascending order; names are unique, so the result is the same.
- TimerStack.TimerLockerManager.OsCallback: no OS callback arrives after its timer was killed, and callbacks are serialized by the manager's mutex.
- WorkRunning.RunningStaysRegisteredIff: lines 113 to 119, from the lookup to the call, are one step, and a run goes on after the function under execution was erased.
- OsTimers.StepKeepsRunningIff: an OS id is in use by one running timer at a time, and killing an id that is not in use has no effect.
- TimerSpec.FiringsDoNotDrift: ticks are ideal; jitter of the OS and of the clock is not modelled.
- Lockers.PassesUpToMaximum: the maximum does not change during the run, and a blocked wait is a series of tries; which waiting thread is notified is left to the condition variable.
- LockOrder.DeadlockFree: works call no Deactivate and do not wait for events; stopping a streamer from a work joins other threads and is not modelled. A worker that waits for its event is idle there: whether it is woken and leaves its loop is the subject of WorkQueue and WorkShutdown.
- CameraCodec.CameraRoundTrip: strings and nested messages are below 2 GB, so sizes fit an int, and unknown groups are nested within the recursion budget. The protobuf runtime is not part of the repository: varints, tags, skipping and limits are taken from its Encoding document, and a nested length beyond the remaining input counts as failure.
- StringUtil.ReplaceAll: the pattern must not be empty; on an empty one the program loops forever, as StringUtil.EmptyPatternNeverEnds says. The narrow and wide overloads are one generic member.
- StringUtil.SplitString: the separator must not be empty, for the same reason (StringUtil.EmptyIsFoundAtOnce).
- CameraMessages.CameraMessage.MergePartialFromCodedStream: says nothing about the partly merged message that a failure leaves behind.
- CameraMessages.StreamInfoMessage.MergePartialFromCodedStream: the same.
- AnnexB.KeyFramesFollowMarkers: packets are not empty; for an empty one the program looks at the first byte that an earlier packet left in its buffer.
- AnnexB.UnitsAreDelivered: the normal parse mode only; the other mode is switched off in the program. The decoding of the parameter sets from the session description is a given list of records.
- RingQueue.QueueLocalMemory.Pop: requires that the queue was not finalized between Front and Pop; the decoder holds its lock over both.
- RingQueue.QueueLocalMemory.Initialize: says that the positions of a used queue are kept, and leaves what such a queue then contains open; the decoder makes a new queue each time.
- DecoderQueue.DecodedInPushOrder: what Decode returns is arbitrary, times are integers, and the choice of the frame rate with its timer is left out, since every decoder asks the manager for the same timer name.
- DecoderThread.DeactivateReturnsIff: the passes of the loop end; Activate is not called again before the join; a changed frame rate gets a locker, where the program would follow a null pointer if the OS refused its timer; and a locker that is gone is taken to be never set again, while the program then reads freed memory.
- DecoderBuffers.DecoderBuffers.SetAllocBuffer: widths and heights are not negative and sizes do not overflow an int; a grown buffer is always a new one, and the pixels that Decode writes are left out.
- CopyName.UnusedName: files do not appear or vanish during the loop, integers are unbounded and paths have no length limit.
- RtspSequence.EveryRunFollowsPlan: the session has a subsession; one without any is given up before the first command. A closed client gets no further event; the second shutdown in Session_RTSP.cpp, the end-of-duration timer and DESCRIBE are outside.

Parts of the repository without a model:

- Streamer.cpp and Camera.cpp: flags around start and stop calls; they would add only easy members.
- The message types CameraWatchdog, System and CameraInfo, and deepview.pb.cc: no harder case than Camera.
- In the generated code: arenas, descriptors, reflection, swap, the array serializer and the experimental parser.
- Decoder_FFmpeg.cpp, Converter_FFmpeg.cpp, FFmpeg.cpp: wrappers over a library that is not part of this model.
- Session_RTSP.cpp, RtspSession.cpp and the live555 event loop, sockets and authentication.
- Shared-memory queues, packet readers and writers, send and receive workers.
- The Linux timer class of TimerEx.cpp and the counting of timeBeginPeriod and timeEndPeriod.
- FPSChecker.cpp and other floating-point measurements, windows, logging, code pages, command line.
