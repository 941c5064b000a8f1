# FlowerBox, verified

A Dafny model of the algorithmic cores of the FlowerBox firmware, with proofs. Where the firmware
changes state in place, the model does too: classes with the same fields, methods with the same
branches, loops over arrays. Each such method is proved equal to a function or relation on values,
and the theorems are about that function, over every input, every run or every interleaving.

- **1-Wire ROM search** (`OneWire.dfy`). The bus is a set of codes of any equal width, of which an active subset
  answers: a read slot gives the wired AND, a direction bit silences the devices that differ. One pass of
  the search returns the next code in order (bit 0 first), and the search returns the devices of the
  bus, each once, in that order, for every `maxdevs`. The case of two ones, which the code
  answers with `num_found = -2` and then an index of -2, is proved unreachable on such a bus.
- **Template engine** (`Template*.dfy`). The seven states are a step function on a configuration, and the engine
  class is proved to compute it. The run halts on every file and in every state of the engine, one left in a loop by
  an earlier file included. Templates also exist as trees with a meaning of their own, and the engine on a printed
  tree delivers the meaning exactly when there is one. As in the code a loop runs its body before it looks at the
  count, neither loops nor choices nest in their own kind, and the branches not taken run silently, so that their keys must resolve.
  A loop around an array argument delivers its values in order, and over an empty one the engine fails.
- **Scenery player** (`Scenery*.dfy`). Keyframes and jumps with their byte and 16 bit counters. Sceneries with counted jumps in any
  direction, and endless ones that go forward, end exactly when they have at most 255 keyframes; where all jumps go back the player sends
  the recursively unrolled timeline. The list of channels, ticked and erased in place, acts on each
  channel as if it were alone.
- **Time scheduler** (`SchedulerProtocol.dfy`, `SchedulerTiming.dfy`, `SchedulerRequests.dfy`, `TimeScheduler.dfy`). Adders, interrupt, timer and task interleaved between
  locked regions; no wake-up is lost, nothing runs early or twice, and no entry gets lost. Where the clock moves only
  while the timer is not due and the task is idle, and the interrupt's delay is at most one tick, a tick passes over something overdue exactly
  if the timer was set again over it within that tick; otherwise everything runs at its first tick,
  and that is the first tick past the delay that was asked for.
  `TimeScheduler.dfy` follows the code, and each of its regions is a step of the protocol.
- **Log buffer and sensor storage** (`LogBuffer.dfy`, `SensorStorage.dfy`). Two ring buffers against the plain sequences they stand for.
- **Button matrix** (`InputGrid.dfy`). Debouncing and holding, the order and times of each button's events over every run of samples, and scans of the whole matrix.
- **Infrared commands** (`IrCodec.dfy`, `IrReaderRuns.dfy`). Bit order, edge gaps, decoding, and runs in which edges come at any point of a look.
- **DFPlayer frames** (`DfPlayer.dfy`). Frame building, both checksums, and the byte machine on every stream.

## Where the code and its documentation disagree

The model follows the code in each case.

- `projects/dmx_light/animation.md:86-87` says that a channel stays at the last value. A last keyframe of less than one
  tick is never reached, unless it is the only one or repeats the value before it
  (`Scenery.LeavesLastKeyframe`, `Scenery.ImmediateLastKeyframeIsNotReached`).
- A scenery of 256 keyframes never ends, since the index is a byte (`SceneryEnds.UntrappedSceneryEnds`). Repeat counts of zero
  or less are counted modulo 2 to the 16, and -32768 is as endless as -1.
- `main/include/fb_ir_reader.hpp:25` says that bit 0 of a received value is the oldest. The value is reversed
  before it is reported, so the oldest bit is the highest (`IrReader.ReportedIffCarried`).
- A look that has read the first 15 edges of a 24 bit infrared command and checks them before the 16th reports 14 bits as
  an attack. The wait of 10 ms before the look is a single tick at 100 ticks a second and may be much
  shorter. And a command is reported twice if a look is still reading as its last edge comes, since that edge raises the
  flag again. `IrReaderRuns.CommandIsReported` says exactly how often each report is made; `IrReaderRuns.FalseAttack` and
  `IrReaderRuns.SecondReport` are runs of each kind for every such command, and an attack has neither trouble
  (`IrReaderRuns.AttackIsReportedOnce`).
- An interrupt that adds an action sets the timer to 10 ms, whatever is queued. Where that is two ticks or more, an
  action due sooner may run late, be it the interrupt's own or one that was queued before; with up to one tick none does
  but by the resets of the next item
  (`SchedulerTiming.InterruptDelayDecides`, `SchedulerTiming.InterruptCanPostpone`). `projects/keypad_backlight/sdkconfig:1293`
  sets 1000 ticks a second, and `main/sensors/fb_sensor_keyboard.cpp:77` adds from an interrupt.
- Whoever adds an action between the timer's expiry and its callback stops the timer and sets it to the next tick, so that
  what was due waits; adding in every tick puts it off for as long as that goes on. Callers do so at any rate, and an interrupt where
  its delay is one tick (`SchedulerTiming.AddersCanStarve`, `SchedulerTiming.OneAdderIsEnough`). A task that does not get its lock
  also sets the timer without running what is due (`SchedulerTiming.LostLockIsLate`), and an action added for the past
  waits for the next tick. With a delay of at most one tick these are all the cases (`SchedulerTiming.OverdueIffReset`).
- The DFPlayer code for a card and a stick together is never reported: its case stands behind the cases for each alone
  (`DfParser.CardUsbIsNeverReported`). A frame with a command the parser does not know gives back the command but loses the
  argument (`DfParser.CommandComesOut`).

## Model

| member | source | states |
|---|---|---|
| OneWireBus.Bus.ReadBit | components/esp32-onewire/ow_romsearch.c:35-36 | the two read slots of a bit are low exactly when some active device holds a zero, then a one |
| OneWireBus.Bus.SendBit | components/esp32-onewire/ow_romsearch.c:41-55 | the direction bit keeps exactly the devices that agree with it |
| RomSearch.SearchPass | components/esp32-onewire/ow_romsearch.c:24-78 | a pass from one code finds the next device in order, remembers its deepest zero branch, and is `finished` exactly when no larger device exists; two ones never happen |
| RomSearch.SearchBit | components/esp32-onewire/ow_romsearch.c:33-78 | two reads and a direction keep the pass invariant and the bus in step, for every bit |
| RomSearch.OwRomsearch | components/esp32-onewire/ow_romsearch.c:13-88 | for every set of devices, without a limit or with one of at least their number all devices are found and stored; with a smaller limit exactly that many, the first of the increasing listing; no other cell of the array is touched |
| RomSearch.PassStep | components/esp32-onewire/ow_romsearch.c:33-78 | each bit of a pass keeps the pass invariant, and some device always answers |
| RomSearch.LeastOnPathIsSuccessor | components/esp32-onewire/ow_romsearch.c:39-56 | a one at the remembered branch and the least path below it is the successor among the devices |
| RomSearch.NothingOpenIsGreatest | components/esp32-onewire/ow_romsearch.c:24-51 | no zero was taken at a conflict if and only if no device is larger |
| RomSearch.ListingIsDone | components/esp32-onewire/ow_romsearch.c:22-24 | a listing holds every device exactly when nothing is larger than its last code |
| RomSearch.ListingSize | components/esp32-onewire/ow_romsearch.c:22-87 | a listing has each device once: it is complete exactly when its size is the number of devices |
| RomSearch.LimitedSearchIsPrefix | components/esp32-onewire/ow_romsearch.c:22-22 | a search limited by `maxdevs` returns the first codes of the unlimited one |
| RomSearch.CodesAreNumbers | components/esp32-onewire/ow_romsearch.c:42-82 | codes stored as integers of their width stay different and fit |
| RomSearch.SixtyFourBitsFit | components/esp32-onewire/ow_romsearch.c:16-33 | at 64 bits the stored code fits its type |
| TemplateRun.Run | main/templates/fb_templates.cpp:46-72 | the engine halts on every file, for every set of arguments and in every state, seeking back or ahead included |
| TemplateText.AtoiOfIntToString | main/templates/fb_templates.cpp:74-79 | an integer argument kept as text reads back as itself |
| TemplateText.AtoiReadsNumber | main/templates/fb_templates.cpp:144-144 | a number is read from white space, a sign and decimal digits, whatever follows, and is zero without digits |
| TemplateText.IntTextIsDecimal | main/templates/fb_templates.cpp:74-79 | an integer is written in decimal digits without leading zeros, behind a minus sign if negative |
| TemplateSyntax.KeyDenotes | main/templates/fb_templates.cpp:148-200 | a written key, plain or indexed by counter or argument, is looked up as what it means |
| TemplateSyntax.ConditionDenotes | main/templates/fb_templates.cpp:573-607 | a written condition, its literal quoted or bare, is decided as what it means |
| TemplateSyntax.TwoBytesClose | main/templates/fb_templates.cpp:397-413 | any two bytes that are not white space close a command |
| TemplateTheorem.RunTurns | main/templates/fb_templates.cpp:202-238 | the turns of a loop deliver the body for each counter value, the first before the count is looked at |
| TemplateTheorem.RunArms | main/templates/fb_templates.cpp:516-571 | the arms of a choice deliver the text of the first true one and nothing of the others |
| TemplateTheorem.RunItems | main/templates/fb_templates.cpp:281-607 | from any place in a file, the items printed there lead the engine behind them with their meaning delivered |
| TemplateTheorem.EngineDeliversMeaning | main/templates/fb_templates.cpp:281-607 | for every tree and every environment the run succeeds if and only if the tree has a meaning, and then the chunks make up exactly its text with nothing left over |
| TemplateLists.ListIsDelivered | main/templates/fb_templates.cpp:148-238 | the file with a loop around an array argument writes each of its values once, in order, between the texts around it; over an empty array the engine fails |
| TemplateTheorem.WrongCommandFails | main/templates/fb_templates.cpp:325-571 | behind a written tree an unknown command fails, and so does one that ends or goes on with a loop or choice that is not on |
| TemplateTheorem.TrailingBraceFails | main/templates/fb_templates.cpp:281-312 | a written tree and then a lone brace at the end of the file fail |
| TemplateTheorem.IntArgIsWritten | main/templates/fb_templates.cpp:74-79 | an integer argument is written as that integer |
| TemplateOutput.RunChunksInShape | main/templates/fb_templates.cpp:108-136 | over every run all chunks are full but the last, none is empty, and nothing is left unflushed at a proper end |
| TemplateOutput.BufferSizeOnlyCuts | main/templates/fb_templates.cpp:108-136 | runs that differ in buffer size deliver the same text on every file |
| TemplateOutput.PutTextAppends | main/templates/fb_templates.cpp:108-128 | what is put joins chunks and buffer at the end, however often the buffer is flushed on the way |
| TemplateEngine.Engine.PutToBuffer | main/templates/fb_templates.cpp:108-121 | a byte goes to the end of the output if writing is allowed, and a full buffer is handed on |
| TemplateEngine.Engine.Flush | main/templates/fb_templates.cpp:130-136 | the buffer is handed on if it holds anything |
| TemplateEngine.Engine.ProcessInitial | main/templates/fb_templates.cpp:281-303 | the text state is its step |
| TemplateEngine.Engine.ProcessStart | main/templates/fb_templates.cpp:305-323 | the second brace is its step |
| TemplateEngine.Engine.ProcessKeyword | main/templates/fb_templates.cpp:325-366 | the keyword state is its step |
| TemplateEngine.Engine.ProcessArgs | main/templates/fb_templates.cpp:368-395 | the argument state is its step |
| TemplateEngine.Engine.ProcessEnd | main/templates/fb_templates.cpp:397-413 | the closing braces are their step |
| TemplateEngine.Engine.ProcessPut | main/templates/fb_templates.cpp:434-474 | the put commands are their step |
| TemplateEngine.Engine.BeginLoop | main/templates/fb_templates.cpp:202-214 | a loop starts here with its count, unless one is on |
| TemplateEngine.Engine.EndLoop | main/templates/fb_templates.cpp:216-238 | the file goes back to the loop's start while turns are left, and the loop is over otherwise |
| TemplateEngine.Engine.ProcessLoop | main/templates/fb_templates.cpp:476-514 | the loop commands are their step |
| TemplateEngine.Engine.ProcessBranching | main/templates/fb_templates.cpp:573-607 | the flag becomes the value of the condition if it has one |
| TemplateEngine.Engine.ProcessIf | main/templates/fb_templates.cpp:516-571 | the branching commands are their step |
| TemplateEngine.Engine.AddIntArg | main/templates/fb_templates.cpp:74-79 | the first argument under a key stays, the integer kept as text |
| TemplateEngine.Engine.AddArgStr | main/templates/fb_templates.cpp:81-86 | the first argument under a key stays |
| TemplateEngine.Engine.AddArgArray | main/templates/fb_templates.cpp:88-93 | the first argument under a key stays |
| TemplateEngine.Engine.AppendArgArray | main/templates/fb_templates.cpp:95-105 | a value joins the end of its array, and other arguments stay |
| TemplateEngine.Engine.ProcessFile | main/templates/fb_templates.cpp:46-72 | in whatever state an earlier file left the engine, the main loop ends in the state of the whole run and reports whether that is no error |
| TemplateEngine.RenderTemplate | main/templates/fb_templates.cpp:40-72 | a fresh engine over a written template succeeds if and only if it has a meaning, and hands on its text in full chunks and a last one |
| Scenery.PositionStaysBetween | main/fb_channel_handler.cpp:159-172 | under truncating division the value stays between the keyframes, starts at the first, and hits the second at the last tick exactly if there is a tick or they are equal |
| Scenery.PositionIsMonotone | main/fb_channel_handler.cpp:159-172 | the value never moves away from its target |
| Scenery.SentIsOnLine | main/fb_channel_handler.cpp:61-72 | over any run, each sent value is on the straight line from the keyframe before to the one that is played, at that tick, rounded towards the first by less than two |
| Scenery.MakeBaseEntry | main/fb_channel_handler.cpp:12-13 | a keyframe lasts its time in whole ticks of 20 ms, as far as 16 bits count them |
| Scenery.FindRepeatPointIsFirst | main/fb_channel_handler.cpp:148-157 | the first repeat at an index is the one that counts |
| Scenery.LeavesLastKeyframe | main/fb_channel_handler.cpp:61-78 | a scenery that just finished left its channel at the last value exactly if the last keyframe has a tick, or is alone, or repeats the one before |
| Scenery.ImmediateLastKeyframeIsNotReached | projects/dmx_light/animation.md:86-87 | two keyframes of which the second is immediate: the second value is never sent |
| SceneryEnds.FinishCounts | main/fb_channel_handler.cpp:83-113 | at the end of a keyframe the player goes on at the first tick of the next with the counter cleared, or jumps to the last tick of the target with one pass less left |
| SceneryEnds.HighestDigitDecides | main/fb_channel_handler.cpp:74-113 | the measure of what is left falls when its highest changed part does |
| SceneryEnds.PlaybackIsWhatIsSent | main/fb_channel_handler.cpp:56-114 | such a scenery sends its finite playback and is then finished |
| SceneryEnds.UntrappedSceneryEnds | main/fb_channel_handler.cpp:56-114 | a scenery with counted jumps in any direction, nested or crossing, and endless ones that go forward ends if and only if it has at most 255 keyframes |
| SceneryEnds.TooManyKeyframesNeverEnd | main/include/fb_channel_handler.hpp:39-39 | with 256 keyframes the byte index wraps and no number of ticks finishes |
| SceneryTimeline.BackwardSceneryPlaysTimeline | main/fb_channel_handler.cpp:56-114 | where all jumps go back, nested or crossing, the values sent until the end are the recursively unrolled timeline, of a length computed from counts and ticks |
| SceneryTimeline.BackwardSceneryEnds | main/fb_channel_handler.cpp:56-114 | where all jumps go back, a scenery ends if and only if none is endless and it has at most 255 keyframes |
| SceneryTimeline.LoopsPlay | main/fb_channel_handler.cpp:83-113 | all passes of a keyframe's loop, with the loops inside it, are played and leave the counters as they were |
| SceneryTimeline.CountedReturns | main/fb_channel_handler.cpp:99-113 | a jump that counts n is taken n - 1 times in a row, and one with a count below one 65536 times more |
| SceneryTimeline.LoopOfTwoIsPlayed | main/fb_channel_handler.cpp:56-114 | two keyframes with a jump back that counts n: both tick by tick, and then n - 1 times the last tick of the first and all of the second |
| SceneryTimeline.PastKeepsCounters | main/fb_channel_handler.cpp:99-104 | behind a finished loop every counter is zero again, ready for an outer loop |
| SceneryHandler.SceneryHandler.constructor | main/fb_channel_handler.cpp:33-37 | the list starts empty |
| SceneryHandler.SceneryHandler.StepEntry | main/fb_channel_handler.cpp:67-113 | the fields moved in place, branch by branch, are one tick of the channel's player, and the value told is the interpolated one |
| SceneryHandler.SceneryHandler.StepAll | main/fb_channel_handler.cpp:54-114 | one value per unfinished channel, and the finished ones noted |
| SceneryHandler.SceneryHandler.EraseFromBack | main/fb_channel_handler.cpp:116-121 | erasing from the back removes exactly the noted entries and keeps the order of the rest |
| SceneryHandler.SceneryHandler.Tick | main/fb_channel_handler.cpp:50-122 | a tick of the whole list, its channels still pairwise distinct |
| SceneryHandler.SceneryHandler.AddScenery | main/fb_channel_handler.cpp:124-140 | a channel's scenery is replaced in its place or added at the end, and channels stay distinct |
| SceneryHandler.SceneryHandler.ClearAll | main/fb_channel_handler.cpp:142-146 | nothing is left |
| SceneryHandler.TickActsAlone | main/fb_channel_handler.cpp:50-122 | a tick of the list is, for each channel, a tick of that channel |
| SceneryHandler.EveryChannelActsAlone | main/fb_channel_handler.cpp:50-122 | over any number of ticks a channel among others is sent what its scenery alone sends |
| SchedulerProtocol.StepKeepsInvariant | main/fb_time_scheduler.cpp:36-148 | every step of adder, interrupt, timer and task keeps the scheduler's invariant |
| SchedulerProtocol.NoLostWakeUp | main/fb_time_scheduler.cpp:127-148 | in every interleaving a queued action has an armed timer, a pending notification, or the task at work |
| SchedulerProtocol.NothingFiresEarly | main/fb_time_scheduler.cpp:70-94 | nothing runs before its time, and every pop takes a least due time |
| SchedulerProtocol.NothingFiresTwice | main/fb_time_scheduler.cpp:36-101 | in every interleaving an entry was run exactly as often as it was queued, less the times it is still queued or in the task's hands; one-shot entries are queued by callers alone |
| SchedulerProtocol.RepeatedActionsRunOn | main/fb_time_scheduler.cpp:96-100 | each run of a repeated action but the one in hand is followed by one entry with the same action and period, due a period or more later |
| SchedulerTiming.StepMisses | main/fb_time_scheduler.cpp:36-148 | where the clock moves only with the timer not due and the task idle: something overdue comes to be passed over only by a reset of the timer, and stays so until the timer is due again |
| SchedulerTiming.OverdueIffReset | main/fb_time_scheduler.cpp:53-148 | with no interrupt, or a delay of at most one tick: the clock leaves a tick with something overdue if and only if within that tick an adder set a due timer again, or added for the past, or the task armed it over something overdue with no notification left, and it was not due again |
| SchedulerTiming.LateWasOverdue | main/fb_time_scheduler.cpp:70-148 | what runs later than at its first tick, or is still queued then, was queued and overdue as the clock came to that tick, in runs in which nobody adds for the past |
| SchedulerTiming.OverdueIsRunLate | main/fb_time_scheduler.cpp:70-148 | what is overdue as the clock moves on is not run at its first tick any more |
| SchedulerTiming.EveryActionAtItsFirstTick | main/fb_time_scheduler.cpp:70-148 | in such runs every action runs at the first tick past its due time, and none still queued has missed that tick, unless the timer was reset over something overdue |
| SchedulerTiming.InterruptDelayDecides | main/fb_time_scheduler.cpp:53-68 | over all such runs without resets, nothing is ever overdue as the clock moves, and everything runs at its first tick, if and only if the interrupt's fixed delay is at most one tick |
| SchedulerTiming.InterruptCanPostpone | main/fb_time_scheduler.cpp:64-65 | at every rate at which the delay is two ticks or more, a run in which the interrupt moves the timer away from an action another added for now, and the clock passes it |
| SchedulerTiming.AddersCanStarve | main/fb_time_scheduler.cpp:114-124 | for any number of ticks, a run with an adder in each between expiry and callback, in which an action added for now is never run; with interrupts as adders where their delay is one tick |
| SchedulerTiming.OneAdderIsEnough | main/fb_time_scheduler.cpp:64-65 | the run of four steps in which the second adder alone leaves the first action overdue at the next tick |
| SchedulerTiming.LostLockIsLate | main/fb_time_scheduler.cpp:76-79 | a run in which the task does not get its lock, arms the timer over an action that is due, and the clock may move on |
| SchedulerTiming.ExpiryIsDueTick | main/fb_time_scheduler.cpp:108-119 | the timer is set to the tick in which the earliest entry falls due, or to the next where that is less than two ticks off |
| SchedulerRequests.QueuedIsAsked | main/fb_time_scheduler.cpp:36-101 | over whole runs, the entries ever queued are those asked for by callers, the interrupt and repeated actions, each due its delay after the milliseconds of the tick at which it was asked |
| SchedulerRequests.RunsAreAsked | main/fb_time_scheduler.cpp:36-101 | in every interleaving an entry was run as often as it was asked for, less the times it is queued or in the task's hands |
| SchedulerRequests.RunWasAsked | main/fb_time_scheduler.cpp:36-101 | every run goes back to a request with that action, delay and repetition, and comes after the delay, counted from the tick of the request |
| SchedulerRequests.AskedRunsAtFirstTick | main/fb_time_scheduler.cpp:36-148 | without resets over something overdue, an action asked for once with a delay is run at the first tick past the delay |
| SchedulerRequests.AskedHasRun | main/fb_time_scheduler.cpp:36-148 | and once that tick is over, what was asked for has been run and is not waiting any more |
| TimeScheduler.TimeScheduler.AddActionDelayed | main/fb_time_scheduler.cpp:36-51 | with its lock the method is the protocol's adding step, and without it nothing changes |
| TimeScheduler.TimeScheduler.AddActionDelayedIrq | main/fb_time_scheduler.cpp:53-68 | with its lock the method is the interrupt's step, and without it nothing changes |
| TimeScheduler.TimeScheduler.StartTimer | main/fb_time_scheduler.cpp:103-125 | the timer is set to the tick the earliest entry falls due, or the next if that has passed; an empty queue leaves it alone |
| TimeScheduler.TimeScheduler.IsReadyToFire | main/fb_time_scheduler.cpp:70-82 | the unlocked look and the locked test are the protocol's steps, and with the lock the answer is whether anything is due |
| TimeScheduler.TimeScheduler.PopTop | main/fb_time_scheduler.cpp:90-94 | the locked pop is the protocol's step |
| TimeScheduler.TimeScheduler.InvokeAction | main/fb_time_scheduler.cpp:96-96 | the popped action is run once, with whatever it adds, as the protocol's step |
| TimeScheduler.TimeScheduler.AddAgain | main/fb_time_scheduler.cpp:98-100 | adding again is the protocol's step |
| TimeScheduler.TimeScheduler.PrefromAction | main/fb_time_scheduler.cpp:84-101 | the earliest entry leaves the queue and runs once, what it adds is queued, and it comes back a period later if repeated |
| TimeScheduler.TimeScheduler.RunDue | main/fb_time_scheduler.cpp:135-137 | every due entry is run as often as it was queued, and none is left unless a lock does not come |
| TimeScheduler.TimeScheduler.Wake | main/fb_time_scheduler.cpp:133-133 | taking the notification is the protocol's step |
| TimeScheduler.TimeScheduler.Settle | main/fb_time_scheduler.cpp:139-139 | leaving the loop and arming the timer are the protocol's steps |
| TimeScheduler.TimeScheduler.Turn | main/fb_time_scheduler.cpp:127-141 | a woken task, whatever locks it gets and whatever its actions add, runs due entries as often as they were queued, leaves none due if it gets its locks, and leaves the timer set for the rest |
| TimeScheduler.TimeScheduler.Timer | main/fb_time_scheduler.cpp:143-148 | an expired timer is the protocol's notifying step |
| LogBuffer.Buffer.PutData | main/include/fb_buffer.hpp:27-53 | after a put the unread bytes are the last that fit of what was unread and what was stored |
| LogBuffer.Buffer.ReadPartition | main/include/fb_buffer.hpp:74-92 | a read gives a first stretch of the unread bytes, everything unless it is in two parts |
| LogBuffer.Drain | main/servers/fb_server_debug.cpp:183-195 | at most two reads give all unread bytes in order |
| LogBuffer.PutInRing | main/include/fb_buffer.hpp:29-52 | the ring's cells, after a write around the end with or without overwriting, hold the newest bytes in order |
| LogBuffer.TextIsStoredAsIs | main/include/fb_buffer.hpp:33-44 | text without NULs is stored unchanged, in one part or two |
| LogBuffer.PaddedKeepsText | main/include/fb_buffer.hpp:33-33 | `strncpy` keeps a text exactly when nothing but NULs follows a NUL |
| LogBuffer.PaddedBytes | main/include/fb_buffer.hpp:33-33 | byte by byte, the text up to its first NUL and NULs from there on |
| LogBuffer.UnreadEndsStream | main/include/fb_buffer.hpp:27-92 | over every sequence of puts and reads the unread bytes are the end of the stream |
| LogBuffer.ReadsFollowStream | main/include/fb_buffer.hpp:27-92 | reads are successive stretches of the stream, and only a put that does not fit makes a gap |
| CycleBuffer.CycleBuffer.PushValue | main/include/fb_cycle_buffer.hpp:97-106 | the contents are the last pushes, one fewer than there are cells |
| CycleBuffer.CycleBuffer.FindValueIndex | main/include/fb_cycle_buffer.hpp:109-121 | the cell of the oldest retained value that is wanted, and the invalid index exactly if none is |
| CycleBuffer.CycleBuffer.Last | main/include/fb_cycle_buffer.hpp:128-138 | the cell of the newest value, or the invalid index if there is none |
| CycleBuffer.CycleBuffer.VisitFrom | main/include/fb_cycle_buffer.hpp:54-63 | stepping a cell at a time to the end visits the value and all newer ones in order |
| SensorStorage.FromFirstIsSince | main/sensors/fb_sensor_storage.cpp:31-51 | iterating gives exactly the readings later than a time if and only if none that follows a later one is not later itself |
| SensorStorage.ChangeIsKept | main/sensors/fb_sensor_storage.cpp:12-24 | a reading is kept if it differs from the last one, and a first one unless it is -255; the latest 49 are retained |
| SensorStorage.VisitedInTime | main/sensors/fb_sensor_storage.cpp:31-51 | which holds for timestamps that never go back |
| SensorStorage.RetainedAreLatestChanges | main/sensors/fb_sensor_storage.cpp:12-24 | dropping equal readings as they come and keeping the last that fit is keeping the last changes of the series |
| SensorStorage.ChangesNeverRepeat | main/sensors/fb_sensor_storage.cpp:16-20 | no two neighbouring changes have the same value |
| SensorStorage.ReaderSeesLatestChanges | main/sensors/fb_sensor_storage.cpp:12-51 | a reader gets the retained changes later than its time, in order, no neighbours alike |
| SensorStorage.SensorStorage.AddAddres | main/sensors/fb_sensor_storage.cpp:91-103 | every address keeps its own buffer, and a new one gets the next |
| SensorStorage.SensorStorage.AddSensorValue | main/sensors/fb_sensor_storage.cpp:12-24 | a reading is kept unless it equals the last, and other addresses are undisturbed |
| SensorStorage.SensorStorage.GetSensorLastValue | main/sensors/fb_sensor_storage.cpp:53-71 | the newest retained value of an address, or none |
| SensorStorage.SensorStorage.ReadSince | main/servers/fb_server_box.cpp:206-224 | iterating from first to end gives the address's readings from the first later one on, and nothing for a missing address |
| Button.EventsAreWellOrdered | main/include/fb_input_grid.hpp:206-228 | over every run the events are presses, each with hold periods in order and then a release of at least the last period, the last press perhaps unfinished |
| Button.PressIsDebounced | main/include/fb_input_grid.hpp:155-169 | a press is reported only after the line was down at every sample for longer than the debounce time |
| Button.HeldLinePresses | main/include/fb_input_grid.hpp:155-169 | from a released button, a line that stays down for longer than the debounce time is reported as a press, at the first sample past that time and not before |
| Button.ShortPressIsIgnored | main/include/fb_input_grid.hpp:224-226 | a press that is let go within the debounce time is not reported |
| Button.HeldLineRepeats | main/include/fb_input_grid.hpp:171-219 | after a reported press or hold period, a line that stays down is reported as held one period longer, at the first sample past the hold time and not before |
| Button.ReleaseIsReported | main/include/fb_input_grid.hpp:220-222 | the first sample that is up is reported as the release, with the hold periods so far and the time from the last report to the last sample that was down |
| Button.HeldSince | main/include/fb_input_grid.hpp:171-181 | hold periods and duration fit within the time since the press was reported |
| Button.ReleaseIsNotTooLong | main/include/fb_input_grid.hpp:220-222 | the duration of a release is at most the real time since the press was reported |
| InputGrid.PlaceOfIndex | main/include/fb_input_grid.hpp:112-112 | every place in the matrix has one index, and the index gives the place back |
| InputGrid.IndexOfPlace | main/include/fb_input_grid.hpp:112-112 | every index belongs to a place |
| InputGrid.InputGrid.HandleButton | main/include/fb_input_grid.hpp:206-228 | one button changes and only its events are reported |
| InputGrid.InputGrid.Tick | main/include/fb_input_grid.hpp:97-123 | a scan hands each button its own sample exactly once, and what it reports is in order of rows and of columns within a row |
| InputGrid.InputGrid.Task | main/include/fb_input_grid.hpp:232-240 | over any scans, every button becomes what its own samples come to, and the callback is told just its events |
| Bits.ReverseInt | main/include/fb_ir_commands.hpp:51-59 | the low bits in reverse |
| Bits.ReversedTwice | main/include/fb_ir_commands.hpp:51-59 | reversing is an involution on numbers that fit, and stays within them |
| IrTransmitter.IrTransmitter.AddGpio | main/fb_ir_transmitter.cpp:24-42 | a pin is added once |
| IrTransmitter.IrTransmitter.SendHeal | main/fb_ir_transmitter.cpp:44-57 | the command goes out whole, highest bit first, on a known pin and not on others |
| IrTransmitter.IrTransmitter.SendKill | main/fb_ir_transmitter.cpp:59-71 | the command goes out whole, highest bit first, on a known pin and not on others |
| IrTransmitter.IrTransmitter.SendAttack | main/fb_ir_transmitter.cpp:73-95 | the low 14 bits go out, highest first, on a known pin and not on others |
| IrTransmitter.IrTransmitter.SendBytes | main/fb_ir_transmitter.cpp:140-161 | a start, and each byte lowest bit first |
| IrTransmitter.OnlyLowBitsAreSent | main/fb_ir_transmitter.cpp:84-92 | bits beyond the command do not change what is sent |
| IrTransmitter.MessageSpellsValue | main/fb_ir_transmitter.cpp:53-92 | the bits that go out spell the value in binary, the highest first |
| IrTransmitter.BitsOfWord | main/fb_ir_transmitter.cpp:53-55 | a word's bytes in memory order carry its bits lowest first |
| IrTransmitter.SendCarrier | main/fb_ir_transmitter.cpp:107-122 | the least duration of a burst |
| IrReader.SentIsCarriedIffInTime | main/fb_ir_reader.cpp:129-140 | edges of a command that was sent are each read as the bit sent if and only if every burst overruns by less than 310 for a one and 243 for a zero |
| IrReader.ReportedIffCarried | main/fb_ir_reader.cpp:129-153 | a value is reported if and only if there are exactly as many edges as the command needs, and each gap lies in the window of the bit that is sent for it |
| IrReader.PartIsDecoded | main/fb_ir_reader.cpp:129-153 | the first edges of a command decode to the command, to the attack of its first 14 bits, or to nothing, by their number |
| IrReaderRuns.BetweenEdges | main/fb_ir_reader.cpp:115-154 | however moves fall between two edges of a command, as many reports are made as were pending and no longer are, each what the edges decode to |
| IrReaderRuns.CommandIsReported | main/fb_ir_reader.cpp:71-154 | wherever edges fall within looks, a command after a silence is reported once, and twice exactly if a look was still reading at its last edge; besides only as an attack, as often as looks check just its first 15 edges of 25 |
| IrReaderRuns.LateLookReportsOnce | main/fb_ir_reader.cpp:71-154 | where no look begins before the last edge, the reports are the sent value, once |
| IrReaderRuns.AttackIsReportedOnce | main/fb_ir_reader.cpp:71-154 | an attack after a silence is reported exactly once wherever looks come, if the flag was down before it |
| IrReaderRuns.FalseAttack | main/fb_ir_reader.cpp:115-154 | every 24 bit command, on any edges that carry it, has a run in which it is reported as an attack first |
| IrReaderRuns.SecondReport | main/fb_ir_reader.cpp:115-154 | every 24 bit command, on any edges that carry it, has a run in which it is reported twice |
| IrReaderRuns.ReportIsCarried | main/fb_ir_reader.cpp:71-154 | over every run of edges and looks without a silence within a look, a reported value fits its length and is carried by the edges there are as it is reported |
| IrReader.Entry.Irq | main/fb_ir_reader.cpp:87-98 | an edge joins those before it, or starts anew after more than 10000, and the 15th raises the flag |
| IrReader.Entry.TakeFlag | main/fb_ir_reader.cpp:118-122 | the flag is seen and lowered |
| IrReader.Entry.ReadGap | main/fb_ir_reader.cpp:129-140 | a gap adds a one at its place, a zero, or nothing |
| IrReader.Entry.Check | main/fb_ir_reader.cpp:143-153 | the bits read are reported reversed if the edges there are now go with their number |
| IrReader.Entry.Task | main/fb_ir_reader.cpp:115-154 | a look during which no edge comes reports what the edges decode to, if the flag is up, and lowers it |
| DfFrame.FramesAreWellFormed | components/DFRobotDFPlayerMini/DFRobotDFPlayerMini.c:116-122 | ten bytes are the frame of a command and an argument exactly if they are well formed and hold them |
| DfFrame.FrameBytes | components/DFRobotDFPlayerMini/DFRobotDFPlayerMini.c:116-122 | a frame byte by byte, with its constants, words high byte first, and a checksum that brings the sum of bytes 1 to 6 to zero modulo 2 to the 16 |
| DfFrame.OneWrongByteShows | components/DFRobotDFPlayerMini/DFRobotDFPlayerMini.c:316-319 | a frame with any one byte changed is not well formed |
| DfFrame.CalculateCheckSum | components/DFRobotDFPlayerMini/DFRobotDFPlayerMini.c:54-62 | the loop computes the word that brings the sum to zero modulo 2 to the 16 |
| DfFrame.Checksum | main/df_player/fb_df_player.cpp:87-95 | sum and checksum cancel modulo 2 to the 16 |
| Packet.Packet.CalculateCRC | main/df_player/fb_df_player.cpp:48-55 | the packet becomes the frame of its command and argument, the same the other driver builds |
| Packet.Packet.CheckCRC | main/df_player/fb_df_player.cpp:77-80 | the check holds exactly if the packet is a frame, where its constant bytes are in place |
| Packet.Packet.constructor | main/df_player/fb_df_player.cpp:21-26 | the constant bytes, the command and the argument are in place |
| Packet.Packet.SetArg | main/df_player/fb_df_player.cpp:40-46 | only the two argument bytes change |
| Packet.Packet.GetArg | main/df_player/fb_df_player.cpp:72-75 | the argument's two bytes make up the argument |
| Packet.Packet.GetCmd | main/df_player/fb_df_player.cpp:67-70 | the command byte |
| DfParser.BufferIsLastBytes | components/DFRobotDFPlayerMini/DFRobotDFPlayerMini.c:321-388 | over every stream fewer than ten bytes are held, in place, and they are the last that came |
| DfParser.AcceptedIsFrame | components/DFRobotDFPlayerMini/DFRobotDFPlayerMini.c:347-382 | whatever is accepted in any stream is its last ten bytes, and they are a frame |
| DfParser.FrameAfterNoise | components/DFRobotDFPlayerMini/DFRobotDFPlayerMini.c:321-389 | from an idle parser, bytes without a header are skipped and the frame behind them is parsed |
| DfParser.CommandComesOut | components/DFRobotDFPlayerMini/DFRobotDFPlayerMini.c:230-306 | the command comes out, and the argument does if and only if the command is known or the argument zero; an acknowledgement only ends the sending |
| DfParser.AnswerIsTyped | components/DFRobotDFPlayerMini/DFRobotDFPlayerMini.c:230-306 | the type of message that each command leaves, for changes of medium by the two low bits of the argument; an unknown one is an error and ends the sending |
| DfParser.NineBytesResynchronise | components/DFRobotDFPlayerMini/DFRobotDFPlayerMini.c:321-389 | after any stream, nine bytes without a header make the parser take the next frame |
| DfParser.AcceptedIffIdle | components/DFRobotDFPlayerMini/DFRobotDFPlayerMini.c:321-389 | after any stream a frame is accepted if and only if the parser is idle where it starts |
| DfParser.StrayHeaderLosesFrame | components/DFRobotDFPlayerMini/DFRobotDFPlayerMini.c:349-353 | a header right before any frame makes the parser lose it |
| DfParser.CardUsbIsNeverReported | components/DFRobotDFPlayerMini/DFRobotDFPlayerMini.c:248-261 | no stream brings the code for card and stick together |
| DfParser.CallFeeds | components/DFRobotDFPlayerMini/DFRobotDFPlayerMini.c:321-397 | a call takes the first bytes in order and leaves the others, and only one that runs out of bytes can time out |
| DfParser.CallAnswers | components/DFRobotDFPlayerMini/DFRobotDFPlayerMini.c:321-397 | a call answers that a message is there exactly if one is, and its bytes ended with a frame or ran out in time |
| DfParser.WaitTimesOut | components/DFRobotDFPlayerMini/DFRobotDFPlayerMini.c:79-87 | no waiting for an acknowledgement outlasts the time, whatever bytes are left |
| DfParser.WaitIsOver | components/DFRobotDFPlayerMini/DFRobotDFPlayerMini.c:79-87 | waiting is over exactly when nothing is being sent any more |
| DfPlayer.DfPlayer.SetACK | components/DFRobotDFPlayerMini/DFRobotDFPlayerMini.c:131-139 | only the acknowledgement byte of later frames changes |
| DfPlayer.DfPlayer.AwaitSending | components/DFRobotDFPlayerMini/DFRobotDFPlayerMini.c:79-87 | calls are made until the last sending is over, with whatever bytes arrive |
| DfPlayer.DfPlayer.SendStack2 | components/DFRobotDFPlayerMini/DFRobotDFPlayerMini.c:76-122 | the frame of the command and argument goes out, after the last one was acknowledged, failed or timed out where acknowledgements are on |
| DfPlayer.DfPlayer.ParseStack | components/DFRobotDFPlayerMini/DFRobotDFPlayerMini.c:230-306 | a frame is dispatched by its command, and an acknowledgement leaves the last message alone |
| DfPlayer.DfPlayer.ValidateStack | components/DFRobotDFPlayerMini/DFRobotDFPlayerMini.c:316-319 | the checksum is the one of the bytes |
| DfPlayer.DfPlayer.Available | components/DFRobotDFPlayerMini/DFRobotDFPlayerMini.c:321-397 | a call is the byte machine up to the end of a frame, an error, the end of the bytes or a timeout |

## Left out

- GPIO, I2C, UART, RMT, SPI, ADC, LEDC, NVS, WiFi, MQTT, HTTP, OTA and cJSON: foreign libraries; where they matter they are parameters, callbacks or steps of the environment.
- Settings, box and property objects, generated mappers, the web pages and the Python generator: data plumbing.
- Heat, time and GPIO switches, counters, static queues, boot states, the ramps of `ChannelHandler`: short code that would only add easy members.
- `_multipartFileInputHandler`, `_map_query`, `DmxHal::write` and the receive ring of `serial.c`: they read or write past their ranges or lose payload as written, and have no contract to prove.
- 1-Wire timing and symbols: the bus is the wired AND of a set of devices that does not change and does not fail during a search; a device that leaves would reach the case of two ones.
- Template tokens of 32 bytes and more: the C buffers overflow there; the step function reads such words whole, and trees are restricted to words of at most 31.
- Template keys within keys, and keys that end at their first opening bracket: the inner view of the code is wrong there; the step function takes the second as unresolved, and trees contain neither.
- TemplateEngine.Engine.ProcessFile: requires a file that was opened at its start; failing to open one is not modelled.
- Template texts that end in a brace, and a lone brace before a command: the engine takes it for the start of a command; the step function does so too, and trees do not contain them.
- Template integers: `atoi` and the counter are unbounded, and the buffer has at least one byte.
- TemplateSyntax.KeyDenotes: for names without brackets and an index other than the letter `i`, which stands for the counter.
- Scenery: a jump's target must be a keyframe, since the code reads it unchecked; the mutex around each call is taken for granted.
- Scheduler: ticks last whole milliseconds, 32 bit times do not wrap, timer commands take effect at once, and a timer set to no ticks at all expires at once. The object in `TimeScheduler.dfy` runs one region after another; interleavings are the protocol's.
- TimeScheduler.TimeScheduler.RunDue: requires periods and delays that are not negative, as does the whole turn.
- TimeScheduler.TimeScheduler.Turn: requires periods and delays that are not negative, without which the loop need not end; others that add meanwhile are the protocol's.
- SchedulerTiming.EveryActionAtItsFirstTick: for runs in which nobody adds for the past, since such an action has no first tick to run at, and in which an interrupt's delay is at most one tick or none adds; when the timer is reset over something overdue is told exactly by `SchedulerTiming.OverdueIffReset`.
- LogBuffer.Buffer.PutData: requires a chunk of less than twice the buffer less the write index, as all callers pass. A read returns a copy; how long a view stays valid is not modelled.
- Sensor values are reals: NaN, and its being unlike itself, is not modelled. A fourth address fails the code's assertion and is required not to come.
- SensorStorage.SensorStorage.ReadSince: the iteration of the page handler; formatting and sending are left out.
- Button matrix: pins and delays are the environment; the clock is in milliseconds and does not wrap.
- IrReader.Entry.Irq: requires fewer than 64 edges without a silence, since the code reads past its array beyond; the loop over pins, each with its own entry, is left out.
- Infrared numbers are unbounded: the shifts of the code are undefined beyond 31 bits, which no reported value reaches.
- DfPlayer.DfPlayer.SendStack2: the pause of 10 ms after sending without acknowledgements is left out, and what arrives while it waits is a parameter.
- DFPlayer: the reading of replies by the `DfPlayer` class of the main program is left out; the timeout is a parameter of each call.
