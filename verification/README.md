# Verification of the bat3 serial link and charging controllers

bat3 drives a TS-BAT3 battery board over a serial line. This project models the two cores of the
repository and proves what they are for.

**The framed link.** Packets travel between 0x7E and 0x7F, with 0x7D escaping five byte values, and end
in a byte that makes them sum to 0xFF. The repository has one framing encoder and three decoders: an
in-place batch decoder (`lib/serial.c`), a byte-at-a-time machine whose whole state is one integer
(`lib/file.c`), and a separately written one with an implicit escape state (`src/stream.c`), next to a
second, separately written sender. On top sits a request that is resent until the board echoes it
(`avr/avr.c`).

**The charging controllers.** `avr/bat3.c` searches for a PWM setting by bisection and then regulates in
unit steps, under a duty cycle, a power-failure countdown and UDP commands. `src/bat3func.c` regulates
in two step sizes and decides from filtered voltages whether the battery is stable.

The two cores meet in `Daemon.RoundOnPort`, one whole round on the serial port: when its request is
accepted, the board has reported the very settings the controller holds. `DaemonRuns.ChargeOnPort` is the
daemon's loop over such rounds. It refines a run of the controller, each round of it confirmed by a reply
that was read from the line; if the board keeps its low time from one round to the next
(`DaemonRuns.BoardKeeps`, the one thing assumed of it), the run starts every round from what it set last
(`ChargeRuns.Echoed`), and the range and search theorems hold of the daemon itself, up to the battery
current it ends at (`DaemonRuns.DaemonReachesTarget`).

## Layout

| file | source | content |
|---|---|---|
| `Bytes.dfy` | all | bytes, escape bit, checksum, C arithmetic |
| `Serial.dfy` | `lib/serial.c` | byte stuffing, framing, in-place decoding |
| `PacketFile.dfy` | `lib/file.c` | streaming decoder, packed state, packet reading |
| `Avr.dfy` | `avr/avr.c`, `avr/bat3.c` | request, retry and echo |
| `Stream.dfy` | `src/stream.c` | second sender and decoder |
| `StreamCalls.dfy` | `src/stream.c` | successive calls of the second decoder on one line |
| `Agreement.dfy` | all three | when the decoders agree |
| `Charger.dfy` | `avr/bat3.c` | the charging loop as a class, and each round as a function |
| `Daemon.dfy` | `avr/bat3.c` | one round on the port: request bytes, step, echo |
| `ChargeRuns.dfy` | `avr/bat3.c` | what holds on every run |
| `DaemonRuns.dfy` | `avr/bat3.c` | the daemon's loop on the port, and the runs it makes |
| `ChargeControl.dfy` | `avr/bat3.c` | search and regulation against a steady battery |
| `Loader.dfy` | `src/bat3func.c` | `doload` as classes, and each call as a function |
| `LoadRuns.dfy` | `src/bat3func.c` | filter window, verdict, regulation over runs |

Code that updates state is a class or a method over an array, proved equal to a function of the old
state; the properties are then lemmas about those functions. Runs are sequences of inputs, and every
fold over a sequence recurses on its last element, so a lemma about all runs is an induction on the run.

## Modelling decisions

- A byte is an integer from 0 to 255; `Bytes.FlipIsXor` shows the integer form of `^ 0x20` right.
- The serial input is one byte sequence whose end is the quarter-second silence that makes
  `filePacketGet` give up. `exit(3)` is an outcome.
- The C decoder has no bounds check, so reading requires that the stream never makes it hold more than
  the buffer (`Fits`). `PacketFile.FramesFit` discharges this for streams of frames.
- `readStream` looks at `msg[pos-1]` with `pos == 0`; the model takes that for no pending escape.
- The current of a steady battery is any function from the PWM low time to an ADC reading.
- Clocks are inputs. A call of `doload` sees one time.
- The first controller waits for an echo, so that the board repeats its settings within a round is
  proved. The second does not (`src/bat3.c:367-413`): it takes the next sample as it comes. In
  `LoadRuns.Loop` that sample repeats the settings sent, and reads the battery at the new low time if the
  op-amp and both PWMs are on; this is an assumption. What it reads with the charger off is free.
- In the theorems on `avr/bat3.c` the battery is likewise read on its curve only while the PWMs are on.
  That is never so in the first round of a search that starts with them off, whose reading the loop
  ignores.

## Promises that hold under a condition

Six promises of the code hold only in part; each is proved as an exact statement.

- `readStream` does not clear `lastesc` on a new start byte, so after an abandoned message a frame whose
  first escape falls on the stale position is lost; and it takes the ETX that follows 18 bytes for a
  checksum, so a 17-byte message is always lost. `Stream.SecondDecoderExactly` shows these are the only
  two cases: any other message is returned whatever follows its frame, and in these two it is not
  returned as long as nothing with a start byte follows. A frame after which the reader still waits (a
  17-byte message, or a 16-byte one on the stale position) is an error if the line falls silent, but
  bytes that follow it can complete another checksum: `Stream.SeventeenThenNoise` says exactly when
  noise turns a 17-byte message into a longer one that nobody sent, and `Stream.SeventeenCanGrow` is such
  a case. `Stream.AbandonedStartLosesMessage` is a concrete loss. What this does to a whole stream of
  messages is `StreamCalls.CallsReturn`; `StreamCalls.SeventeenCanCostTheNext` shows that a 17-byte
  message can cost its successor too.
- The packed decoder state is faithful below 500 bytes and at no larger size, where the source documents
  256 (`PacketFile.CodeIsFaithfulBelow500`).
- The loop gives a target up only if an end of the PWM range is out of band on the wrong side; with a
  current curve that jumps over the band it never gives up (`ChargeControl.GivesUpExactly`).
- A commanded on-time of 0 is taken for charging all the time rather than never: after a duty-cycle
  command the PWMs are off in every off phase if and only if the on-time is positive or the commanded
  current is not (`ChargeControl.OffPhaseIsOffExactly`).
- Two-speed loading does not overshoot while it charges (`LoadRuns.LoadingConverges`), but the first
  charging call after a rest acts on a sample taken with the charger off. It leaves the low time alone if
  and only if that sample happens to be in band or a clamp holds it (`LoadRuns.ResumeStaysExactly`);
  `LoadRuns.ResumeOvershoots` is a rest until a day has passed, after which an in-band charger steps its low time
  ten below the in-band setting.
  What such resumptions cost over a whole run is `LoadRuns.DoloadStaysOnCourse`.
- The stability branch of `doload` switches the op-amp and both PWMs on together, but only behind an
  op-amp that is off: a charging call leaves the charger on if and only if it takes the time-based branch
  or does not find an op-amp on with a PWM off (`LoadRuns.ChargingPowersExactly`).

## Model

| member | source | states |
|---|---|---|
| `Bytes.FlipIsXor` | lib/serial.c:32 | toggling bit 5 on integers is `b ^ 0x20` on bytes, and is its own inverse |
| `Bytes.TruncDivIsC` | avr/bat3.c:697 | division rounds toward zero: the remainder has the sign of the dividend and is smaller than the divisor |
| `Bytes.IntactIsSealed` | lib/file.c:186 | a packet sums to 0xFF modulo 256 exactly when its last byte is the checksum a sender appends |
| `Bytes.CorruptionCaught` | lib/file.c:186-195 | overwriting one byte of an intact packet leaves it intact only if the byte is unchanged |
| `Serial.StuffIsTransparent` | lib/serial.c:29-37 | no 0x7E, 0x7F, 0x11 or 0x13 is left in a frame body, which is at most twice its payload |
| `Serial.FrameOnWire` | lib/serial.c:24-40 | a frame starts with 0x7E, ends with 0x7F and is one byte longer for each 0x7D, 0x7E, 0x7F, 0x11 and 0x13 of the payload |
| `Serial.ByteOnWire` | lib/serial.c:29-37 | inside it each payload byte stands, at its place, as it is, or, if it is one of these, as 0x7D and the byte with bit 5 toggled |
| `Serial.SerialFrameOverhead` | lib/serial.c:13-22 | the overhead is exactly what framing adds to the length |
| `Serial.SerialFrame` | lib/serial.c:24-40 | writes exactly the frame of the payload and nothing behind it |
| `Serial.UnstuffUndoesStuff` | lib/serial.c:24-60 | batch decoding undoes framing, for every payload |
| `Serial.SerialUnframe` | lib/serial.c:42-60 | on any input: recognises framed input, leaves the decoded body and its length in place, dropping a dangling escape, and writes at most one byte past it |
| `PacketFile.CodeIsFaithfulBelow500` | lib/file.c:107-113 | the integer state tells all decoder states apart for packets of up to n bytes if and only if n is below 500 |
| `PacketFile.PacketGet` | lib/file.c:115-146 | one byte into the packed integer and the buffer is one step of the Idle, Started, Data, Escape, Done machine |
| `PacketFile.FeedClean` | lib/file.c:115-146 | inside a packet, a body with no raw control byte adds exactly what the batch decoder makes of it |
| `PacketFile.AnyFrameResynchronises` | lib/file.c:115-146 | in whatever state a frame arrives, its last byte leaves the decoder idle; which packets it completes, by that state |
| `PacketFile.SecondFrameArrives` | lib/file.c:115-146 | after any noise and any one frame, the next non-empty frame is delivered intact |
| `PacketFile.StreamRoundTrip` | lib/file.c:99-146 | a stream of frames gives back every non-empty packet in order and leaves the decoder idle |
| `PacketFile.StreamRoundTripNothingEarly` | lib/file.c:99-146 | before a frame's last byte only the packets of the frames before it are delivered, and only a prefix of its payload is held |
| `PacketFile.RepliesOfFrames` | lib/file.c:182-196 | the replies read from a stream of frames are its checksum-valid payloads, in order |
| `PacketFile.RepliesAfterNoise` | lib/file.c:182-196 | from the second frame after any noise on, no checksum-valid payload is missed |
| `PacketFile.CorruptedFrameIsDropped` | lib/file.c:186-195 | a frame whose packet differs from an intact one in a single byte yields no reply |
| `PacketFile.RepliesSplit` | lib/file.c:161-195 | successive calls that stop at a completed packet read the same replies as one pass over the stream |
| `PacketFile.FramesFit` | lib/file.c:115-146 | a stream of frames never makes the decoder hold more than its longest payload |
| `PacketFile.Checksum` | lib/file.c:148-156 | the loop adds up the packet |
| `PacketFile.FilePacketGet` | lib/file.c:161-200 | returns the first checksum-valid packet of the input, having read exactly up to its last byte, or nothing if there is none |
| `Agreement.DecodersAgreeExactly` | lib/serial.c:42-60 | on framed input the streaming decoder delivers the batch decoder's result and nothing else if and only if the body is non-empty, holds no raw control byte and ends in no escape |
| `Agreement.SealedFrameIsReadByBoth` | lib/file.c:161-200 | what a sender emits for a message that is not 17 bytes long is read back by the packet decoder with its checksum, and by the stream decoder without it in a buffer with room for both |
| `Avr.EchoIsBytewise` | avr/bat3.c:376-390 | the callback accepts exactly the replies that repeat the low six output bits and both 16-bit PWM times |
| `Avr.Port.FramedSend` | lib/serial.c:62-75 | appends exactly the payload's frame to the line |
| `Avr.Port.SealRequest` | avr/avr.c:35-36 | stores the checksum of the other bytes in the last byte |
| `Avr.Port.SendUntilAccepted` | avr/avr.c:37-60 | accepted at the first acceptable reply among the first five and at no other; after k - 1 refusals 1 + (k - 1) / 2 identical frames were sent, on failure three; the replies seen are the line's checksum-valid packets in order, and the rest of the line is left as it was, fit for the next request |
| `Avr.Port.SendRequest` | avr/avr.c:29-60 | the same for an unsealed request, whose other bytes are untouched; the line stays fit for the next one |
| `Avr.Port.SendAndAwaitEcho` | avr/bat3.c:704 | a successful return leaves the first of the replies read that repeats all eight compared fields of the request; which replies were read, how often the request was sent, and the rest of the line, fit for the next request |
| `Avr.OutcomeExactly` | avr/avr.c:29-64 | a request is accepted if and only if one of the first five packets of the line is acceptable, rejected if and only if there are five and none is, and without a reply otherwise; it is sent 1 + i / 2 times when packet i is the first acceptable one, and three times when it is rejected |
| `Avr.RepliesOverFrames` | avr/avr.c:39 | over a line that carries frames of intact packets, the replies are those packets |
| `Avr.RequestOverFrames` | avr/avr.c:29-64 | the same for a request to the board over a line that carries frames of intact packets |
| `Stream.CalcCrc` | src/stream.c:35-43 | the running subtraction modulo 256 is the checksum of the other sender |
| `Stream.WriteStream` | src/stream.c:59-103 | emits exactly the frame of the sealed message, as the other sender does |
| `Stream.TakeByte` | src/stream.c:127-158 | one turn of the receive loop on the buffer is one step of the reader |
| `Stream.ReadStream` | src/stream.c:105-188 | returns the length of the message the reader ends with, or 0 when its checksum is wrong, with the message in the buffer, having taken the bytes up to where the reader stops and no more |
| `Stream.ReadBody` | src/stream.c:147-156 | bytes decode one by one, and an escape is pending only between the two bytes of its pair |
| `Stream.RoundTrip` | src/stream.c:105-188 | from any point of the loop a sealed frame is returned, and what follows it is not read, unless it clashes or has 17 bytes |
| `Stream.SeventeenIsLost` | src/stream.c:134-145 | a 17-byte message runs into the ETX workaround and leaves the reader waiting; silence makes it an error |
| `Stream.SilenceEndsMessage` | src/stream.c:160-182 | a message whose end byte never comes is returned once the line falls silent |
| `Stream.LongMessageIsCut` | src/stream.c:158-182 | a message too long for the buffer is cut off where the buffer is full, and is an error unless what was kept happens to sum to 0xFF modulo 256 |
| `Stream.ClashIsLost` | src/stream.c:149-155 | an escape at the stale position keeps one byte too many, and the checksum always catches it; the reader has ended, or waits on if the message has 16 bytes |
| `Stream.SecondDecoderExactly` | src/stream.c:105-188 | after any bytes that have not stopped the reader, a sealed frame that is not 17 bytes long and whose first escape is not at the stale position returns its message whatever follows; any other is an error if silence follows, or if the frame has stopped the reader; with no start byte behind it the message is returned if and only if the condition holds |
| `Stream.SecondDecoderAfterNoise` | src/stream.c:105-188 | after noise without a start byte every message but a 17-byte one is returned |
| `Stream.SeventeenThenNoise` | src/stream.c:134-145 | a 17-byte message followed by bytes with no meaning of their own and an ETX comes back as a longer message if and only if those bytes sum to 0x81 modulo 256, and is an error otherwise |
| `Stream.SeventeenCanGrow` | src/stream.c:136-140 | two bytes of noise turn any 17-byte message into a 19-byte one that nobody sent |
| `Stream.RawEtxChecksum` | src/stream.c:136-140 | an 18-byte message whose checksum 0x7F arrives unescaped is returned |
| `Stream.AbandonedStartLosesMessage` | src/stream.c:129-132 | a concrete abandoned start after which a good frame ends in an error |
| `StreamCalls.CallsReturn` | src/stream.c:105-188 | what successive calls return over any stream of sealed frames, message by message, by whether each is decodable or keeps its call waiting |
| `StreamCalls.SuccessiveCallsReturnAll` | src/stream.c:105-188 | every message of a stream is returned, in order, when none is 17 bytes long |
| `StreamCalls.OthersReturn` | src/stream.c:105-188 | with 17-byte messages in the stream all the others are returned, in order, when sealing those leaves nothing to escape |
| `StreamCalls.SeventeenCanCostTheNext` | src/stream.c:129-155 | a 17-byte message with an escape can make its successor be lost too |
| `Charger.ChargeLoop.constructor` | avr/bat3.c:443-466 | the state the loop starts from |
| `Charger.ChargeLoop.CommandCheck` | avr/bat3.c:549-606 | commands 3 and 4 on the whole state |
| `Charger.ChargeLoop.LogUpdate` | avr/bat3.c:468-536 | the duty-cycle timer on the whole state (what it does over runs: `ChargeRuns.DutyCycleIsExact`, `ChargeRuns.WakeExactly`) |
| `Charger.ChargeLoop.PowerWatch` | avr/bat3.c:646-665 | the power-failure countdown, and when it commands a shutdown |
| `Charger.ChargeLoop.UpdatePwm` | avr/bat3.c:666-701 | bisection while unlocked, unit steps while locked and on line power, with C's division |
| `Charger.ChargeLoop.AfterReply` | avr/bat3.c:644-701 | timer, countdown and PWM update together are one step of the round on the whole state |
| `Daemon.WidthsHold` | avr/bat3.c:667-701 | whatever the board replies, echo or not, no 16-bit field of the loop wraps around |
| `Daemon.RequestInit` | avr/bat3.c:47-66 | the request repeats the reply's outputs and PWM times, with no alarm, soft-JP3 cleared and the LED by power and charging |
| `Daemon.OutputsBitByBit` | avr/bat3.c:47-66 | each of the sixteen output bits of a request: PWM1 and PWM2 as decided, op-amp on, soft-JP3 off, the LED off on battery, toggled while a PWM is enabled and on otherwise, all others repeated |
| `Daemon.BoardReplyFields` | avr/bat3.h:41-72 | the bytes of a reply that the controller reads: current at 6, low time at 8, and bit 7 of byte 14 for running on battery |
| `Daemon.EchoConfirms` | avr/bat3.c:376-390 | an accepted reply reports the PWM times and PWM outputs asked for, and the op-amp on |
| `Daemon.RoundOnPort` | avr/bat3.c:637-706 | a round on the serial port steps the controller on the first checksum-valid reply of the line; the frames sent repeat that reply bit by bit but for what the controller decides, with no alarm, and ask for exactly its settings; if the request is accepted the last reply read has reported them; the replies read are the next ones of the line, which is left fit for the next round; with no reply only the command takes effect |
| `DaemonRuns.ChargeOnPort` | avr/bat3.c:637-706 | any number of rounds on one line is a run of the controller, on replies read in order from the line, every finished round confirmed by the board, with the shutdowns of that run; it ends early only when the board is silent or five replies, or all there are, do not echo the request; on a board that keeps its low time the run is echoed, the PWM stays in range and the search ends, and on a falling curve a new target is reached |
| `DaemonRuns.KeptIsEchoed` | avr/bat3.c:644-704 | if every round's first reply repeats the low time that ended the round before, and the first one what the controller knows, every prefix of the run starts its rounds from what the controller set last |
| `DaemonRuns.DaemonIsRegulated` | avr/bat3.c:667-704 | such a run keeps the period, the low time and the bracket in range and locks within 1 + ceil(log2(lockMax)) rounds unless a command restarts the search |
| `DaemonRuns.DaemonReachesTarget` | avr/bat3.c:637-706 | from a start, or from a command in the first round that restarts the search, with replies on a falling curve that crosses the target in steps of at most the band, the daemon ends locked in band on the last setting whose current is above the target, if the on-time is long enough |
| `ChargeRuns.PwmStaysInRange` | avr/bat3.c:667-701 | on every run, from the first update on, the period is lockMax, the low time and the bracket are in range, and the loop is locked or its request lies strictly inside the bracket |
| `ChargeRuns.SearchEnds` | avr/bat3.c:688-701 | for any readings and from any stale or inverted bracket, the loop locks within 1 + ceil(log2(lockMax)) rounds unless a command restarts the search |
| `ChargeRuns.DutyCycleIsExact` | avr/bat3.c:505-527 | after n seconds on line power the timer is on - (n mod (on + off)), on every run without commands |
| `ChargeRuns.LineTicksAreSeconds` | avr/bat3.c:468-505 | those seconds are the changes of the clock in rounds on line power |
| `ChargeRuns.CommandSetsCycle` | avr/bat3.c:576-603 | after a command the timer follows the command's own times, negative ones counting as 0, or one second on and none off, on every run without further commands |
| `ChargeRuns.WakeExactly` | avr/bat3.c:516-525 | whenever the seconds on line power complete a period, the target is the commanded current again, the PWMs are on if and only if that is positive, and the lock is released: the round is one of the search |
| `ChargeRuns.BatteryHolds` | avr/bat3.c:670-687 | whatever they read, rounds on battery leave target, lock, bracket, setting and timer of a locked loop as they were |
| `ChargeRuns.TargetAlwaysFollowsPhase` | avr/bat3.c:505-527 | in every reachable state the target is 0 or the commanded one, and 0 in the off phase of a cycle with an on-time |
| `ChargeRuns.GivenUpForGood` | avr/bat3.c:505-527 | in a duty cycle without an off phase, or with an on-time of 0, a given-up target stays given up, with the PWM off, until a command |
| `ChargeRuns.PendingHasClosedForm` | avr/bat3.c:647-665 | the countdown is a closed form in the number of consecutive seconds on battery, on every run |
| `ChargeRuns.ShutdownExactly` | avr/bat3.c:647-665 | a shutdown is commanded exactly at the k-th consecutive second on battery for k = d + 1, d + 16, d + 31 and so on; with no delay set, never |
| `ChargeRuns.BatteryTicksAreSeconds` | avr/bat3.c:646-665 | those seconds are the changes of the clock in rounds on battery |
| `ChargeRuns.StartMeetsAll` | avr/bat3.c:443-466 | every echoed run from the start has period 500, low time and bracket in range, a target that follows the phase, and a timer and countdown that count the seconds of the clock |
| `ChargeControl.SearchFinds` | avr/bat3.c:688-701 | on a steady battery, whatever the first reading while the PWMs are still off, the search locks on two neighbouring settings measured on the two sides of the target, requesting the lower |
| `ChargeControl.SearchIsCorrect` | avr/bat3.c:688-701 | if a falling curve crosses the target in range, the search locks, within 1 + ceil(log2(lockMax)) rounds, on the last setting whose current is above the target, also from PWMs that are off |
| `ChargeControl.LockedHolds` | avr/bat3.c:670-687 | in band, or with nothing to regulate, a locked loop never moves |
| `ChargeControl.RegulationConverges` | avr/bat3.c:670-687 | locked regulation is in band after at most the distance to any in-band setting, and keeps its target |
| `ChargeControl.GivesUpExactly` | avr/bat3.c:670-687 | a locked loop gives its target up if and only if the current at an end of the range is out of band on the wrong side |
| `ChargeControl.SearchLocksInBand` | avr/bat3.c:670-701 | if the curve also falls by at most the band per step, the setting the search locks on is in band and the loop stays there |
| `ChargeControl.ConvergesFromAnywhere` | avr/bat3.c:667-701 | from every safe state, stale or inverted bracket included, the loop ends locked in band if any setting is in band; a state that is locked already must have its PWMs on, as it has after every round |
| `ChargeControl.AlwaysOnIsSteady` | avr/bat3.c:505-527 | without an off phase, or with an on-time of 0, the clock never disturbs regulation |
| `ChargeControl.OnPhaseIsSteady` | avr/bat3.c:505-527 | nor does it while an on-phase lasts, by the seconds counted on line power |
| `ChargeControl.OffPhaseIsOffExactly` | avr/bat3.c:587-602 | after a duty-cycle command every run without commands has its PWMs off in its off phases if and only if the on-time is positive or the commanded current is not |
| `ChargeControl.NewCurrentIsReached` | avr/bat3.c:576-603 | from any safe state, PWMs on or off, a command for a current more than 3000 uA from the one in force is locked in band within 1 + ceil(log2(lockMax)) rounds, when a falling curve crosses that current in steps of at most the band, and stays so while the first on-phase lasts, or for good if there is no off phase |
| `ChargeControl.StartIsReached` | avr/bat3.c:443-466 | so does the program from its start, within ten rounds, if its on-time is long enough (the condition that avr/bat3.c:506 asks for) |
| `ChargeControl.LaterOnPhaseReachesBand` | avr/bat3.c:505-527 | every later on-phase that is long enough ends locked in band at the commanded current too, if any setting is in band |
| `ChargeControl.PowerFailureIsHarmless` | avr/bat3.c:670-687 | a loop in band before a power failure is in band at the same setting in the first round after it, and stays so |
| `Loader.Bat3.CalcLoad` | src/bat3func.c:70-116 | the new low time, with C's division, two step sizes and the clamps |
| `Loader.Bat3.DoLoad` | src/bat3func.c:193-280 | one call on the whole state of board and plan |
| `Loader.Action.ResetHistory` | src/bat3func.c:63-68 | the history is empty and both timers are zero |
| `Loader.Action.ProcessFirstDegree` | src/bat3func.c:118-153 | the shifting array becomes the window with the next filter value |
| `Loader.Action.CheckStable` | src/bat3func.c:155-191 | the verdict and the stable time, on the whole state |
| `LoadRuns.WindowIsRecentHistory` | src/bat3func.c:142-151 | the shifting array holds the last 29 values of the unbounded filter history, in order |
| `LoadRuns.RunHoldsRecentHistory` | src/bat3func.c:244-253 | on every run of doload, resets, targets and rests included, the array is the end of the filter history of exactly the voltages recorded since the last reset |
| `LoadRuns.HistoryIsBounded` | src/bat3func.c:126-138 | every filtered value lies between the least and the greatest input since the reset |
| `LoadRuns.CalmExactly` | src/bat3func.c:162-168 | two successive values differ by less than 1 exactly when the new input is within 100 of the last weight |
| `LoadRuns.VerdictIsEarned` | src/bat3func.c:155-191 | on every run, stable means that every check over more than 15 minutes back to the stable time was calm, with no reset between |
| `LoadRuns.VerdictExactly` | src/bat3func.c:155-191 | and it is exact: the verdict is given if and only if the calm checks that end the log started more than 15 minutes ago, after a check that was not calm, a reset or a new target |
| `LoadRuns.VerdictComes` | src/bat3func.c:155-191 | if all checks since one more than 15 minutes ago were calm, on a clock that does not run backwards, the verdict is given |
| `LoadRuns.RestsExactly` | src/bat3func.c:255-276 | after a call on line power the op-amp is off if and only if the calm checks that end the log started more than 15 minutes and less than a day ago |
| `LoadRuns.RecordsOnceASecond` | src/bat3func.c:244-253 | over every run a call finds the alarm set, and so records nothing, if and only if a call since the last one on battery was made in the same second or a later one |
| `LoadRuns.VerdictLasts` | src/bat3func.c:244-276 | from then on, on line power, the history is frozen, the verdict stands, and the op-amp is off exactly until the stable time is a day old |
| `LoadRuns.StepApproaches` | src/bat3func.c:80-92 | one step in band stays, one out of band comes closer to any in-band setting without crossing it |
| `LoadRuns.StepIsSized` | src/bat3func.c:80-92 | where no clamp holds, a step is ten when more than 100 mA off and one when more than 10 |
| `LoadRuns.LoadingConverges` | src/bat3func.c:70-116 | repeated steps stay on their side of an in-band setting and are in band for good after at most the distance to it |
| `LoadRuns.ReachableTargetIsReached` | src/bat3func.c:70-116 | a target between the currents at the clamps is reached from anywhere in range |
| `LoadRuns.TooSmallTargetEndsAtCeiling` | src/bat3func.c:109-110 | a target below the current at the ceiling drives the low time to the ceiling |
| `LoadRuns.TooLargeTargetEndsAtFloor` | src/bat3func.c:94-107 | a target above the current at the floor drives the low time to the floor |
| `LoadRuns.DoloadStaysOnCourse` | src/bat3func.c:193-280 | over every run of calls on line power, resting and charging in any order, from any period that holds the low time (src/bat3.h:35-36), with any readings while the charger is off: no in-band setting is crossed before the first charging call on such a reading; after R of those and k charging calls since, the low time is in band or within distance + 10 R - k of the setting, one more if the period was short |
| `LoadRuns.EveryCallMovesLittle` | src/bat3func.c:80-92 | on such runs no call moves the low time by more than 10 |
| `LoadRuns.ResumeStaysExactly` | src/bat3func.c:80-110 | a call on a reading that is not of the curve leaves the low time alone exactly if the reading is in band or a clamp holds it |
| `LoadRuns.ResumeOvershoots` | src/bat3func.c:255-276 | a charger in band, switched off until its stable time is a day old, resumes on a reading of no current and takes the low time ten below its in-band setting, or to the floor |
| `LoadRuns.ChargingPowersExactly` | src/bat3func.c:198-276 | after any call op-amp and both PWMs are on exactly if it is on line power, charges, and is time-based or does not find the op-amp on with a PWM off |
| `LoadRuns.BatteryStopsAll` | src/bat3func.c:198-213 | after a call on battery op-amp, PWMs, buck, offset and soft-JP3 are off, low time and period are kept, `updated` is the time of the call, and the history starts over |
| `LoadRuns.NothingOnWithBattery` | src/bat3func.c:198-213 | no call of any run leaves op-amp, a PWM, buck or offset on while on battery |
| `LoadRuns.CallLeavesReadings` | src/bat3func.c:193-280 | no call touches the voltage, the current or the battery flag that it was given, and every call clears soft-JP3 |
| `LoadRuns.CallLeavesAlone` | src/bat3func.c:227-276 | on line power a call that rests changes nothing but the op-amp, soft-JP3 and the PWMs, and the PWMs in the stability branch only if it finds the op-amp on; one that charges switches buck and offset off |
| `LoadRuns.DoloadReachesBand` | src/bat3func.c:193-280 | whatever low time, period and readings the board starts with, the first charging call sets the period, from the second on the low time is in range, and every call that then charges on a reading of the curve brings it a step closer until it is in band; a charging call on any other reading starts this count again |

## Left out

- Integer widths of targets and timers: `targetI * 1000` and the timers are unbounded, so a UDP command large enough to overflow 32 bits is not covered; the 16-bit fields are, by `Daemon.WidthsHold`.
- Avr.Port.SendRequest: the callback's code 2 is treated as a refusal, as the code does, so its comment about a reply without a resend is not claimed.
- ChargeRuns.DutyCycleIsExact: for a positive on-time and a non-negative off-time; negative values can only come from the command line.
- LoadRuns.DoloadStaysOnCourse: that no in-band setting is ever crossed, also after a rest, is false of the code and not promised; how far a resumption can take the low time is.
- LoadRuns.VerdictLasts: for `hours == 0`; the time-based branch of `doload` is modelled but only its PWM steps have lemmas.
- Stream.SecondDecoderExactly: for buffers with room for the message, its checksum and one more byte; a longer message is cut (`Stream.LongMessageIsCut`), but what a full buffer holds when the first escape is also at the stale position is not characterised.
- `smoothAverage`, averages and the log packet: they do not feed back into control, and `smoothAverage` does not drop the extremes it means to.
- The EEPROM requests, and `encodemsg` / `decodemsg` of the second program: bit mappings without state.
- `lib/ByteArray.c`: textbook array helpers.
- Sockets, terminals, daemon and command-line handling, drawing and file dumps: input and output only.
- Floating-point rounding in the filter and the voltage and temperature conversions.
- DaemonRuns.ChargeOnPort: the board appears as the byte stream it sends; that its low time does not change between two rounds is a hypothesis (`BoardKeeps`), not a theorem.
