# SUMP logic analyzer engine in Dafny

This project models the capture and protocol engine of an Arduino SUMP logic
analyzer (`src/logic_analyzer.h`). The engine has four parts:

- **The ring buffer.** It holds the captured samples. It overwrites the oldest
  sample when full, and it can be told to drop a number of future samples.
- **The 4-byte command argument.** It is decoded big-endian.
- **The capture engine.** It waits for the trigger, splits the buffer between
  pre-trigger and post-trigger samples, captures `readCount` samples, stops and
  dumps them.
- **The command dispatcher.** It handles RESET, ID, GET_METADATA, ARM, the
  trigger mask and values, the divider, the read/delay counts and the flags.

The modules:

- `SumpProtocol`: opcodes, the command argument, the narrowing of an argument
  to the sample width, and the byte layout of the ID and metadata replies.
  Also a reader for the metadata reply, as a client parses it.
- `Bitwise`: C's `^` and `&` on unsigned integers, bit by bit.
- `Frequency`: the divider against SUMP's 100 MHz clock, and the delay
  between samples.
- `RingSpec`: the ring buffer as a value (`Ring`): its contents oldest first,
  and its pending ignore count.
- `RingBuffers`: the `RingBuffer` class. It has the source's four counters
  and an array, updated in place. Its methods are proved against `RingSpec`.
- `CaptureSpec`: the engine state as a value (`Engine`), and capture as a
  function: trigger search, retention, bounded fill, stop and dump.
- `DispatchSpec`: `processCommand` as a function on `Engine`.
- `Analyzer`: the `LogicAnalyzer` class. Its fields are updated in place,
  and it owns a `RingBuffer`. Every method's `ensures` gives the new
  `Snapshot()` in terms of the old one. It does so through a `CaptureSpec` or
  `DispatchSpec` function, or through a record update of `old(Snapshot())`.
  `Reset`, the setters, `WriteNumber` and `WriteText` use a record update.
  `KeepWindow` and `CaptureAll` state only the new buffer state, and their
  `modifies` frames keep the other fields.

How the inputs are modelled:

- **The pin reader** is a sequence of samples, one per read. A blocking loop
  (the trigger wait, the capture loop) that runs out of input stops where it
  is. The engine is then left in that state: still waiting, or still
  capturing.
- **The clock** of the RESET debounce is a parameter `now`.
- **The command stream:** what is written to it is the ghost `output`
  sequence. It holds raw reply bytes, dumped samples and streamed samples.
- **The event handler:** the events it is sent are the ghost `events` sequence.

How the code differs from the comments in it:

- **Pre-trigger samples are never captured.** The comment at
  `src/logic_analyzer.h:719-728` says that `readCount - delayCount` pre-trigger samples are returned when
  `delayCount < readCount`. The code does not do this. ARM sets the status to ARMED
  (`src/logic_analyzer.h:678`), and `captureSample` buffers only while
  TRIGGERED (`src/logic_analyzer.h:362`). So a capture that starts from an empty buffer returns only
  samples read after the trigger. The model follows the code.
  `CaptureSpec.BoundedCaptureDumps` and `DispatchSpec.ArmDumpsWindow` state
  this: the dump is `pins[k + skip .. k + skip + readCount]`, with
  `skip = max(0, delayCount - readCount)`.

## Model

| member | source | states |
|---|---|---|
| SumpProtocol.CommandArg.Get16 | src/logic_analyzer.h:69-72 | field `idx` is below 2^16; its high byte is wire byte 2·idx and its low byte is wire byte 2·idx+1 (network order) |
| SumpProtocol.CommandArg.Get32 | src/logic_analyzer.h:74-77 | the four wire bytes as one big-endian number below 2^32; `Get32Encodes` and `Get32IsTwoHalves` state which number |
| SumpProtocol.Be32 | src/logic_analyzer.h:553 | the four bytes `htonl` puts on the wire; no contract of its own, `Be32Decodes` and `Get32Encodes` state that it inverts get32 |
| SumpProtocol.Be32Decodes | src/logic_analyzer.h:74-77 | encoding any 32-bit number in network order and decoding it with get32 gives the number back |
| SumpProtocol.Get32Encodes | src/logic_analyzer.h:74-77 | decoding four wire bytes with get32 and re-encoding gives the same four bytes, so get32 is a bijection |
| SumpProtocol.Get32IsTwoHalves | src/logic_analyzer.h:69-77 | get32 is get16(0)·2^16 + get16(1) |
| SumpProtocol.PinBitArray | src/logic_analyzer.h:574-584 | the argument narrowed to the sample width: 1 byte keeps the top byte of get32, 2 bytes the top half, otherwise all 32 bits |
| SumpProtocol.ParseTaggedNumber | src/logic_analyzer.h:551-556 | a tag followed by a big-endian 32-bit number reads back as that number field, whatever follows |
| SumpProtocol.ParseTaggedText | src/logic_analyzer.h:559-564 | a tag followed by a NUL-free text and a NUL reads back as that text field, whatever follows |
| SumpProtocol.TaggedNumber | src/logic_analyzer.h:551-556 | the bytes `write(cmd, number)` sends; no contract of its own, `ParseTaggedNumber` states that they read back as the number field |
| SumpProtocol.TaggedText | src/logic_analyzer.h:559-564 | the bytes `write(cmd, str)` sends; no contract of its own, `ParseTaggedText` states that they read back as the text field |
| SumpProtocol.Metadata | src/logic_analyzer.h:622-635 | the bytes `sendMetadata` sends; no contract of its own, `MetadataFields` states the fields they read back as |
| SumpProtocol.ParseProtocolVersionTail | src/logic_analyzer.h:512 | the protocol-version bytes 0x41 0x02 then 0x00 read as the one-byte field "protocol version 2", followed by the end mark |
| SumpProtocol.MetadataFields | src/logic_analyzer.h:622-635 | the metadata reply reads back as exactly these fields: description "ARDUINO", probe count, sample memory, sample rate mod 2^32, protocol version 2 |
| Bitwise.MaskedXorZero | src/logic_analyzer.h:275 | `(v ^ s) & m == 0` exactly when `v & m == s & m` |
| Bitwise.MaskedEqualBitwise | src/logic_analyzer.h:275 | `v & m == s & m` exactly when v and s agree on every bit m selects |
| Bitwise.AndPowerOfTwo | src/logic_analyzer.h:744 | masking with 2^k leaves 2^k when bit k is set and 0 otherwise |
| Bitwise.SingleBitMask | src/logic_analyzer.h:744 | `a & 2^k != 0` exactly when bit k of a is set |
| Frequency.FrequencyOf | src/logic_analyzer.h:611-615 | the frequency f of a divider d is the floor of 10^8/(d+1): f·(d+1) ≤ 10^8 < (f+1)·(d+1) |
| Frequency.DelayTimeUs | src/logic_analyzer.h:443-449 | for a rate up to 10^6 the delay d satisfies (d+1)·v ≤ 10^6 < (d+2)·v (truncated 10^6/v − 1); above 10^6 it is 0 |
| Frequency.FrequencyPositive | src/logic_analyzer.h:611-615 | every divider below 10^8 selects a non-zero rate |
| Frequency.DividerGivesPeriod | src/logic_analyzer.h:597-615 | divider 100k − 1 with k dividing 10^6 gives rate 10^6/k and delay k − 1 |
| Frequency.CommonDividers | src/logic_analyzer.h:597-615 | divider 99 is 1 MHz with delay 0; divider 199 is 500 kHz with delay 1 |
| RingSpec.Write | src/logic_analyzer.h:109-123 | a pending ignore count only counts down; otherwise the ring holds the newest `cap` of its contents plus the new sample, never more than `cap` |
| RingSpec.Read | src/logic_analyzer.h:126-136 | an empty ring reads 0 and is unchanged; otherwise the oldest sample comes out and the rest stay in order |
| RingSpec.ClearN | src/logic_analyzer.h:147-157 | clear(n) drops the oldest min(n, available) samples and arms the ignore count with n − available when n exceeds it, else 0 |
| RingSpec.Drain | src/logic_analyzer.h:154-156 | the read loop of clear(n); no contract of its own, `DrainDrops` states what k reads leave |
| RingSpec.WriteAll | src/logic_analyzer.h:109-123 | repeated write(): never more than `cap` samples held; `WriteAllKeepsNewest`, `IgnoredWritesDropped` and `WriteAllAfterIgnore` state which ones |
| RingSpec.DrainDrops | src/logic_analyzer.h:126-136 | k reads drop the oldest min(k, available) samples and leave the ignore count alone |
| RingSpec.WriteAllKeepsNewest | src/logic_analyzer.h:108-123 | with nothing to ignore, any run of writes leaves the newest `cap` samples of everything written, in write order |
| RingSpec.IgnoredWritesDropped | src/logic_analyzer.h:109-113 | up to ignore-count writes leave the contents as they were and count the ignore count down |
| RingSpec.WriteAllAfterIgnore | src/logic_analyzer.h:109-113 | writing into a ring with ignore count i is writing all but the first i samples into the same ring with nothing to ignore |
| RingSpec.OverClearLookahead | src/logic_analyzer.h:146-157 | clear(available + m) empties the ring, drops the next m writes and stores the one after them |
| RingSpec.WritePosAfter | src/logic_analyzer.h:114-117 | the write index after any number of stored writes stays within 0..size |
| RingSpec.WritePosCounts | src/logic_analyzer.h:114-117 | until it wraps, the write index equals the number of stored writes |
| RingSpec.WritePosPeriod | src/logic_analyzer.h:114-117 | the write index repeats after size + 1 stored writes |
| RingSpec.WriteReachesUnallocatedSlot | src/logic_analyzer.h:95-117 | after `size` stored writes from clear(), the write index is `size`, which is not an index of an array of `size` elements |
| RingBuffers.RingBuffer.constructor | src/logic_analyzer.h:95-97 | an empty buffer of the given capacity, nothing to ignore, both indices 0 |
| RingBuffers.RingBuffer.IndexInvariant | src/logic_analyzer.h:114-121 | in every valid state `(readPos + availableCount) % (sizeCount + 1) == writePos` |
| RingBuffers.RingBuffer.Write | src/logic_analyzer.h:109-123 | the buffer becomes `RingSpec.Write` of what it held; while ignoring, indices and array are untouched; otherwise the write index moves as `RingSpec.NextWritePos` |
| RingBuffers.RingBuffer.Store | src/logic_analyzer.h:114-122 | with nothing to ignore, storing at the write index, wrapping it and moving the read index when full leaves the buffer valid and at `RingSpec.Write` of what it held; the write index moves as `RingSpec.NextWritePos`, the index that `RingSpec.WriteReachesUnallocatedSlot` follows |
| RingBuffers.RingBuffer.Read | src/logic_analyzer.h:126-136 | the sample and the new contents are `RingSpec.Read` of the old; an empty buffer changes no index |
| RingBuffers.RingBuffer.Clear | src/logic_analyzer.h:139-144 | all four counters are 0 and the buffer is empty |
| RingBuffers.RingBuffer.ClearN | src/logic_analyzer.h:147-157 | the read loop leaves the buffer at `RingSpec.ClearN` of what it held |
| RingBuffers.RingBuffer.Available | src/logic_analyzer.h:160-162 | the number of held samples, never above the capacity |
| RingBuffers.RingBuffer.Size | src/logic_analyzer.h:165-167 | the capacity, positive, and at least the number held |
| CaptureSpec.SetStatus | src/logic_analyzer.h:261-267 | the status changes, one STATUS event is raised, buffer and output are untouched |
| CaptureSpec.SatisfiedMeansAgreement | src/logic_analyzer.h:275 | a sample satisfies the trigger exactly when it agrees with the trigger values on every masked bit |
| CaptureSpec.Satisfied | src/logic_analyzer.h:275 | the trigger test `(values ^ s) & mask == 0`; no contract of its own, `SatisfiedMeansAgreement` states that it is agreement on the masked bits |
| CaptureSpec.TriggerIndex | src/logic_analyzer.h:275 | the trigger position, when there is one, is a position of the input |
| CaptureSpec.TriggerIndexIsFirst | src/logic_analyzer.h:273-277 | the wait ends at the first satisfying sample: it satisfies the trigger and none before it does; with no position, no sample does |
| CaptureSpec.ObserveOne | src/logic_analyzer.h:355-366 | one sample is streamed in continuous mode, written to the buffer while triggered, and otherwise only looked at |
| CaptureSpec.Observe | src/logic_analyzer.h:355-366 | captureSample over a run of samples at one status; no contract of its own, `ObserveOne` states the effect of one sample |
| CaptureSpec.Retain | src/logic_analyzer.h:283-295 | keep > 0 with more held keeps the newest keep samples; keep > 0 otherwise changes nothing; keep < 0 empties and ignores −keep future samples; keep = 0 empties. The `keep > 0 && available <= keep` branch discards nothing: with readCount 1000, delayCount 250 and 700 held, all 700 stay |
| CaptureSpec.Fill | src/logic_analyzer.h:321-327 | the capture loop reads no more samples than there are |
| CaptureSpec.FillWrites | src/logic_analyzer.h:321-327 | the capture loop writes a prefix of the input and stops only with readCount held or the input used up |
| CaptureSpec.FillCounts | src/logic_analyzer.h:321-335 | from at most readCount ≤ capacity held, the loop reads exactly ignore + readCount − available samples and then holds readCount: the old ones, then the samples after the ignored ones |
| CaptureSpec.Dump | src/logic_analyzer.h:587-595 | every held sample is sent oldest first and the buffer is drained |
| CaptureSpec.DumpAfterWrites | src/logic_analyzer.h:108-136 | after writes into an empty buffer, the dump sends the newest min(writes, capacity) samples in write order and leaves it empty |
| CaptureSpec.AfterTrigger | src/logic_analyzer.h:273-281 | the first sample after the trigger is within the input |
| CaptureSpec.AfterTriggerSteps | src/logic_analyzer.h:283-318 | the steps after the trigger read no more samples than there are |
| CaptureSpec.Capture | src/logic_analyzer.h:270-318 | a capture reads no more samples than there are |
| CaptureSpec.ZeroMaskSkipsWait | src/logic_analyzer.h:273-281 | with a zero mask no sample is read before the status becomes TRIGGERED |
| CaptureSpec.CaptureFrom | src/logic_analyzer.h:270-281 | an engine neither continuous nor triggered changes nothing while waiting, so capture resumes from it with status TRIGGERED |
| CaptureSpec.BoundedStepsDump | src/logic_analyzer.h:283-318 | from an empty buffer: skip max(0, delay − read) samples, dump the next readCount in order, stop with one STATUS event |
| CaptureSpec.BoundedCaptureDumps | src/logic_analyzer.h:270-335 | an armed capture from an empty buffer ends STOPPED and empty, and dumps exactly the readCount samples after the skip that follows the trigger |
| DispatchSpec.Begin | src/logic_analyzer.h:218-247 | begin() leaves an empty buffer within capacity |
| DispatchSpec.MetadataPieces | src/logic_analyzer.h:622-635 | the five writes of sendMetadata together send the metadata reply |
| DispatchSpec.SetCaptureFrequency | src/logic_analyzer.h:443-449 | the rate is set, the delay is `DelayTimeUs` of it, one CAPTURE_FREQUENCY event, nothing else changes |
| DispatchSpec.ContinuousFlagIsBit6 | src/logic_analyzer.h:744 | the SET_FLAGS test `b1 & 0x40 != 0` is bit 6 of the second argument byte |
| DispatchSpec.ContinuousFlag | src/logic_analyzer.h:744 | the test `b1 & 0x40 != 0`; no contract of its own, `ContinuousFlagIsBit6` states that it is bit 6 of byte 1 |
| DispatchSpec.Dispatch | src/logic_analyzer.h:640-757 | a command reads no more samples than there are, and only ARM reads any |
| DispatchSpec.IgnoredCommands | src/logic_analyzer.h:641-757 | without a pin reader every command, and TRIGGER_CONFIG and unknown opcodes always, leave the engine unchanged |
| DispatchSpec.ResetOnlyDebounces | src/logic_analyzer.h:647-653 | RESET changes only the debounce deadline: to now + 500 once it has passed, otherwise not at all |
| DispatchSpec.ResetBurstDebounced | src/logic_analyzer.h:647-653 | a second RESET within 500 ms of an accepted one changes nothing |
| DispatchSpec.IdReply | src/logic_analyzer.h:658-663 | ID appends the bytes "1ALS" to the output and changes nothing else |
| DispatchSpec.MetadataReply | src/logic_analyzer.h:668-671 | GET_METADATA appends the metadata reply, which reads back as its five fields, and changes nothing else |
| DispatchSpec.ReadDelayClamped | src/logic_analyzer.h:729-739 | SET_READ_DELAY_COUNT sets read = min(b0·256 + b1, max) and delay = min(b2·256 + b3, max), raising one event |
| DispatchSpec.FlagsSelectContinuous | src/logic_analyzer.h:741-749 | SET_FLAGS makes capture continuous exactly when bit 6 of byte 1 is set, raising one event |
| DispatchSpec.DividerSetsRate | src/logic_analyzer.h:710-718 | SET_DIVIDER sets the floor of 10^8/(d+1) as the rate and its delay, and nothing else |
| DispatchSpec.DividerRates | src/logic_analyzer.h:597-615 | SET_DIVIDER 99 gives 1 MHz with delay 0; 199 gives 500 kHz with delay 1 |
| DispatchSpec.ArmDumpsWindow | src/logic_analyzer.h:676-681 | ARM from an empty buffer passes through ARMED, TRIGGERED, STOPPED and dumps the readCount samples after trigger and skip |
| DispatchSpec.ReadHundredThenArm | src/logic_analyzer.h:729-739 | SET_READ_DELAY_COUNT (100, 50) then ARM with no mask dumps exactly the first 100 samples read |
| Analyzer.LogicAnalyzer.constructor | src/logic_analyzer.h:218-247 | begin(): the object is `DispatchSpec.Begin` of its setup, with a fresh buffer |
| Analyzer.LogicAnalyzer.SetStatus | src/logic_analyzer.h:261-267 | the object moves as `CaptureSpec.SetStatus` says |
| Analyzer.LogicAnalyzer.SetTriggerValues | src/logic_analyzer.h:393-397 | only the trigger values change, with one TRIGGER_VALUES event |
| Analyzer.LogicAnalyzer.SetTriggerMask | src/logic_analyzer.h:405-409 | only the trigger mask changes, with one TRIGGER_MASK event |
| Analyzer.LogicAnalyzer.SetReadCount | src/logic_analyzer.h:417-419 | only the read count changes |
| Analyzer.LogicAnalyzer.SetDelayCount | src/logic_analyzer.h:427-430 | only the delay count changes |
| Analyzer.LogicAnalyzer.SetContinuousCapture | src/logic_analyzer.h:457-459 | only the continuous flag changes |
| Analyzer.LogicAnalyzer.SetCaptureFrequency | src/logic_analyzer.h:443-449 | the object moves as `DispatchSpec.SetCaptureFrequency` says |
| Analyzer.LogicAnalyzer.Reset | src/logic_analyzer.h:467-472 | STOPPED, the first maxCaptureSize array slots zeroed, the buffer empty, STATUS then RESET raised |
| Analyzer.LogicAnalyzer.CaptureSample | src/logic_analyzer.h:355-366 | returns the sample read and observes it as `CaptureSpec.Observe` says |
| Analyzer.LogicAnalyzer.AwaitTrigger | src/logic_analyzer.h:273-281 | the wait loop stops exactly at `CaptureSpec.AfterTrigger`, or reads the whole input when the trigger never fires |
| Analyzer.LogicAnalyzer.KeepWindow | src/logic_analyzer.h:285-295 | the buffer becomes `CaptureSpec.Retain` of what it held |
| Analyzer.LogicAnalyzer.CaptureAll | src/logic_analyzer.h:321-335 | while TRIGGERED the loop leaves the buffer and the count read as `CaptureSpec.Fill` says; otherwise it reads nothing |
| Analyzer.LogicAnalyzer.DumpData | src/logic_analyzer.h:587-595 | with a pin reader the object becomes `CaptureSpec.Dump` of itself; without one nothing changes |
| Analyzer.LogicAnalyzer.CaptureAfterTrigger | src/logic_analyzer.h:283-318 | the steps after the trigger, as `CaptureSpec.AfterTriggerSteps` says |
| Analyzer.LogicAnalyzer.Capture | src/logic_analyzer.h:270-318 | the object and the count read are `CaptureSpec.Capture` of the object before |
| Analyzer.LogicAnalyzer.SetupDelay | src/logic_analyzer.h:611-615 | with a pin reader the rate becomes `FrequencyOf(divider)`; without one nothing changes |
| Analyzer.LogicAnalyzer.WriteNumber | src/logic_analyzer.h:551-556 | the tag and the number in network order are appended to the output |
| Analyzer.LogicAnalyzer.WriteText | src/logic_analyzer.h:559-564 | the tag, the text and a NUL are appended to the output |
| Analyzer.LogicAnalyzer.SendMetadata | src/logic_analyzer.h:622-635 | with a pin reader the metadata reply is appended to the output; without one nothing changes |
| Analyzer.LogicAnalyzer.ProcessCommand | src/logic_analyzer.h:640-757 | the object and the count read are `DispatchSpec.Dispatch` of the object before |

## Left out

- Logging (`printLog`), the LED, `delayMicroseconds`, `delay(10)` and the `pinMode` loop of `begin`. They have no effect on the engine state.
- `millis()` is not read: the RESET debounce takes the clock reading `now` as a parameter.
- Stream input (`hasCommand`, `command`, `readBytes`) is not modelled. `ProcessCommand` takes the opcode and the already-read argument. An opcode's argument is read whenever `TakesArgument` says so, even without a pin reader. The source returns before reading it, so in that case the argument bytes would stay in the stream.
- The byte encoding of dumped and streamed samples is not modelled. They are recorded as `Dumped(s)` and `Streamed(s)`. `dumpData` writes a `uint32_t` in memory order, and `write(T)` goes through an overload that is not part of this model.
- The continuous-capture loops (`captureAllContinous`, `captureAllContinousMaxSpeed`) are not modelled. They end only when something outside the engine changes the status. The model leaves a continuous capture in status TRIGGERED right after the retention step.
- `captureAllMaxSpeed` is not a separate member. It differs from `captureAll` only by the missing `delayMicroseconds`, so the threshold that picks it on ARM changes timing only.
- The event handler being unset is not modelled: every raised event is recorded.
- Allocation failure in the `RingBuffer` constructor (capacity 0) is not modelled, and `maxCaptureSize` is required to be positive. The destructors are left out.
- Analyzer.LogicAnalyzer.SetReadCount: takes a `nat`. The source's `int` may be negative, and a negative count is not modelled.
- Analyzer.LogicAnalyzer.SetDelayCount: takes a `nat` for the same reason.
- The sample type `T` is modelled as an integer below 2^32. The width (1, 2 or 4 bytes) is kept as `Setup.width` and matters only when narrowing the argument.
- `setCaptureFrequency(0)` is not modelled. It divides by zero in floating point. `Accepts` therefore requires a SET_DIVIDER divider below 10^8, which selects a rate of at least 1.
- The sample rate and delay start at 0. The source leaves them uninitialised until the first SET_DIVIDER.
- The getters (`status`, `triggerValues`, `triggerMask`, `readCount`, `delayCount`, `captureFrequency`, `delayTimeUs`, `isContinuousCapture`, `size`, `available`, `buffer`) and `setEventHandler` are not modelled. They only read or set one field.
- The serial-stream wrapper `processCommand()` with no argument is not modelled. It reads one opcode and calls `processCommand(int)`.
- `capture_raspberry_pico.h` is not part of this model. It is hardware configuration for the RP2040.
- The XON, XOFF and RLE opcodes fall through to the default case, as in the source.
- `Setup.Valid` bounds `maxCaptureSize` below 2^31. The source takes any `uint32_t`; the bound keeps `read_count = maxCaptureSize`, set by `begin`, a non-negative `int`.
- CaptureSpec.Fill: assumes the status stays TRIGGERED for the whole bounded loop. The source re-tests the status on every pass (`src/logic_analyzer.h:323`, `:332`), so a `setStatus` from outside the engine, which is not modelled, could end the loop early.
- `now` is an unbounded natural number. In the source `millis() + 500` is 32-bit `unsigned long` arithmetic that wraps after about 49.7 days; only the RESET debounce deadline is affected, and the wrap is not modelled.
- CaptureSpec.Fill: its own contract states only that it reads no more samples than there are. What it computes is stated by `CaptureSpec.FillWrites` and `CaptureSpec.FillCounts`.
- CaptureSpec.AfterTriggerSteps: its own contract states only the bound on samples read. What it computes is stated by `CaptureSpec.BoundedStepsDump`.
- CaptureSpec.Capture: its own contract states only the bound on samples read. What it computes is stated by `CaptureSpec.ZeroMaskSkipsWait`, `CaptureSpec.CaptureFrom` and `CaptureSpec.BoundedCaptureDumps`.
- DispatchSpec.Dispatch: its own contract states only which commands read samples. Each command's effect is stated by the lemmas after it.

## Findings

| source | as written | input that shows it | evidently intended | confidence | as-written member | corrected member |
|---|---|---|---|---|---|---|
| src/logic_analyzer.h:95-121 | `RingBuffer(size)` allocates `new T[size_count]`, but the indices wrap only after exceeding `size_count`, so `write` stores to `data[size_count]` | `clear()`, then `size_count` stored writes, then one more write: it goes to slot `size_count`, one past the allocation | an array of `size_count + 1` slots, or wrap tests `>=` with `read_pos = write_pos` | not executed | RingSpec.WriteReachesUnallocatedSlot | RingBuffers.RingBuffer.Write |
