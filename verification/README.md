# A verified model of libsigrok's trigger, arithmetic, session, checksum, replay, text, serial and port-name code

libsigrok drives measurement hardware. This project models the parts of it that are pure state,
arithmetic and search, and proves what they promise, and where they stop promising it.

| file | what it models |
|---|---|
| `TriggerSearch.dfy`, `TriggerRuns.dfy`, `TriggerStreams.dfy`, `SoftTrigger.dfy` | the software trigger: the stage matcher that goes back after a broken match, the circular pre-trigger buffer, whole runs over a stream that is handed over in buffers (`src/soft-trigger.c`) |
| `Rationals.dfy`, `RationalOps.dfy` | exact rationals: the 128-bit branch, the two-limb branch, and how far they agree (`src/analog.c`) |
| `SessionModel.dfy`, `Session.dfy` | the life of a session: starting, event sources, the idle check that ends a run (`src/session.c`) |
| `Crc16.dfy` | CRC-16/MODBUS and the burst errors it detects (`src/crc.c`; CRC Generation, section 6.2.2 of the MODBUS over Serial Line Specification and Implementation Guide V1.02) |
| `Interleave.dfy` | replay of per-channel bitmaps as interleaved samples (`src/session_driver.c`) |
| `Decimal.dfy`, `DecimalNumbers.dfy`, `DecimalConversion.dfy` | the parser of decimal text, the digit counter, the SI printer, and the grammar of decimal numbers that they are measured by (`src/strutil.c`) |
| `Serial.dfy` | the receive queue and the packet search in a byte stream (`src/serial.c`) |
| `HidPort.dfy` | port names of serial-over-HID cables and the parser of connection specs (`src/serial_hid.c`) |
| `Bytes.dfy`, `Datafeed.dfy`, `Wrappers.dfy` | bytes, bits, sequences, multiples; channels and packets; options and return codes |

Code that changes its state step by step is modelled by classes and by methods with loops. Each of them
is tied to a function of the old state, and the promises are lemmas about those functions.

## What turned out not to hold

- The clamp `i = -1` (`src/soft-trigger.c:232`) lands on a sample only when samples are one byte wide.
  `TriggerSearch.ScanMeaning` says exactly when a call restarts in the middle of a sample,
  `TriggerStreams.CarriedMatchRestartsMidSample` gives a stream on which it does.
- A match that lies across two buffers can be missed (`TriggerStreams.StraddlingMatchMissed`).
  `TriggerStreams.CallFiresIff` says exactly when a call fires.
- An edge that is not its stage's first enabled match is compared with zeros on the very first sample
  (`TriggerStreams.TrailingEdgeFiresAtOnce`): `count` counts checks, not samples.
- Without 128-bit integers `sr_rational_mult` can report success with a wrong product, in two ways. Its
  range test can take a numerator out of range for one in range (`RationalOps.LimbBranchSlips`: 2^32
  times 2^32 is 0), and `mult_uint64` loses 2^96 for every cross product of halves that reaches 2^63
  (`RationalOps.LimbBranchMisreadsDenominator`: 2 times 1/2 is 21/5). Together the errors can cancel
  (`RationalOps.LimbErrorsCancel`). For all positive denominators, `RationalOps.LimbBranchRightIff` says
  exactly when a reported product is right, and `RationalOps.LimbBranchAgreesIff` exactly when the branch
  does what the 128-bit branch does, failures included.
- Without 128-bit integers `sr_rational_eq` can misread denominators above INT64_MAX, both ways
  (`RationalOps.OneLargeDenominatorMissed`, `RationalOps.EqLimbsMisreads`).
  `RationalOps.EqLimbsDecidesIff` says exactly when it decides equality, for all arguments.
- `sr_count_digits` accepts texts that `sr_parse_rational` refuses: exactly those with a digit string too
  long for int64_t, or with an exponent mark that has nothing or a space behind it
  (`DecimalNumbers.CountedRefusedIff`; `DecimalNumbers.MarkWithoutDigits` and
  `DecimalNumbers.MarkBeforeSpace` are examples).
- `sr_parse_rational` keeps the exponent in 32 bits: 1E4294967296 is read as 1
  (`DecimalNumbers.LargeExponentWraps`). `DecimalNumbers.ParseExactIff` says exactly when the result is
  the written number, for every accepted text.

## How the model reads the source

- Bytes and registers are natural numbers below their bound, `x | (1 << k)` and exclusive or are defined
  on their binary digits. 64-bit and 32-bit arithmetic of the rationals and of the decimal parser wraps
  around explicitly; where C leaves signed overflow undefined, two's complement is assumed, with
  arithmetic right shifts. Denominators are positive in what is proved about products and quotients.
- `Scan` of the trigger counts in samples. `SoftTriggerLogic.ScanBuffer` keeps the byte index of the source
  beside it. Searching needs at least one logic channel, since the source steps by `unitsize`.
- The session's driver callbacks are lists of actions on event sources (add, remove, destroy, finalize)
  with a return code, so they can do anything to the session that drivers do, except run the main loop or
  start a session from inside. The devices and the trigger of a run are given with the step that starts it.
- Every session run uses the thread-default main context, so that idle checks stay queued after a failed
  start. Source objects are told apart by serial numbers.
- In the packet search the environment says for each turn which bytes arrive, whether the read fails and
  how much time has passed. The validity check is the set of packets that it accepts.
- `strtol` has a 32-bit `long`, as on the platform that `src/config.h` is for.

## Model

| member | source | states |
|---|---|---|
| `TriggerSearch.FreshScanFindsFirst` | src/soft-trigger.c:175-243 | a level trigger entered at stage 0 reports the least sample at which S samples in a row satisfy the S stages, or that there is none and then the stage it stops at is the longest open match of the tail, for every sample width |
| `TriggerSearch.ScanSearches` | src/soft-trigger.c:221-236 | going back after a broken match never skips a start that could still match: all starts before the open candidate are dead |
| `TriggerSearch.ScanMeaning` | src/soft-trigger.c:221-236 | what a call does from any stage; it restarts inside a sample exactly when samples are wider than a byte and the carried match breaks in this call |
| `TriggerSearch.ScanCarries` | src/soft-trigger.c:205-236 | a match carried in goes on with the first sample, and a broken one leads to a fresh search of the buffer (or off the sample grid) |
| `TriggerSearch.SearchedFirstMatch` | src/soft-trigger.c:173-174 | no earlier end and no longer open tail is possible once all earlier starts are dead |
| `Bytes.BitAtIs` | src/soft-trigger.c:149-150 | bit k is counted from the least significant one: it is set iff a division by 2^k leaves an odd quotient |
| `TriggerSearch.ChannelBitIs` | src/soft-trigger.c:149-150 | a channel is bit index % 8, from the least significant one, of byte index / 8 from the front |
| `TriggerSearch.MatchKindsMean` | src/soft-trigger.c:151-168 | what each kind of match asks of a sample and the one before it: one and zero, rising, falling as rising backwards, edge as exactly one of the two, and nothing for over and under |
| `TriggerSearch.CheckMatchMeans` | src/soft-trigger.c:155-157 | only an edge at the very first check fails without being looked at |
| `TriggerSearch.ScanRemembers` | src/soft-trigger.c:147-204 | the sample that edges are compared with next is the last one looked at, and checks are only counted up |
| `TriggerRuns.EmptyStageIsClientError` | src/soft-trigger.c:189-191 | a stage without matches is reported as SR_ERR_ARG and changes nothing |
| `TriggerRuns.WholeRunPreTrigger` | src/soft-trigger.c:83-139 | however a stream is split into buffers, the firing call has sent exactly the last preTriggerSize bytes before the trigger sample, or all of them |
| `TriggerRuns.RunKeepsTail` | src/soft-trigger.c:239-240 | between calls the pending bytes are the last ones of everything fed so far |
| `TriggerRuns.FiringCallSendsTail` | src/soft-trigger.c:210-216 | what a firing call sends in terms of the history and its own buffer |
| `TriggerStreams.FiringIsSound` | src/soft-trigger.c:186-242 | a level trigger that fires has seen its S stages on the last S samples of the whole stream, across buffers |
| `TriggerStreams.CallFiresIff` | src/soft-trigger.c:186-242 | a call fires if and only if the carried match completes or the buffer contains a match, and at which offset |
| `TriggerStreams.StraddlingMatchFoundIff` | src/soft-trigger.c:205-236 | which match across the start of a buffer is found: the one that starts as many samples before it as the stage that was carried in |
| `TriggerStreams.OneStageFiresFirst` | src/soft-trigger.c:141-171 | a one-stage trigger, edges included, fires at the first qualifying sample of the stream, wherever it is split |
| `TriggerStreams.CheckStageCounted` | src/soft-trigger.c:147-157 | which edges the count of checks lets through on the very first sample |
| `TriggerStreams.StraddlingMatchMissed` | src/soft-trigger.c:231-235 | a stream that fires in one buffer and does not in two |
| `TriggerStreams.CarriedMatchRestartsMidSample` | src/soft-trigger.c:231-233 | two-byte samples on which the restart is off the sample grid |
| `TriggerStreams.TrailingEdgeFiresAtOnce` | src/soft-trigger.c:155-157 | an edge behind a level fires on the first sample, the same edge in front does not |
| `CircularBuffer.AppendKeepsLast` | src/soft-trigger.c:83-108 | appending data of any length to a ring keeps the last elements of everything, in order |
| `SoftTrigger.PiecesCarryHeld` | src/soft-trigger.c:122-138 | the held bytes leave in order in at most two packets of whole samples |
| `SoftTrigger.StepBack` | src/soft-trigger.c:231-233 | where the byte index lands after a broken match |
| `SoftTrigger.UnitsizeIsLeast` | src/soft-trigger.c:41 | a sample has as many bytes as the logic channels need, and no more |
| `SoftTrigger.LogicChannelUnitsize` | src/soft-trigger.c:29-42 | bytes per sample, from the number of logic channels, enabled or not |
| `SoftTrigger.SoftTriggerLogic.constructor` | src/soft-trigger.c:44-74 | a fresh trigger: everything zeroed, the buffer as large as asked for |
| `SoftTrigger.SoftTriggerLogic.PreTriggerAppend` | src/soft-trigger.c:83-108 | the contents become the last preTriggerSize bytes of the old contents and the data |
| `SoftTrigger.SoftTriggerLogic.PreTriggerSend` | src/soft-trigger.c:110-139 | all held bytes are sent in order in at most two packets of whole samples, counted in samples, and the buffer is empty and usable again |
| `SoftTrigger.SoftTriggerLogic.LogicCheckMatch` | src/soft-trigger.c:141-171 | one match against one sample and the one before it |
| `SoftTrigger.SoftTriggerLogic.GoBack` | src/soft-trigger.c:221-236 | the byte index after a broken match stands for the sample after its first one, or for the first of the buffer |
| `SoftTrigger.SoftTriggerLogic.ScanBuffer` | src/soft-trigger.c:186-237 | the byte-indexed loop does what the search over samples does, and ends |
| `SoftTrigger.SoftTriggerLogic.Check` | src/soft-trigger.c:175-243 | one call: the reported offset, the new state, and a firing's packets, at most two with the pre-trigger bytes and then one trigger packet |
| `Limbs.MultInt64Exact` | src/analog.c:529-543 | the two limbs are the exact product for all 64-bit arguments |
| `Limbs.MultUint64Value` | src/analog.c:545-560 | what the two limbs are for all arguments: the product less 2^96 for every cross product that reaches 2^63, modulo 2^128 |
| `Limbs.MultUint64ExactIff` | src/analog.c:545-560 | the two limbs are the exact product if and only if both cross products are below 2^63 |
| `Limbs.ProductStaysPositive` | src/analog.c:545-560 | however much is lost, the product of positive denominators is never read as 0, so that the strip loop ends |
| `Limbs.SmallDenominatorsFit` | src/analog.c:545-560 | arguments up to INT64_MAX meet that condition |
| `RationalOps.Mult128Exact` | src/analog.c:618-640 | success if and only if some power of two brings both products into range, and then the exact product with a positive denominator; nothing wraps around |
| `RationalOps.Mult128Form` | src/analog.c:625-638 | a product that fits is returned as it is, any other with all common factors of two taken out |
| `RationalOps.MultLimbsForm` | src/analog.c:649-668 | the limb branch takes out all common factors of two, whether the product fits or not |
| `RationalOps.StripConfluent` | src/analog.c:626-629 | whichever common power of two is taken out first, stripping ends in the same pair |
| `RationalOps.LimbBranchRefines` | src/analog.c:642-671 | whenever the 128-bit branch succeeds the limb branch does, with an equal, fully two-reduced fraction |
| `RationalOps.SameNumerator` | src/analog.c:646-658 | a misread denominator has the factors of two of the exact one, so both branches strip the numerator alike |
| `RationalOps.LimbBranchRightIff` | src/analog.c:642-671 | for all positive denominators, when a product reported with success is the product: for a numerator in range iff it is 0 or no cross product is misread, for a numerator that slips iff both errors cancel |
| `RationalOps.LimbBranchAgreesIff` | src/analog.c:642-671 | for all positive denominators, when the limb branch fails and succeeds as the 128-bit branch does, with the same value |
| `RationalOps.LimbBranchMisreadsDenominator` | src/analog.c:559 | 2 times 1/2 is reported as 21/5, with no numerator that slips |
| `RationalOps.LimbErrorsCancel` | src/analog.c:642-671 | an input on which both errors cancel |
| `RationalOps.LimbBranchSlips` | src/analog.c:660-668 | 2^32 times 2^32 is reported as 0 |
| `RationalOps.RangeTest` | src/analog.c:660-670 | what the test on the limbs lets through |
| `RationalOps.Eq128Decides` | src/analog.c:579-585 | equality of values is decided for all 64-bit arguments |
| `RationalOps.EqLimbsDecidesIff` | src/analog.c:588-593 | for all arguments, equality of values is decided if and only if the misread multiples of 2^64 balance, or the cross products differ and not by just these multiples |
| `RationalOps.EqLimbsDecides` | src/analog.c:588-593 | equality of values is decided for denominators up to INT64_MAX |
| `RationalOps.EqLimbsMeaning` | src/analog.c:588-593 | what is compared for any denominators |
| `RationalOps.OneLargeDenominatorMissed` | src/analog.c:588-593 | with one denominator above INT64_MAX equal values other than 0 are reported as different |
| `RationalOps.EqLimbsMisreads` | src/analog.c:588-593 | 1/(2^64-1) is taken for -1 |
| `RationalOps.SameValueIsEquivalence` | src/analog.c:566 | equality of values is an equivalence for positive denominators |
| `RationalOps.ReciprocalInverts` | src/analog.c:698-709 | when there is a reciprocal, and that it is one, INT64_MIN included |
| `RationalOps.Div128Exact` | src/analog.c:693-712 | for all numbers: division succeeds iff the divisor is not 0, its denominator fits int64_t and some power of two brings the quotient into range, and then the result is the quotient |
| `RationalOps.DivLimbsRightIff` | src/analog.c:693-712 | for all numbers: when a quotient that the limb branch reports is right |
| `RationalOps.DivLimbsAgreesIff` | src/analog.c:693-712 | for all numbers: when division does the same in both branches, failures included |
| `RationalOps.DivisionIsMultiplication` | src/analog.c:698-711 | division is refused or is multiplication by the divisor turned upside down, its sign in the numerator |
| `RationalOps.DivUndoesMult` | src/analog.c:693-712 | dividing a product by one factor gives back the other when both operations succeed |
| `RationalOps.DivUndoesMultLimbs` | src/analog.c:693-712 | the same for the limb branch when no cross product is misread and no numerator slips |
| `RationalOps.RationalMult128` | src/analog.c:618-640 | in-place multiplication: the result, or nothing changed and an error, also when the result is an operand |
| `RationalOps.RationalMultLimbs` | src/analog.c:643-670 | the same with limbs |
| `RationalOps.RationalDiv128` | src/analog.c:693-712 | in-place division over the 128-bit branch |
| `RationalOps.RationalDivLimbs` | src/analog.c:693-712 | in-place division over the limb branch |
| `SessionModel.SessionInvariant` | src/session.c:589-858 | after every sequence of steps: running iff the main context is set, stop_check_id set iff exactly that one check is queued, a running session without sources has a check queued, starts and stops alternate, the table is the registry of sources that were added and not finalized |
| `SessionModel.StepKeeps` | src/session.c:589-858 | every step keeps that invariant |
| `SessionModel.StartSucceedsIff` | src/session.c:756-858 | a start succeeds if and only if there are devices, none is in the way, the trigger is complete and every callback reports success |
| `SessionModel.StartRefused` | src/session.c:763-785 | without devices, while running or with an incomplete trigger a start is refused with its code and changes nothing |
| `SessionModel.StartRefusedByDevice` | src/session.c:787-808 | the first device without an enabled channel or with a failing commit decides the code, and nothing changes |
| `SessionModel.StartCallsAll` | src/session.c:815-830 | a start that succeeds calls every driver once, in order, and stops none |
| `SessionModel.StartPerforms` | src/session.c:815-830 | a started session has the event sources that its devices' start callbacks left it |
| `SessionModel.FailedStartAt` | src/session.c:815-847 | the first device that does not start up decides: its code is reported, it and those before it are started and stopped, those behind it are not called |
| `SessionModel.FailedStartStopsAll` | src/session.c:832-847 | a start that fails has stop called for exactly the drivers whose start callback was called, the failing one included |
| `SessionModel.StartKeeps` | src/session.c:810-858 | after a start the session runs if and only if the start succeeded or it ran before |
| `SessionModel.EndsOnlyWhenDone` | src/session.c:677-714 | only an idle check that finds no event source ends a run, and it ends it once |
| `SessionModel.DrainingEndsRun` | src/session.c:1481-1510 | from any running state: once all sources are finalized the next idle check ends the run |
| `SessionModel.DispatchKeeps` | src/session.c:677-714 | a dispatched check leaves none queued, ends the run exactly when no source is left, and leaves the sources alone |
| `SessionModel.AddSucceedsIff` | src/session.c:1236-1275 | adding fails with SR_ERR_BUG iff a registered source has the key, with SR_ERR iff none has and the session does not run; a source that is turned away leaves everything but the log as it was |
| `SessionModel.AddTakesEffect` | src/session.c:1249-1254 | a source that is added is in the table under its key and held by the main loop, and nothing else changes |
| `SessionModel.RemoveLetsGo` | src/session.c:1384-1402 | removing a key takes exactly that key's source from the main loop, and nothing else changes |
| `SessionModel.StopCallsAll` | src/session.c:912-932 | stopping a running session calls the stop callback of every device once, in order, with its effects; otherwise nothing happens |
| `SessionModel.WholeSession` | src/session.c:677-858 | the log of one session from start to end |
| `SessionModel.RemovedUntilFinalized` | src/session.c:1384-1402 | a removed source blocks its key until it is finalized, and then only its entry goes |
| `SessionModel.FinalizeSound` | src/session.c:1481-1510 | a finalizer takes exactly its own source out of the table and the registry, has a check queued when the table is then empty, and changes nothing else |
| `SessionModel.CompleteIsVerified` | src/session.c:547-581 | a trigger that passes the check before a start is what the software trigger relies on, match for match |
| `SessionModel.CompleteIff` | src/session.c:547-581 | a stage, no empty stage, no match without a channel or a kind |
| `Session.Session.FdSourceAdd` | src/session.c:1236-1275 | adding, with the rejected source's finalizer calling back, has the effect of the specification: added, or no trace in the table |
| `Session.Session.SourceDestroyed` | src/session.c:1481-1510 | unregistering, and a check when the table became empty |
| `Session.Session.RemoveInternal` | src/session.c:1384-1402 | removing a key: the source is let go, the table keeps it |
| `Session.Session.StopCheckLater` | src/session.c:716-733 | a check is queued unless there is one or no main context |
| `Session.Session.DelayedStopCheck` | src/session.c:677-714 | the idle check |
| `Session.Session.SetMainContext` | src/session.c:589-626 | refused when already set |
| `Session.Session.UnsetMainContext` | src/session.c:636-655 | refused when not set |
| `Session.Session.VerifyTrigger` | src/session.c:547-581 | accepts exactly the triggers with a stage, no empty stage and no incomplete match |
| `Session.Session.CheckDevices` | src/session.c:780-808 | the first device without an enabled channel or with a failing commit decides |
| `Session.Session.Start` | src/session.c:756-858 | the whole start, with its error path |
| `Session.Session.StopSync` | src/session.c:912-932 | stop is sent to every device of a running session |
| `Session.Session.Take` | src/session.c:756-858 | any step on the object keeps the invariant |
| `Crc16.SrCrc16` | src/crc.c:25-43 | the nested loops compute the CRC of the bytes; no buffer or a negative length leaves the register |
| `Crc16.CrcLinear` | src/crc.c:32-40 | the CRC of a bitwise sum is the bitwise sum of the CRCs |
| `Crc16.StepInjective` | src/crc.c:34-39 | one turn of the bit loop can be undone |
| `Crc16.CrcAppend` | src/crc.c:25-43 | a message may be fed in pieces |
| `Crc16.CrcIsBitwise` | src/crc.c:32-40 | byte by byte and bit by bit the CRC is the same |
| `Crc16.BurstDetected` | src/crc.c:25-43 | two messages of one length that differ only within 16 consecutive bits have different CRCs, for any initial value |
| `Crc16.ResidueIsZero` | src/crc.c:25-43 | a message followed by its CRC, low byte first, has CRC 0 |
| `Crc16.MessageBitsXor` | src/crc.c:33 | the bits of a bytewise sum of messages are the sums of their bits |
| `Crc16.SeventeenBitsUndetected` | src/crc.c:38 | the bound is sharp: in any three bytes of any message a change of bits 0 and 16 and others between them, and none beyond, goes unnoticed |
| `Interleave.FillRow` | src/session_driver.c:211-224 | one sample: bit b of byte g is the level of channel 8g+b, all others 0, nothing else is written |
| `Interleave.InterleaveBlock` | src/session_driver.c:203-225 | the output is the transpose of the bitmaps |
| `Interleave.ExtractRecovers` | include/libsigrok/libsigrok.h:551-554 | de-interleaving gives every channel's bitmap back |
| `Interleave.PackedAppend` | src/session_driver.c:203-225 | transposes of blocks in a row are the transpose of the joined bitmaps |
| `Interleave.CaptureBitmap` | src/session_driver.c:169-194 | a channel's bitmap is its members of the archive, block after block, with low samples for a missing one |
| `Interleave.EnabledLogicAppend` | src/session_driver.c:169-182 | the channels that are read are the enabled logic channels one by one, in order |
| `Interleave.ReplayRecovers` | src/session_driver.c:463-475 | after a replay every channel's members of the archive can be read back from what was streamed, byte for byte |
| `Interleave.VirtualDevice.StreamLogicData` | src/session_driver.c:107-244 | one block: what is sent, what is counted, when there is no more |
| `Interleave.VirtualDevice.UnitsizeIsLeast` | src/session_driver.c:145-147 | a sample has as many bytes as the enabled channels need, and no more |
| `Interleave.VirtualDevice.CollectIndices` | src/session_driver.c:133-182 | the enabled logic channels in order |
| `Interleave.VirtualDevice.StreamLogicPhase` | src/session_driver.c:463-475 | the blocks are streamed up to the first missing one, and the stream is the transpose of all of them |
| `DecimalNumbers.AcceptedIff` | src/strutil.c:888-1009 | a text is accepted if and only if it is written by the grammar (spaces, sign, digits, point, digits, exponent mark, sign, digits) with whole part, fraction and exponent digits that each fit int64_t |
| `DecimalNumbers.MantissaRead` | src/strutil.c:911-968 | reading a written number returns the parts it was written with |
| `DecimalNumbers.AcceptedIsWritten` | src/strutil.c:888-1009 | every accepted text is some written number |
| `DecimalNumbers.WrittenAcceptedIff` | src/strutil.c:930-1009 | of the written numbers exactly those with the three bounds are accepted |
| `DecimalNumbers.ParseExactIff` | src/strutil.c:888-1042 | for every accepted number the result is the written one if and only if numerator and denominator fit the struct and the power of ten is not above int32_t, or is harmless because it belongs to 0 |
| `DecimalNumbers.ParseMeaning` | src/strutil.c:1011-1042 | in any case it is the written number with its power of ten modulo 2^32, modulo 2^64 |
| `DecimalNumbers.DigitsAddUp` | src/strutil.c:1015-1022 | the digits of a number in range are added up right, even if the fraction length does not fit its variable |
| `DecimalNumbers.LargeExponentWraps` | src/strutil.c:990-999 | 1E4294967296 is read as 1 |
| `DecimalNumbers.WrittenCountedIff` | src/strutil.c:438-492 | the digit counter accepts a written number if and only if its exponent fits a long, and reports fraction length less exponent |
| `DecimalNumbers.DenominatorMatchesCount` | src/strutil.c:1028-1036 | the denominator is ten to the power of that count, or 1 |
| `DecimalNumbers.CountedRefusedIff` | src/strutil.c:470-481 | which texts the counter accepts and the parser refuses |
| `DecimalNumbers.MarkWithoutDigits` | src/strutil.c:470-481 | "1E" is one of them |
| `DecimalNumbers.MarkBeforeSpace` | src/strutil.c:470-481 | "1E 5" is another, counted with exponent 5 |
| `DecimalConversion.SrParseRational` | src/strutil.c:888-1042 | reading and scaling loops compute the parse |
| `DecimalConversion.ReadExponentDigits` | src/strutil.c:970-1009 | mark, sign and digits of the exponent, to the end of the text |
| `DecimalConversion.ScaleLoops` | src/strutil.c:1011-1036 | the scaling loops, with wrap-around |
| `DecimalConversion.SrCountDigits` | src/strutil.c:438-492 | the counting loops compute the count |
| `DecimalConversion.LastIndexFits` | src/strutil.c:1074 | the prefix search stays in the table for every 64-bit number |
| `DecimalConversion.FindPrefixIndex` | src/strutil.c:1074 | the first prefix that leaves at most three digits |
| `DecimalConversion.PrefixIndexIff` | src/strutil.c:1074 | the prefix chosen is the greatest power of a thousand that is not above the number |
| `DecimalConversion.PrefixPrinted` | src/strutil.c:1061-1087 | a number of thousands, millions and so on is printed with k, M, G, T, P or E and the unit |
| `DecimalConversion.DocumentedExample` | src/strutil.c:1044-1049 | 31500 with the unit W is printed as 31.5 kW |
| `DecimalConversion.SiTextUnique` | src/strutil.c:1061-1087 | exactly one text is printed |
| `DecimalConversion.TrimInPlace` | src/strutil.c:1078-1081 | zeros and the point are cut off the end in place |
| `DecimalConversion.SiString` | src/strutil.c:1061-1087 | the printed text |
| `DecimalConversion.TrimPad` | src/strutil.c:1077-1081 | what is left of a zero-padded remainder |
| `DecimalConversion.PrintParseRoundTrip` | src/strutil.c:1061-1087 | parsing the printed number gives it back, scaled by its prefix, if and only if the printed digits fit int64_t, and so for all x up to INT64_MAX |
| `Serial.SerialPort.QueueRxData` | src/serial.c:321-331 | data goes to the callback or to the end of the queue |
| `Serial.SerialPort.UnqueueRxData` | src/serial.c:343-365 | the oldest bytes leave the queue, as many as fit |
| `Serial.StreamDetect` | src/serial.c:815-927 | on success the last window is valid and no earlier one is, on failure none is, received and queued bytes are the delivered stream, no byte is missed, and the search ends in time |
| `Serial.CheckPacket` | src/serial.c:899-918 | the window that the last byte completes is checked |
| `Serial.WindowsGrow` | src/serial.c:859-867 | one more byte opens at most one more window |
| `Serial.ReadsEveryTurn` | src/serial.c:867-869 | where reading works and bytes are waiting, every turn reads one |
| `Serial.FirstWindowUnique` | src/serial.c:789-813 | where the search succeeds does not depend on when the bytes arrive |
| `HidPort.CopyRoundTrip` | src/serial_hid.c:92-181 | extracting the path from a name gives the path back, and names have no colon |
| `HidPort.CopyExistsIff` | src/serial_hid.c:92-140 | which paths have a name |
| `HidPort.CopyText` | src/serial_hid.c:102-131 | the names spelled out: usb= with dots for colons, raw=, iokit= |
| `HidPort.PathText` | src/serial_hid.c:163-178 | the paths that names stand for, spelled out |
| `HidPort.ExtractRefusedIff` | src/serial_hid.c:152-181 | any other text names no path |
| `HidPort.ChipTable` | src/serial_hid.c:590-596 | the chips of the enum and their names |
| `HidPort.OneChip` | src/serial_hid.c:633-658 | no text starts with two chip names |
| `HidPort.ChipFindEnum` | src/serial_hid.c:633-658 | the chip that the text starts with, and how much of the text its name takes |
| `HidPort.ParseConnSpec` | src/serial_hid.c:742-832 | the parser's loop computes the parse |
| `HidPort.SpecMeans` | src/serial_hid.c:708-741 | every spec written by the rules (chip, one field, optional slashes) is read as meant, slashes in paths and serial numbers included |
| `HidPort.DocumentedForms` | src/serial_hid.c:724-729 | the documented forms of a spec, spelled out |
| `HidPort.OthersRefused` | src/serial_hid.c:742-832 | everything else is refused |
| `HidPort.ListedNameParses` | src/serial_hid.c:218-219 | the name under which a cable is listed parses to that chip and that path |

## Left out

- Check: excludes the calls whose restart falls inside a sample (`TriggerSearch.ScanMeaning` says which these are); from there on the source reads samples at shifted addresses, the last one beyond the end of the buffer.
- ScanBuffer: the same calls.
- RationalMultLimbs: zero denominators are not modelled; with a zero numerator the strip loop of the source does not end on them.
- RationalDivLimbs: a zero denominator of the dividend, for the same reason.
- FiringIsSound: multi-stage triggers with edges are not covered, since after going back `prev_sample` is the failed sample; one-stage edges are in `OneStageFiresFirst`.
- LimbBranchRefines: the denominators' cross products are below 2^63, which covers all denominators up to INT64_MAX; above that it does not hold (`LimbBranchMisreadsDenominator`), and `LimbBranchAgreesIff` says when it does.
- StreamDetect: packets of variable length and the sleep between turns are not modelled.
- SrCountDigits: errors of `strtol` are modelled for a 32-bit `long` only.
- SessionInvariant: runs whose main context is created for the session, adding and removing devices during a run, and the main loop object of `sr_session_run` are not part of the model.
- ParseConnSpec: a NULL spec or port is not modelled; opening a path is a given table of error codes.
- The widths of `count`, byte offsets and buffer lengths: they are unbounded here.
- Allocation failures, logging, and everything that is a foreign call: USB, serial, Bluetooth, TCP and zip access, GLib's main loop beyond queueing a callback and finalizing a source.
- A chunk that cannot be opened or is read short, the analog and DSO phases of a replay, and the older chunk format.
- Floating point: conversion of analog values, SI scaling of floats, period strings, sizes with a fraction.
- Configuration keys, driver tables, standard helpers, endian readers and language bindings: tables and straight-line wrappers.
