# A model of the OPEN Alliance TC6 transfer engine and the LAN865x arithmetic around it

The driver carries Ethernet frames over SPI in chunks of 64 payload bytes with a 4-byte header (sent) or footer
(received). This project models, as shipped with frame timestamps enabled:

- the transmit side, which cuts frames into chunks, stops wherever the MAC-PHY's credits run out and resumes there, and
  is fed from another context through a one-slot handoff;
- the receive side, which reassembles frames from start and end flags and byte offsets, and resynchronises after a
  receive buffer overflow;
- the full-duplex transfer loop around both, the interrupt flag, and the credits;
- the register transactions with their echo checks;
- the multicast hash filter, and the PTP clock and rate.

## How it is organised

| file | contents |
|---|---|
| `Words.dfy` | parity, ones counted bit by bit, big-endian words |
| `Wire.dfy` | header and footer bits, chunks on the wire, what a MAC-PHY makes of the chunks it is sent |
| `Transmit.dfy` | the segmenter and its refinement, chunk by chunk; which frame lengths it can carry |
| `Receive.dfy` | the reassembly state machine and the ownership of receive buffers |
| `Stream.dfy` | losses: the meaning of a chunk stream, and when the driver delivers exactly its intact frames |
| `RoundTrip.dfy` | the transmit side fed back into the receive side |
| `Engine.dfy`, `EngineProofs.dfy` | transmit caller, SPI thread and interrupt handler as interleaved atomic steps, and what every schedule keeps |
| `Arrival.dfy` | which frames have reached the MAC-PHY when rounds are composed first and transferred later, or not at all |
| `Sessions.dfy` | the receive side of whole engine runs |
| `Credits.dfy` | transmit credits against a MAC-PHY with finitely many buffers |
| `Quiescence.dfy` | one sequential round, and why the transfer loop ends |
| `Schedule.dfy` | the sequential round is one schedule of the interleaved engine; when the SPI buffer suffices |
| `Tc6.dfy` | `struct oa_tc6` as a class with its real SPI byte buffers, filled and read in place |
| `Control.dfy` | control headers, echo checks, the register map, and the control buffers as a class |
| `Multicast.dfy`, `Ptp.dfy` | the hash filter; the clock registers and the rate |

The class methods of `Tc6.dfy` are proved against the functions of `Transmit.dfy`, `Receive.dfy` and `Quiescence.dfy`.
The interleaved engine takes its steps with the same functions, and `Schedule.RoundAlone` with `Schedule.ProcessAgrees`
shows that the sequential turn of the class is the engine's SPI thread left alone. An attached MAC-PHY is an arbitrary
function from its state and the bytes sent to its next state and reply; a failed transfer, the STATUS0 contents and the
allocator's answer are inputs.

## Results that differ from what one might expect

Each is a lemma giving the exact condition.

- A frame is carried only if it has 1 to 65535 bytes: an empty one is announced as 64 stale bytes, a longer one never
  meets its end because the offset is a u16 (`Transmit.CarriedIff`). The runs below are over frames of legal length.
- The boot values of credits and receive chunks are 8 bits wide, the SPI buffer holds 48 chunks; no run overflows it if
  and only if both are at most 48, however short the frames are (`Schedule.BufferSufficesIff`). The runs below start from
  such values.
- A frame counts as sent, and its slot is free, once its last chunk is composed. If the transfer then fails it never
  reaches the wire (`Arrival.CountedButNeverSent`); `Arrival.FramesArriveIff` says when all frames have arrived.
- Losses are not always survived: if the end of one frame and the start of the next are lost, the driver appends the
  second frame to the first (`Stream.LossSplices`), and may run beyond its receive buffer before any overflow status
  arrives (`Stream.LossOverruns`). The driver gets through, delivering exactly the intact frames, under the condition of
  `Stream.DeliversIntactIff`.
- The kernel-doc comment of `oa_tc6_write_registers` allows 128 registers, but the check of the echoed write receives its
  size as a u8: it is exact up to 61 registers and for no more (`Control.CheckIsExactIff`).
- A received frame that spans chunks loses its last four bytes, one that fits a single chunk keeps them, contrary to the
  comment on their removal. Where there is no room for what is stripped the length wraps, as a u8, and a frame goes out
  with 256 bytes too many (`RoundTrip.ShortTailGrows`, `RoundTrip.RoundTripIff`).
- Credits left by a round that an overflow status cut short before its last data chunk may exceed the free buffers
  (`Credits.TrustworthyIff`); the next round then overflows an honest MAC-PHY (`Credits.EarlyReportOverflows`).
- Pending chunks, backlog and interrupt do not strictly decrease in every round: after a round cut short the driver may
  still believe in chunks already passed over (`Quiescence.StaleRoundReached`, `Quiescence.PlainShrinksIff`). The measure
  that does decrease counts this.
- `lan865x_ptp_adjfine(0)` does not bring back the nominal rate (`Ptp.RequestedRateIff`, and over runs of calls
  `Ptp.ZeroRestoresIff`); the clock forgets the upper seconds it stores (`Ptp.ClockRoundTripIff`);
  `lan865x_ptp_adjtime(0)` returns with the lock held, so that no later call returns (`Ptp.ClockRefines`).

## Model

| member | source | states |
|---|---|---|
| Words.ParityCountsOnes | src/linux/drivers/net/ethernet/oa_tc6.c:282-292 | for every word the shift-and-multiply parity is 0 exactly when the number of ones, counted bit by bit, is odd |
| Words.FlipChangesWeight | src/linux/drivers/net/ethernet/oa_tc6.c:282-292 | flipping any single bit of any word turns odd weight into even and back, so a header with one wrong bit is detectable |
| Wire.DataHeaderFields | src/linux/drivers/net/ethernet/oa_tc6.c:983-999 | every field put into a data header is read back by the MAC-PHY, whatever the parity bit became; SEQ, NORX, SWO, vendor and reserved bits are zero |
| Wire.DataHeaderOdd | src/linux/drivers/net/ethernet/oa_tc6.c:996 | every data header has an odd number of ones |
| Wire.DataHeaderOnWire | src/linux/drivers/net/ethernet/oa_tc6.c:73-80 | the four bytes of every data header, first on the wire first: 0x80, data and start flags, end flag and offset, tag; only the last bit is left to the parity |
| Wire.FooterOnWire | src/linux/drivers/net/ethernet/oa_tc6.c:82-92 | every field of a footer is read from its place in the four bytes, for all bytes: chunks in the last five bits of the first, credits in bits 5 to 1 of the last |
| Wire.TagIsMode | src/linux/drivers/net/ethernet/oa_tc6.c:993 | the four defined capture modes travel unchanged in the two-bit field |
| Wire.RenderedChunk | src/linux/drivers/net/ethernet/oa_tc6.c:1028-1056 | the 68 bytes of a chunk mean to a MAC-PHY exactly the copied bytes and flags, whatever stale bytes follow them in the buffer |
| Transmit.AddChunkRefines | src/linux/drivers/net/ethernet/oa_tc6.c:1001-1057 | one chunk of a frame extends the MAC-PHY's partial frame to the driver's new offset, or completes the frame with its own timestamp tag |
| Transmit.AddChunkAdvances | src/linux/drivers/net/ethernet/oa_tc6.c:1001-1057 | one chunk in numbers: for every frame up to 65535 bytes 64 more bytes are copied, or what is left of it; at the end the frame is counted, and offset and mode are back at zero |
| Transmit.FillTxCounts | src/linux/drivers/net/ethernet/oa_tc6.c:1059-1082 | a round cuts exactly min(credits, chunks pending in both slots) chunks, all of them data, and leaves that many fewer |
| Transmit.FillTxRefines | src/linux/drivers/net/ethernet/oa_tc6.c:1059-1082 | for any credits, the frames at the MAC-PHY followed by those in the slots, with their tags, are the same before and after a round, and its partial frame is the cut part of the ongoing one |
| Transmit.CarriedIff | src/linux/drivers/net/ethernet/oa_tc6.c:1001-1057 | some number of chunks hands exactly the frame to the MAC-PHY, for all stale bytes, if and only if its length is 1 to 65535 |
| Receive.ProcessKeepsOwned | src/linux/drivers/net/ethernet/oa_tc6.c:952-980 | for arbitrary received bytes: overflow mode excludes a held buffer, every allocated buffer is delivered, freed, overwritten or held; a round without error examines every footer; credits and chunk count are those of the last footer examined |
| Receive.StatusMeans | src/linux/drivers/net/ethernet/oa_tc6.c:734-757 | for every value of STATUS0: bit 3 has the round retried, drops the held buffer and enters overflow mode, else bits 0, 4 and 5 are fatal, and no other bit matters |
| Receive.PassOutcome | src/linux/drivers/net/ethernet/oa_tc6.c:759-790 | for arbitrary received bytes: a pass is complete only if every footer is synchronised, has no bad header and no error status; it is retried exactly at an extended status that asks for it and fails with a device error exactly at any other footer or for want of memory; credits and chunks are those of the last footer; every freed or refused buffer is counted as dropped |
| Stream.DeliversIntactIff | src/linux/drivers/net/ethernet/oa_tc6.c:888-941 | for every chunk stream whose starts and ends alternate, with any offsets, frame lengths, buffer size and losses: the driver gets through without fault and delivers exactly the frames none of whose chunks was lost or flagged, in order, if and only if every break that matters is flagged by an overflow status in time, and no frame taken for whole lacks room for what is stripped or outgrows its buffer |
| Stream.SessionDeliversIff | src/linux/drivers/net/ethernet/oa_tc6.c:952-980 | the same for sessions of whole rounds, where an overflow status or a register access failing with -EAGAIN skips the rest of its round and chunks may vanish between rounds |
| Stream.LosslessDeliversIff | src/linux/drivers/net/ethernet/oa_tc6.c:792-817 | without loss every frame is delivered if and only if each that ended has room for what is stripped and then fits a receive buffer, as does what is kept of the one in transit; then no buffer is leaked, and one is held exactly while a frame is in transit |
| Stream.LossSplices | src/linux/drivers/net/ethernet/oa_tc6.c:888-941 | if the end of a frame and the start of the next are lost and the next end is seen, the driver delivers the start of the first with the end of the second: for all contents |
| Stream.LossOverruns | src/linux/drivers/net/ethernet/oa_tc6.c:792-817 | if instead the second frame goes on, the receive buffer is overrun after exactly as many chunks as no longer fit |
| Stream.RoundDrives | src/linux/drivers/net/ethernet/oa_tc6.c:952-980 | a round of received chunks acts on the receive state as its processed chunks up to one to be retried and the loss of the rest |
| Stream.CleanRoundDelivers | src/linux/drivers/net/ethernet/oa_tc6.c:952-980 | a round without errors is processed to its end, and what has been delivered then is what the stream's chunks mean |
| RoundTrip.RoundTripIff | src/linux/drivers/net/ethernet/oa_tc6.c:819-941 | cutting any list of frames and feeding the chunks back, whatever lies around them in memory, delivers exactly the frames without timestamp and, beyond one chunk, without check sequence, if and only if each has room for what is stripped and then fits a receive buffer |
| RoundTrip.ShortTailGrows | src/linux/drivers/net/ethernet/oa_tc6.c:872-886 | a frame whose last chunk has one to three bytes is delivered with 256 bytes more than the stripped frame, or overruns its buffer |
| EngineProofs.TransmitRefinement | src/linux/drivers/net/ethernet/oa_tc6.c:1001-1165 | in every run, for every interleaving, credit grant and stale byte, the chunks composed so far decode to exactly the completed frames in order, each with its own tag, and the first `tx_skb_offset` bytes of the ongoing one; the offset is a multiple of 64 below the length, the chunk count is that of the frames, start and end flags pair up, every header meets the wire format and carries a tag only at a frame's end |
| EngineProofs.Conservation | src/linux/drivers/net/ethernet/oa_tc6.c:1256-1280 | in every run, with the caller's check and store as separate steps, the accepted frames are the completed, the abandoned, the ongoing and the waiting one, in order, and the counters account for every frame handed over |
| EngineProofs.EmptySlotsHaveNoMode | src/linux/drivers/net/ethernet/oa_tc6.c:1045-1052 | in every run an empty slot holds no capture mode that a later frame could inherit |
| Arrival.FramesArriveIff | src/linux/drivers/net/ethernet/oa_tc6.c:1037-1148 | in every run, from the bytes of the transfers that worked alone, the MAC-PHY has a prefix of the accepted frames with their tags, and misses, of those counted as sent, exactly the ones that end in a round not yet transferred or whose transfer failed; it has all accepted frames if and only if both slots are empty, none was abandoned and none ends in such a round |
| Arrival.CountedButNeverSent | src/linux/drivers/net/ethernet/oa_tc6.c:1037-1148 | for every frame the first credits can buy there is a run in which it is counted as sent, both slots are empty, and nothing was ever sent |
| Sessions.RunIsSession | src/linux/drivers/net/ethernet/oa_tc6.c:1119-1165 | in every run whose rounds are benign the receive state, credits and chunk count are those of the session of its rounds, or a round of that session failed and the thread is dead |
| Sessions.RunDeliversIff | src/linux/drivers/net/ethernet/oa_tc6.c:888-980 | in every such run, for every schedule: if nothing spoils the MAC-PHY's stream the driver has delivered exactly its intact frames, and if a live driver has, nothing did |
| EngineProofs.NoLostInterrupt | src/linux/drivers/net/ethernet/oa_tc6.c:1207-1222 | in every run, after any interrupt, unless a transfer has been attempted since, the flag is still set or the thread is committed to a transfer of at least one chunk |
| EngineProofs.ClearedMeansAttempt | src/linux/drivers/net/ethernet/oa_tc6.c:1132-1143 | the step that clears the flag is followed by a transfer attempt in the same round |
| EngineProofs.AsleepMeansDone | src/linux/drivers/net/ethernet/oa_tc6.c:1168-1187 | in every run, whatever the boot values, the thread sleeps only with no frame half sent, unless credits are missing, and no chunk announced, unless nothing was exchanged yet; it sleeps on if and only if no interrupt is flagged and credits or frames are missing |
| EngineProofs.RoundLengths | src/linux/drivers/net/ethernet/oa_tc6.c:1059-1141 | in every run the transferred length is the fill level, 68 times the larger of data chunks and announced chunks or 68 for a bare interrupt, at most 48 chunks; data chunks come first and are within the credits |
| EngineProofs.StepKeeps | src/linux/drivers/net/ethernet/oa_tc6.c:1119-1187 | every step of every actor keeps the invariant behind the run theorems |
| Credits.TrustworthyIff | src/linux/drivers/net/ethernet/oa_tc6.c:765-773 | the credits left by a round are safe against every honest MAC-PHY if and only if the last examined footer belongs to or follows the last data chunk |
| Credits.CreditSafety | src/linux/drivers/net/ethernet/oa_tc6.c:957-977 | in every run against an honest MAC-PHY that reports overflows so late, no transmit buffer ever overflows, credits held between rounds never exceed the free buffers, and the round in flight fits |
| Credits.EarlyReportOverflows | src/linux/drivers/net/ethernet/oa_tc6.c:765-773 | for every frame of at least three chunks there is a run from boot against a MAC-PHY honest in every round, with two buffers, that overflows them after an overflow reported with the first of two data chunks |
| Quiescence.RoundLeavesLess | src/linux/drivers/net/ethernet/oa_tc6.c:1122-1162 | every round that goes on, overflow rounds included, strictly decreases the work left |
| Quiescence.PrepareRefines | src/linux/drivers/net/ethernet/oa_tc6.c:1122-1138 | the chunks of a round, empty ones included, move frames from the slots to the MAC-PHY in order, none lost and none added |
| Quiescence.LoopEnds | src/linux/drivers/net/ethernet/oa_tc6.c:1119-1165 | with no arrivals and a MAC-PHY handing over its backlog, the loop has no more rounds than work |
| Quiescence.EmptyRoundIsQuiet | src/linux/drivers/net/ethernet/oa_tc6.c:1140-1141 | a round has nothing to transfer if and only if no chunk is announced, no interrupt is flagged, and credits or frames are missing; the backlog is empty then |
| Quiescence.TurnEnds | src/linux/drivers/net/ethernet/oa_tc6.c:1149-1158 | a turn ends with a device error exactly at a footer that is neither clean nor to be retried, or for want of memory, and then both open frames are dropped and counted, the offset left as it is |
| Quiescence.PlainShrinksIff | src/linux/drivers/net/ethernet/oa_tc6.c:1119-1165 | in a round that goes on, chunks to cut, backlog and interrupt together decrease if and only if there was data with credits for it, a backlog or an interrupt |
| Quiescence.StaleRoundReached | src/linux/drivers/net/ethernet/oa_tc6.c:1149-1152 | right after boot, with any backlog of at least two chunks, a legal round cut short by an overflow leads to a round in which they do not decrease |
| Schedule.RoundAlone | src/linux/drivers/net/ethernet/oa_tc6.c:1122-1143 | the SPI thread left alone prepares exactly the chunks of the sequential round and goes on to the transfer, or back to waiting if there are none |
| Schedule.ProcessAgrees | src/linux/drivers/net/ethernet/oa_tc6.c:1145-1162 | the engine's processing step leaves the transmit state, link and fate of the thread that the sequential turn leaves |
| Schedule.BufferSufficesIff | src/linux/drivers/net/ethernet/oa_tc6.c:1189-1205 | for every bound on the length of frames, no run of the engine writes beyond the 48-chunk SPI buffer if and only if the boot values of credits and receive chunks are both at most 48 |
| Tc6.HoldsOneMore | src/linux/drivers/net/ethernet/oa_tc6.c:1028-1056 | writing a chunk behind the fill level keeps all chunks already in the buffer and adds that one |
| Tc6.Tc6.AddTxSkbToSpiBuf | src/linux/drivers/net/ethernet/oa_tc6.c:1001-1057 | in place: the buffer changes only by the new chunk's header and copied bytes at the fill level, the fields as one segmentation step: the offset by 64, or the frame is done |
| Tc6.Tc6.PrepareSpiTxBufForTxSkbs | src/linux/drivers/net/ethernet/oa_tc6.c:1059-1082 | the loop leaves in the buffer the data chunks that the credits buy, and returns their length |
| Tc6.Tc6.AddEmptyChunksToSpiBuf | src/linux/drivers/net/ethernet/oa_tc6.c:1084-1099 | empty chunks are appended, the chunks before them untouched |
| Tc6.Tc6.PrepareTransfer | src/linux/drivers/net/ethernet/oa_tc6.c:1122-1138 | the first half of a turn fills the buffer with the sequential round's chunks, within its 48, and clears the interrupt flag |
| Tc6.Tc6.PrcsRxChunkPayload | src/linux/drivers/net/ethernet/oa_tc6.c:888-941 | the branches on flags and offsets act on the receive buffer's bytes as the reassembly step |
| Tc6.ChunkOnWire | src/linux/drivers/net/ethernet/oa_tc6.c:943-975 | of a round's bytes, payload and footer one behind the other, chunk i is processed with the i-th payload and the i-th footer's fields |
| Tc6.Tc6.ProcessSpiDataRxBuf | src/linux/drivers/net/ethernet/oa_tc6.c:952-980 | the loop over footers computes the receive pass on the bytes of the receive buffer; whatever chunks without errors these are, if their payloads carry the stream on unspoilt, exactly its intact frames have been delivered, and credits and chunks are in the last footer |
| Tc6.Tc6.TransferRound | src/linux/drivers/net/ethernet/oa_tc6.c:1122-1162 | a turn that goes on leaves less work; unless the transfer fails, the frames in the MAC-PHY, the one a device error drops and those in the slots are together what they were; a failed transfer loses exactly the frames it completed |
| Tc6.Tc6.TrySpiTransfer | src/linux/drivers/net/ethernet/oa_tc6.c:1119-1165 | against any MAC-PHY that takes what it is sent and hands over its backlog the loop ends; on a normal return nothing is left to fetch or answer, nor to send for which there is credit, and the MAC-PHY has got exactly the frames that left the slots, in order and with their tags; on an error only the frames of a failed transfer, counted as sent, or the one dropped at a device error, counted as dropped, are missing |
| Tc6.Tc6.StartXmit | src/linux/drivers/net/ethernet/oa_tc6.c:1256-1280 | busy exactly when a frame waits; otherwise the frame is stored with its mode, or counted as dropped if it cannot be linearised |
| Tc6.Tc6.MacphyIsr | src/linux/drivers/net/ethernet/oa_tc6.c:1207-1222 | the interrupt handler sets the flag and changes nothing else |
| Control.CtrlHeaderFields | src/linux/drivers/net/ethernet/oa_tc6.c:294-304 | the MAC-PHY reads back direction, memory map, address and register count from every control header |
| Control.CtrlHeaderOdd | src/linux/drivers/net/ethernet/oa_tc6.c:294-304 | every control header has an odd number of ones |
| Control.CtrlHeaderOnWire | src/linux/drivers/net/ethernet/oa_tc6.c:294-304 | the four bytes of every control header, first on the wire first: write flag and memory map, address high and low, count less one |
| Control.CheckIsExactIff | src/linux/drivers/net/ethernet/oa_tc6.c:330-343 | among 1 to 128 registers, the write check accepts exactly the right echoes, for all replies, if and only if there are at most 61 |
| Control.CommandsRefineRegisters | src/linux/drivers/net/ethernet/oa_tc6.c:365-394 | on a conforming MAC-PHY, writing 1 to 61 registers and reading them back passes both checks, yields the same values at consecutive addresses and changes no other register |
| Control.WriteThenRead | src/linux/drivers/net/ethernet/oa_tc6.c:407-460 | up to 128 values written to implemented registers are read back, all other registers unchanged |
| Control.ControlPort.PerformCtrl | src/linux/drivers/net/ethernet/oa_tc6.c:365-394 | the bytes sent are a command for the given registers; the result is that of the echo check, and a successful read returns the words behind the echoed header |
| Control.ControlPort.WriteRegisters | src/linux/drivers/net/ethernet/oa_tc6.c:447-460 | refuses 0 and more than 128 registers; else sends the write command, and for arbitrary replies the verdict is that of the echo check; up to 61 registers it succeeds exactly when header and every value are echoed |
| Control.ControlPort.ReadRegisters | src/linux/drivers/net/ethernet/oa_tc6.c:407-420 | refuses 0 and more than 128 registers; else succeeds exactly when the transfer works and the header is echoed, and only then replaces the values, by the words of the reply |
| Multicast.HashIsDigitXor | src/linux/drivers/net/ethernet/microchip/lan865x/lan865x.c:162-180 | for every address the hash is the XOR of the eight 6-bit digits of the address as a 48-bit number, below 64 |
| Multicast.HashIsLinear | src/linux/drivers/net/ethernet/microchip/lan865x/lan865x.c:162-180 | the hash of the XOR of two addresses is the XOR of their hashes |
| Multicast.Hash | src/linux/drivers/net/ethernet/microchip/lan865x/lan865x.c:166-180 | the nested loops compute the XOR of the eight 6-bit digits, below 64 |
| Multicast.SetSpecificMulticastAddr | src/linux/drivers/net/ethernet/microchip/lan865x/lan865x.c:188-204 | for every list, bit b of high:low is set if and only if some listed address hashes to b |
| Multicast.FilterIgnoresOrder | src/linux/drivers/net/ethernet/microchip/lan865x/lan865x.c:188-204 | lists with the same addresses, in any order and multiplicity, give the same registers |
| Ptp.ClockRoundTripIff | src/linux/drivers/net/ethernet/microchip/lan865x/lan865x_arch.c:13-56 | a 64-bit timestamp survives the three registers if and only if it is below 2^32 seconds |
| Ptp.RegistersHoldAll | src/linux/drivers/net/ethernet/microchip/lan865x/lan865x_arch.c:35-56 | the three registers together hold every 64-bit timestamp completely, in nanoseconds below 10^9 and 48 bits of seconds |
| Ptp.ClockRefines | src/linux/drivers/net/ethernet/microchip/lan865x/lan865x_ptp.c:124-207 | with the counter frozen, any run of settime, adjtime and gettime in range behaves as one integer nanosecond clock; all its calls return if and only if none but the last adjusts by zero |
| Ptp.RateIsAccurate | src/linux/drivers/net/ethernet/microchip/lan865x/lan865x_ptp.c:98-113 | up to a million ppm either way the increment fits 32 bits, differs from 40 * 2^24 by 40 * 2^24 * p / (2^16 * 10^6) rounded towards zero, and opposite adjustments cancel |
| Ptp.RateMonotone | src/linux/drivers/net/ethernet/microchip/lan865x/lan865x_ptp.c:98-113 | a larger adjustment never gives a smaller increment |
| Ptp.LastAdjustmentCounts | src/linux/drivers/net/ethernet/microchip/lan865x/lan865x_ptp.c:85-122 | over any run of calls the stored increment is a fixed function of the last non-zero adjustment |
| Ptp.RequestedRateIff | src/linux/drivers/net/ethernet/microchip/lan865x/lan865x_ptp.c:98-113 | a call puts the requested rate into force if and only if the request is not zero or the rate was nominal anyway |
| Ptp.ZeroRestoresIff | src/linux/drivers/net/ethernet/microchip/lan865x/lan865x_ptp.c:98-113 | a run ending with a zero adjustment ends at the nominal rate if and only if no other adjustment was made from there, or the last other one was too small to change the increment |
| Ptp.PackRoundTripIff | src/linux/drivers/net/ethernet/microchip/lan865x/lan865x_arch.c:58-76 | the register pair unpacks to the increment if and only if it is below 2^32 |
| Ptp.PackKeepsLow | src/linux/drivers/net/ethernet/microchip/lan865x/lan865x_arch.c:58-76 | it always unpacks to the lower 32 bits of the increment |
| Ptp.PtpDevice.AdjFine | src/linux/drivers/net/ethernet/microchip/lan865x/lan865x_ptp.c:85-122 | in place, for every argument: the registers unpack to the stored increment, which is that of the last non-zero adjustment |
| Ptp.PtpDevice.AdjTime | src/linux/drivers/net/ethernet/microchip/lan865x/lan865x_ptp.c:124-160 | the registers hold the time read plus the offset, modulo 2^64; in range, the clock moves by exactly the offset; the lock is given back if and only if the offset is not zero |
| Ptp.PtpDevice.SetTime | src/linux/drivers/net/ethernet/microchip/lan865x/lan865x_ptp.c:186-207 | the registers hold the time modulo 2^64 nanoseconds; a normalised time of at most 32-bit seconds goes into TN and TSL as it is |
| Ptp.PtpDevice.GetTime | src/linux/drivers/net/ethernet/microchip/lan865x/lan865x_ptp.c:162-184 | the returned pair is normalised and is the clock's value; normalised registers come back as they are |

## Left out

- Stopping and waking the transmit queue (`netif_stop_queue`, `netif_wake_queue`): stopping is not atomic with the slot check, so no liveness is claimed.
- More than one concurrent transmit caller: the network stack serialises `ndo_start_xmit`, and the engine has one caller.
- The shared `tx_dropped` counter is incremented atomically in the model; the source's increments from two contexts can race.
- Counters are unbounded; the source's wrap with their word size.
- Interleavings inside the receive pass: it touches only fields private to the SPI thread and is one step of the engine; in `Tc6.dfy` the methods are sequential.
- The size of a receive buffer is one number for a whole run: a change of the MTU meanwhile is not modelled.
- What lies behind a chunk in memory is arbitrary; `Fault` stands for the end of the thread, or of the kernel, at a null buffer or an overrun receive buffer.
- Decoding receive timestamps and the receive filter: only the eight stripped bytes are modelled.
- Transmit timestamp delivery, the polling thread and its buffers: the capture mode is an input of `StartXmit`.
- `lan865x_add_sys_clock` and `lan865x_sub_sys_clock` are unused; torn reads of a running clock and failed register accesses in the PTP code are not modelled.
- Ptp.PtpDevice.AdjTime: requires the lock to be free, like the other PTP methods; a call that finds it held does not return.
- The order of the two hash register writes and their failure in `lan865x_set_specific_multicast_addr`.
- Tc6.Tc6.TrySpiTransfer: what a failed transfer leaves in the MAC-PHY is unknown; the frames are accounted for by its state before that transfer.
- Signals and `kthread_should_stop`: the thread's exit path, like probe, remove, SPI, IRQ, MDIO and PHY set-up, is library plumbing.
- Chip bring-up register tables, device tree, configuration and the example programs.
