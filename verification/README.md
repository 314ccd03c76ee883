# RIST Simple Profile: a verified model of the ARQ core

This project models the NACK-based recovery core of a RIST Simple Profile
transport (TR-06-1:2020): the sender's retransmit ring and the work it does for
one RTCP datagram, the receiver's reorder buffer and NACK scheduler, the RTCP
codec between them, the bonding merger, receiver reports, round-trip smoothing
and the admission of peers.

Everything in that core works on 16-bit wrapping numbers and flat power-of-two
rings. The project proves that each ring agrees, in every reachable state, with
a simple model over unbounded integers, and then proves what the models promise
over whole runs.

## How it is laid out

| module | what it holds |
|---|---|
| `Seq16`, `Bits`, `Sequences` | wrapping arithmetic, unwrapping, ring indices, bit tests, counting and filtering |
| `ReorderModel`, `Reorder` | the reorder buffer as a queue of cells; the ring class that refines it |
| `NackModel`, `Nack` | the NACK scheduler as a table of pending numbers; the slot class that refines it |
| `Retransmit` | the sender's ring and what it answers after a run of sends |
| `NackEntries` | bitmask and range packing, exactness, optimality |
| `Codec`, `Rtcp`, `Compound` | words, packet bodies, compound datagrams |
| `Layout` | which bytes of an RTCP packet hold which field |
| `Service` | what one RTCP datagram makes the sender retransmit |
| `NackRound` | a whole recovery round: due list, datagram, parse, answer |
| `Requests` | datagrams that ask in any mix of the three encodings |
| `Bonding`, `Reception`, `Rtt`, `Guard`, `Rtp` | merger, receiver reports, SRTT, admission, RTP headers |
| `Receiver` | reorder buffer and NACK scheduler fed by the same arrivals |
| `EndToEnd` | sender, network and receiver as one state machine |
| `Recovery`, `LossySession` | from an open gap to its delivery; a whole session with a loss |
| `ScatteredLoss` | a stream whose losses cannot be requested in one datagram |

Classes hold the source's fields and loops. Each keeps a ghost value beside them (the
queue, the table, the log of writes, the set of emitted numbers, the books, the
samples, the bursts or datagrams seen), `Valid()` ties the fields to it, and each
method says what it does to it; the run theorems are about these values. The work
budget is its own value: two counters.

## Reading the model

- Time is a natural number of nanoseconds on a monotone clock; clocks are parameters.
- `& mask` on a ring index is modelled as the low bits of the number (`Seq16.Idx`).
- An arrival stands for the number nearest the receiver's reference point
  (`Seq16.Unwrap`). That is the sender's own number as long as it is within half
  the 16-bit space; `EndToEnd.Timely` states this assumption for the reorder buffer
  and `Receiver.AllHeard` for the scheduler.
- The reorder buffer is modelled for requested capacities up to 16384. At 32768 the
  distance computed at `rist-protocol/src/protocol/reorder.rs:226` wraps for a packet
  32767 ahead of a drained window (`Reorder.JumpIsSeenIff`), and at 65536 the
  subtraction at line 154 underflows.
- Arithmetic that can overflow is modelled as an optimised build performs it: the
  merger's negation of -32768 wraps and makes the packet late, and the 16- and 32-bit
  counters of receiver reports wrap. A build with overflow checks stops there instead.
- `fraction_lost` is the exact floor of 256 * lost / expected; jitter is a parameter.
- A CNAME is a string of bytes.
- The receiver reads RTP into a buffer of 2048 bytes and the sender reads RTCP into
  one of the same size; what is longer is cut, on both sides of the model.
- The sender serves feedback, and the receiver hears media, only from a source its
  admission rule lets through (`Guard`); any other datagram counts as dropped.
- A delivered item that the application channel refuses is dropped afterwards, which
  can only shorten the delivered subsequence.

## What the code does not do

Each of these is stated and proved as an if-and-only-if condition or with an exact
bound, and shown by a run, a state or an input that has it.

- A fresh packet that hits a *drained* reorder window between `capacity` and
  `2 * capacity - 2` ahead is overwritten by its own gap marking and lost
  (`ReorderModel.ArrivalIsHeldIff`; the run is in
  `ReorderModel.DrainedOverflowLosesPacket`).
- `next_drain_time` tells the truth if and only if the window is not drained, or the
  next number is sent as 0 and its slot has been wiped. Otherwise it answers "now"
  although nothing can be drained, and the delivery loop does not sleep
  (`Reorder.ReorderBuffer.NextDrainTime`; `Reorder.DrainedBufferSpins` reaches it with
  one packet).
- `active_count` is the number of active slots plus the number of evictions; it never
  hides a due number but does not return to zero after an eviction
  (`NackModel.EveryNumberClassed`; the run is in `NackModel.EvictionLeavesCount`).
- A packet arriving at the frontier is not deactivated, so its number can still be
  listed if and only if an entry with the same 16 bits is left over from an earlier
  cycle of 65536 (`NackModel.ArrivalSettlesIff`; the run is in
  `NackModel.ListedAfterArrival`).
- Greedy bitmask packing is optimal up to a span of 65519; beyond it a single entry
  that wraps around can do better (`NackEntries.GreedyIsNotOptimalBeyond`), by one
  entry at most (`NackEntries.GreedyIsWithinOne`).
- A payload of more than 2036 bytes is delivered cut to its first 2036, retransmits
  included: the sender accepts any length and the receiver's buffer does not hold it
  (`EndToEnd.DeliveredIsSubsequenceOfSent`, `Rtp.SeenWholeIff`; the run is in
  `LossySession.LongPayloadIsCut`).
- SRTT can sink up to 7 ns below every sample, no more (`Rtt.StaysInRange`,
  `Rtt.BoundIsTight`). Repeats of one sample bring it to within 7 ns of the sample if
  and only if it starts no lower than that or the sample is a multiple of 8; from
  further below it stops up to 14 ns short (`Rtt.SrttSettles`,
  `Rtt.SettlesWithinSevenIff`; an estimate of 1 ns never moves towards 15 ns,
  `Rtt.StuckFourteenBelow`).
- A NACK datagram longer than the sender's 2048-byte buffer is lost whole: the report
  in front survives, and not one requested number does
  (`NackRound.TruncatedNackIsLost`, `NackRound.DueListIsServed`; 502 scattered numbers
  are enough, `NackRound.ScatteredLossIsLost`, and a stream that loses every
  seventeenth packet gets there, `ScatteredLoss.StreamIsNotRecovered`).

## Model

| member | source | states |
|---|---|---|
| `EndToEnd.DeliveredIsSubsequenceOfSent` | rist-transport/src/receiver.rs:341-379 | in every run of sends, feedback, lossy reordering duplicating delivery, drains and polls, delivered numbers strictly increase and each payload is the one sent under its number, byte for byte if and only if it has at most 2036 bytes, else its first 2036 |
| `EndToEnd.FeedbackKeeps` | rist-transport/src/sender.rs:65-89 | whatever an RTCP datagram asks for, everything put on the wire is a packet that was sent, possibly flagged |
| `EndToEnd.ArrivalIsTrue` | rist-transport/src/receiver.rs:78-89 | a timely packet, original or retransmit, reaches the receiver under the number the sender gave it and with as much of the payload as the 2048-byte buffer holds |
| `Recovery.RequestIsAnswered` | rist-transport/src/sender.rs:55-89 | serving the request for a due packet that the sender holds resends that packet, flagged |
| `Recovery.RequestIsServed` | rist-transport/src/sender.rs:213-388 | a request that fits the buffer and comes from a source the feedback slot admits puts the copy on the wire |
| `Recovery.RequestLeadsToRecovery` | rist-transport/src/sender.rs:213-388 | after an admitted request the copy is on the wire for good, may arrive whenever its gap is open, and then, from an admitted media source, fills the gap |
| `Recovery.OpenGapIsDue` | rist-transport/src/receiver.rs:508-534 | an open gap that no event of the receiver's history excuses is tracked, and is on the due list once it is ripe and while it has retries left |
| `Recovery.OpenGapLeadsToRecovery` | rist-transport/src/receiver.rs:508-545 | so a poll requests it without anybody naming it, and the request leads to recovery |
| `Recovery.RecoveredIsNeverLost` | rist-protocol/src/protocol/reorder.rs:202-213 | a packet, original or retransmit, that arrives while its gap is open is at no later point reported lost: it is held, then delivered, unless an overflow flushed it |
| `Recovery.RecoveredIsDelivered` | rist-transport/src/receiver.rs:161-210 | without overflow such a packet has been delivered once the delivery thread drains a whole hold time after the latest arrival |
| `LossySession.SessionWithLoss` | rist-transport/src/sender.rs:65-89 | recovery happens: for all payloads, a run in which the second of three packets is lost, requested and retransmitted, its copy fills the gap, and the next drain is late enough to deliver it |
| `LossySession.RequestIsPolled` | rist-transport/src/receiver.rs:508-534 | the request of that session is the due list of a poll of the scheduler at that point |
| `LossySession.SessionIsOneRound` | rist-transport/src/receiver.rs:508-545 | and the session meets every hypothesis of the recovery round, from the open gap to the admitted request |
| `LossySession.LongPayloadIsCut` | rist-transport/src/receiver.rs:255-332 | in that session the recovered payload is handed over whole if and only if it has at most 2036 bytes; at 2037 the last byte is gone |
| `Receiver.AlwaysInStep` | rist-transport/src/receiver.rs:373-388 | over every run of arrivals, drains and polls the scheduler expects exactly the number above the reorder window |
| `Receiver.EveryGapChased` | rist-transport/src/receiver.rs:373-388 | over every run every gap of the reorder window is tracked by the scheduler, or some event is why not: out of retries, slot taken by a gap a ring later, skipped by a jump over 1000, or hidden by an entry of an earlier cycle |
| `Reorder.ReorderBuffer.constructor` | rist-protocol/src/protocol/reorder.rs:92-106 | for every request the ring is a power of two, at least 64, at least the request and, above 64, less than twice it; up to 16384 slots it satisfies the ring invariant and starts as an empty queue |
| `Reorder.ReorderBuffer.Insert` | rist-protocol/src/protocol/reorder.rs:122-248 | in every state, inserting does to the queue and reports exactly what the unbounded queue does for the nearest number |
| `ReorderModel.OutcomeIs` | rist-protocol/src/protocol/reorder.rs:122-248 | in every window: stale means below the base, duplicate that the number was held, recovered that it was a gap; the new gaps are the numbers between the old end and the arrival, none if the window starts over; the flushed count is that of the packets below the new base |
| `ReorderModel.InsertIs` | rist-protocol/src/protocol/reorder.rs:154-248 | the window after an arrival, number by number: base, end, the arrival in its own place, a gap noticed now for every number jumped over, everything else as it was |
| `Reorder.ReorderBuffer.MakeRoom` | rist-protocol/src/protocol/reorder.rs:154-197 | an overflow flushes exactly the oldest cells that must go, or everything if that is not enough, and counts the packets lost |
| `Reorder.ReorderBuffer.Store` | rist-protocol/src/protocol/reorder.rs:198-248 | storing fills, recovers or rejects as a duplicate, and every number jumped over becomes a gap |
| `Reorder.ReorderBuffer.MarkGaps` | rist-protocol/src/protocol/reorder.rs:226-243 | the loop marks every number strictly between, leaves the other slots alone and counts the gaps |
| `Reorder.JumpIsSeenIff` | rist-protocol/src/protocol/reorder.rs:226-244 | above a drained window a packet is seen to be ahead of the highest number if and only if it is less than 32767 ahead of the base, which only a ring of 32768 slots can exceed |
| `Reorder.ReorderBuffer.DrainReady` | rist-protocol/src/protocol/reorder.rs:252-311 | draining yields exactly what the queue yields, item by item |
| `Reorder.ReorderBuffer.NextDrainTime` | rist-protocol/src/protocol/reorder.rs:316-329 | the answer is the least time at which a drain yields output, if and only if the window is not drained or the next number is sent as 0 and its slot is wiped; any other drained window answers "now" |
| `Reorder.DrainedBufferSpins` | rist-protocol/src/protocol/reorder.rs:316-323 | from the constructor, one packet inserted and drained leaves a buffer that answers "now" although no drain ever yields anything |
| `ReorderModel.ArrivalIsHeldIff` | rist-protocol/src/protocol/reorder.rs:154-243 | a packet is held under its number after insertion if and only if it was not stale and did not hit a drained window from capacity to 2*capacity-2 ahead; it is this arrival with its bytes and time, or for a duplicate the one already there |
| `ReorderModel.DrainedOverflowLosesPacket` | rist-protocol/src/protocol/reorder.rs:162-243 | a run from the start in which a packet is accepted, overwritten by its own gap marking and never delivered |
| `ReorderModel.DrainTakesDuePrefix` | rist-protocol/src/protocol/reorder.rs:252-311 | a drain pops exactly the longest due prefix, in order |
| `ReorderModel.Conservation` | rist-protocol/src/protocol/reorder.rs:154-196 | over every run, accepted packets = delivered + flushed + buffered + lapped, and the output is the played and timed-out numbers in order |
| `ReorderModel.OwnsItsWindow` | rist-protocol/src/protocol/reorder.rs:161-243 | in every run without a drained overflow each number of the window owns its slot as a packet or a gap, so the wrapped-past branch of the drain never fires, and accepted = delivered + flushed + buffered |
| `ReorderModel.EachPacketAccounted` | rist-protocol/src/protocol/reorder.rs:122-311 | every accepted packet, at every later point of every run: held in its own cell with its bytes and time, played with these, or flushed |
| `ReorderModel.AcceptedIsDelivered` | rist-protocol/src/protocol/reorder.rs:122-311 | so it is never reported lost, and once the window has passed it, it was delivered or flushed |
| `ReorderModel.DrainedIsDelivered` | rist-protocol/src/protocol/reorder.rs:252-311 | without overflow every accepted packet has been delivered by a drain a hold time after the latest arrival |
| `ReorderModel.InOrderFromArrivals` | rist-protocol/src/protocol/reorder.rs:252-311 | over every run, output numbers strictly increase and each delivery has the bytes and time of an arrival with its number |
| `ReorderModel.EachReportedOnce` | rist-protocol/src/protocol/reorder.rs:252-311 | if no arrival overflowed, each number from the first to base-1 was reported exactly once and nothing was flushed |
| `ReorderModel.DeadlineIsExact` | rist-protocol/src/protocol/reorder.rs:316-329 | the head's deadline is exactly when a drain first yields output |
| `ReorderModel.NothingEarly` | rist-protocol/src/protocol/reorder.rs:275-303 | no packet is delivered before its hold time has passed |
| `ReorderModel.EveryGapRevealed` | rist-protocol/src/protocol/reorder.rs:226-243 | over every run each gap was noticed at the time of the arrival that first jumped over its number |
| `ReorderModel.NothingLostEarly` | rist-protocol/src/protocol/reorder.rs:252-311 | no number is reported lost before a hold time has passed since that arrival, unless its slot was lapped |
| `ReorderModel.RunStamped` | rist-protocol/src/protocol/reorder.rs:198-243 | under a monotone clock no slot is stamped in the future, so the wake-up contract applies to every run |
| `Nack.NackScheduler.constructor` | rist-protocol/src/protocol/nack_tracker.rs:115-132 | starts with nothing tracked |
| `Nack.NackScheduler.OnPacketReceived` | rist-protocol/src/protocol/nack_tracker.rs:136-190 | a packet does to the slots what it does to the table of pending numbers, and returns exactly the new gaps |
| `Nack.NackScheduler.Chase` | rist-protocol/src/protocol/nack_tracker.rs:160-178 | the gap loop tracks every number between and reports those not already shown |
| `Nack.NackScheduler.Deactivate` | rist-protocol/src/protocol/nack_tracker.rs:199-206 | removes exactly the entry that shows the number |
| `Nack.NackScheduler.GetPendingNacks` | rist-protocol/src/protocol/nack_tracker.rs:210-238 | the due list is strictly ascending and holds exactly what polling the table lists; the early return hides none; when that is, `NackModel.DueListIff` says from the history alone |
| `Nack.NackScheduler.Scan` | rist-protocol/src/protocol/nack_tracker.rs:216-234 | the slot loop lists, reschedules and drops what polling the table does, and keeps the counter |
| `Nack.SortAscends` | rist-protocol/src/protocol/nack_tracker.rs:236-237 | sorting distinct numbers gives them strictly ascending, with the same members |
| `NackModel.EveryNumberClassed` | rist-protocol/src/protocol/nack_tracker.rs:136-190 | over every run each number below the frontier has one class, reports are exactly the numbers classed as reported and strictly increase, and the counter is active slots plus evictions |
| `NackModel.EveryClassExplained` | rist-protocol/src/protocol/nack_tracker.rs:145-190 | each class has its event in the run: the arrival, the jump of at most 1000 that reported it, the longer jump that skipped it, or the slot that hid it |
| `NackModel.EveryChasePaced` | rist-protocol/src/protocol/nack_tracker.rs:162-238 | over every run a gap is listed at most max_retries times, first no sooner than its base delay, then spaced by the delay in force |
| `NackModel.DueListIff` | rist-protocol/src/protocol/nack_tracker.rs:210-238 | after every run a tracked number is on the due list of a poll if and only if it was listed fewer than max_retries times and its first time, or its last listing plus the delay of that listing, has come |
| `NackModel.ListedExactlyMax` | rist-protocol/src/protocol/nack_tracker.rs:210-238 | over every run a tracked number that never arrives and is polled often enough is listed by every one of these polls until it was listed exactly max_retries times, and the next poll drops it |
| `NackModel.ChasesAreTrue` | rist-protocol/src/protocol/nack_tracker.rs:145-238 | over every run each chase began with a jump of at most 1000 over its number, due the base delay then in force after it, and each listing is a poll of the run with its RTT, or else the base delay, as its delay |
| `NackModel.TrackedUntil` | rist-protocol/src/protocol/nack_tracker.rs:136-238 | over every run a tracked number stays tracked until it arrives, is out of retries, or a same-slot gap a whole ring later evicts it |
| `NackModel.PacketKeepsTracked` | rist-protocol/src/protocol/nack_tracker.rs:136-206 | one packet leaves a tracked number and its timer alone, with those exceptions |
| `NackModel.PollKeepsTracked` | rist-protocol/src/protocol/nack_tracker.rs:216-234 | a poll drops a number if and only if it is ripe without retries left |
| `NackModel.LateArrivalSilences` | rist-protocol/src/protocol/nack_tracker.rs:199-206 | after an arrival below the frontier no entry shows its 16 bits |
| `NackModel.FrontierArrivalSilentIff` | rist-protocol/src/protocol/nack_tracker.rs:145-190 | after an arrival at the frontier its 16 bits are silent if and only if they were before |
| `NackModel.ArrivalSettlesIff` | rist-protocol/src/protocol/nack_tracker.rs:136-206 | an arrival leaves its number below the frontier with nothing pending under its 16 bits, if and only if it was late or no old entry showed them |
| `NackModel.ListedAfterArrival` | rist-protocol/src/protocol/nack_tracker.rs:145-190 | a run in which a number is on the due list right after it arrived |
| `NackModel.EvictionLeavesCount` | rist-protocol/src/protocol/nack_tracker.rs:162-177 | a run that ends with nothing tracked and a counter of one |
| `NackModel.NeverListedAfterArrival` | rist-protocol/src/protocol/nack_tracker.rs:136-238 | over every run a number that arrived, late or at the frontier, is on no later due list within 65536 numbers, unless an entry of an earlier cycle showed its 16 bits when it arrived |
| `NackModel.HiddenOnlyByOldCycle` | rist-protocol/src/protocol/nack_tracker.rs:162-177 | with no entry from an earlier cycle, every number of a gap is reported |
| `Retransmit.RetransmitBuffer.Insert` | rist-protocol/src/protocol/nack_tracker.rs:45-49 | the slots always hold the latest write of the log that landed there |
| `Retransmit.RetransmitBuffer.Get` | rist-protocol/src/protocol/nack_tracker.rs:53-59 | answers with the latest write to the slot if the number still matches |
| `Retransmit.RecentIsFound` | rist-protocol/src/protocol/nack_tracker.rs:35-59 | after any run of sends each of the last min(capacity, 65536) numbers is found, with its own packet |
| `Retransmit.FoundIsRecent` | rist-protocol/src/protocol/nack_tracker.rs:35-59 | and whatever is found is one of these |
| `Retransmit.ResidentAtMostCapacity` | rist-protocol/src/protocol/nack_tracker.rs:35-59 | distinct resident numbers occupy distinct slots, so there are at most capacity of them |
| `NackEntries.BuildBitmask` | rist-protocol/src/packet/rtcp_nack.rs:179-202 | the loop computes the greedy packing |
| `NackEntries.PackIsExact` | rist-protocol/src/packet/rtcp_nack.rs:28-39 | packing a strictly ascending list and expanding the entries gives the list back, in order |
| `NackEntries.NamesIff` | rist-protocol/src/packet/rtcp_nack.rs:28-39 | an entry names its pid and, for each of the 16 mask bits that is set, the number that many after it plus one; nothing else |
| `NackEntries.ExpandIff` | rist-protocol/src/packet/rtcp_nack.rs:28-39 | a list of entries names what some entry names |
| `NackEntries.BuildRange` | rist-protocol/src/packet/rtcp_nack.rs:205-227 | the loop computes the maximal runs |
| `NackEntries.RangePackIsExact` | rist-protocol/src/packet/rtcp_nack.rs:52-58 | range packing decodes to exactly its input, sorted or not, for at most 65536 numbers |
| `NackEntries.ExpandRangeIff` | rist-protocol/src/packet/rtcp_nack.rs:52-58 | a list of ranges names exactly the numbers at most `extra` after some start, modulo 65536 |
| `NackEntries.RangePackIsShortest` | rist-protocol/src/packet/rtcp_nack.rs:205-227 | no shorter list of ranges, with any starts and lengths, expands to the same list |
| `NackEntries.GreedyIsOptimal` | rist-protocol/src/packet/rtcp_nack.rs:179-202 | no list of fewer entries, with any pids and masks, names all numbers of an ascending list spanning at most 65519 |
| `NackEntries.GreedyIsWithinOne` | rist-protocol/src/packet/rtcp_nack.rs:179-202 | for every ascending list, whatever its span, greedy packing uses at most one entry more than any list that covers it |
| `NackEntries.GreedyIsNotOptimalBeyond` | rist-protocol/src/packet/rtcp_nack.rs:179-202 | for every larger span two numbers fit one entry while greedy packing uses two |
| `Codec.HeaderRoundTrip` | rist-protocol/src/packet/rtcp.rs:37-67 | a written common header reads back, whatever follows it |
| `Rtcp.BlockRoundTrip` | rist-protocol/src/packet/rtcp_rr.rs:36-79 | a report block reads back if and only if its loss fits 24 signed bits |
| `Rtcp.ParseReceiverReport` | rist-protocol/src/packet/rtcp_rr.rs:94-113 | the reading loop with its early error computes what the length test of the body parser states |
| `Rtcp.ParseNackPacket` | rist-protocol/src/packet/rtcp_nack.rs:83-124 | both entry loops read every whole word behind the two SSRCs; other formats and short bodies fail |
| `Rtcp.ParseRistApp` | rist-protocol/src/packet/rtcp_app.rs:130-207 | the range loop reads entries while they last, up to 512; short echoes fail, foreign names are kept |
| `Codec.ReadHeader` | rist-protocol/src/packet/rtcp.rs:37-62 | shifts and masks on the first byte give the header, or an error for a wrong version |
| `Rtcp.PacketReadsBack` | rist-protocol/src/packet/rtcp_app.rs:130-266 | every well-formed packet of every kind is framed by its own header and reads back |
| `Rtcp.ParsedIsWellFormed` | rist-protocol/src/packet/rtcp.rs:107-169 | whatever a body parser accepts is well-formed |
| `Layout.FieldsAreRead` | rist-protocol/src/packet/rtcp.rs:107-169 | for every packet type, count and body: which bodies are recognised, and which bytes of a recognised one each field is read from, big-endian, with packet types, formats and the name "RIST" in figures |
| `Layout.FieldsAreWritten` | rist-protocol/src/packet/rtcp_sr.rs:62-75 | every well-formed packet is written with version 2, no padding flag, its type, count and length in words less one, its exact size, and each field in its bytes |
| `Layout.SdesEndsInZeros` | rist-protocol/src/packet/rtcp_sdes.rs:56-88 | behind the name an SDES packet has zero bytes only, at least one |
| `Compound.ParseCompound` | rist-protocol/src/packet/rtcp.rs:107-169 | the loop stays in bounds, ends and yields at most 64 elements, on every input |
| `Compound.ParseIs` | rist-protocol/src/packet/rtcp.rs:107-169 | a datagram is refused whole if and only if one of its first 64 sub-packets, behind whole ones, starts with another version than 2; otherwise the elements are exactly the whole sub-packets in front, up to 64, each read with byte 1 and the low five bits of byte 0 of its header |
| `Compound.SerializeCompound` | rist-protocol/src/packet/rtcp.rs:172-185 | the loop writes the packets one after the other |
| `Compound.WriteThenRead` | rist-protocol/src/packet/rtcp.rs:107-185 | at most 64 well-formed packets survive writing and reading |
| `Compound.ReadThenWriteThenRead` | rist-protocol/src/packet/rtcp.rs:107-185 | whatever the parser accepts, writing and reading again gives the same packets without the unknown ones |
| `Compound.BodiesAreIsolated` | rist-protocol/src/packet/rtcp.rs:107-169 | replacing one body by bytes of the same length changes at most that element, whatever reads the bodies |
| `Service.ServeEntries` | rist-transport/src/sender.rs:55-89 | the loop sends flagged copies of what the budgeted walk selects and leaves the budget it leaves |
| `Service.ServeDatagram` | rist-transport/src/sender.rs:265-388 | one datagram retransmits exactly: flatten the numbers asked of us, the first `scan`, the resident ones, the first `retx`; what is asked of us is stated apart, in `Requests.RequestsCrossTheWire` |
| `Service.WalkServes` | rist-transport/src/sender.rs:65-89 | the lazy walk with early exits equals the take-filter-take statement |
| `Service.ServeKeepsBudget` | rist-transport/src/sender.rs:65-89 | at most `retx` copies go out, all of them held and among the first `scan` asked for; if fewer go out, every one of those that is held does |
| `Service.TargetsIff` | rist-transport/src/guard.rs:136-138 | a NACK is for us if and only if it names SSRC 0, ours, or ours with the low bit set |
| `Service.WalkConcat` | rist-transport/src/sender.rs:270-388 | walking sub-packet by sub-packet is walking the concatenation |
| `Service.ResidentsAllServed` | rist-transport/src/guard.rs:184-191 | with at most 8192 slots, a request naming no number twice and at most `scan` numbers gets every resident packet once, in order |
| `NackRound.Pump` | rist-transport/src/receiver.rs:508-545 | from every reachable scheduler state the emitted datagram is the compound of report and packed due list and, parsed and expanded, asks for exactly the due list; nothing is emitted if none is due |
| `NackRound.DueListCrossesTheWire` | rist-transport/src/receiver.rs:525-534 | the compound of report and bitmask NACK reads back as written and asks for the due list in order |
| `NackRound.DueListIsServed` | rist-transport/src/sender.rs:156-388 | read through the 2048-byte buffer, a datagram that fits makes the sender spend its budgets on the due list, and within the scan budget answer with every due packet it holds, once each and in order; one that does not fit makes it answer nothing |
| `Requests.PartAsks` | rist-transport/src/sender.rs:273-388 | in each of the three encodings, bitmask NACK, range NACK and APP range request, a packed list asks for exactly its numbers in order, of the sender whose SSRC it names and of no other; any other packet asks for nothing |
| `Requests.RequestsCrossTheWire` | rist-transport/src/sender.rs:270-388 | up to 64 sub-packets in any mix, written and parsed, ask for the lists addressed to us one after the other |
| `Requests.RequestsAreServed` | rist-transport/src/sender.rs:156-388 | if they fit 2048 bytes, name no number twice and stay within the scan budget, the sender answers with every packet asked for that it holds, once each, in the order asked, and with nothing else |
| `Requests.AnswerDatagram` | rist-transport/src/sender.rs:213-388 | the RTCP arm on bytes: cut to the buffer, parsed, served; what does not parse is answered with nothing |
| `NackRound.TruncatedNackIsLost` | rist-transport/src/sender.rs:156-230 | a due list reaches the sender if and only if its datagram fits 2048 bytes; otherwise nothing is asked |
| `NackRound.ScatteredLossIsLost` | rist-transport/src/sender.rs:156-230 | with one report block, a due list of every seventeenth number is answered in full up to 501 numbers and not at all from 502 on |
| `ScatteredLoss.StreamChased` | rist-protocol/src/protocol/nack_tracker.rs:136-190 | after a stream that loses every seventeenth packet the scheduler chases exactly the lost numbers |
| `ScatteredLoss.StreamIsNotRecovered` | rist-transport/src/sender.rs:156-230 | and whatever due list a poll then makes, its datagram does not fit and the sender retransmits nothing |
| `Bonding.BondingMerger.Process` | rist-protocol/src/protocol/bonding.rs:49-92 | a packet gets the verdict the set of all emitted numbers gives it, and is counted once |
| `Bonding.BondingMerger.AdvanceWindow` | rist-protocol/src/protocol/bonding.rs:111-126 | moving the window keeps the bitmap in agreement with the set |
| `Bonding.EmittedOnce` | rist-protocol/src/protocol/bonding.rs:49-92 | over every run each number goes out at most once and emitted + duplicates + late = processed |
| `Bonding.EmittedIff` | rist-protocol/src/protocol/bonding.rs:60-91 | after any run a packet goes out if and only if its number never went out and no number at least 1024 higher did |
| `Reception.RtcpReceiverState.OnPacketReceived` | rist-protocol/src/protocol/rtcp_state.rs:186-214 | for every session length the fields are the low 32 bits of books in which the extended number moves to the nearest unwrapped number and never back |
| `Reception.RtcpReceiverState.GenerateRr` | rist-protocol/src/protocol/rtcp_state.rs:243-292 | the report is that of the books cut to 32 bits, closes them, and is well-formed, so it survives the wire; its fraction q is the greatest byte with q * expected <= 256 * lost, 0 if nothing was lost |
| `Reception.NothingWraps` | rist-protocol/src/protocol/rtcp_state.rs:252-268 | while the totals fit the counters no subtraction wraps: the intervals are the growth of the totals and the loss their difference; the intervals stay right as long as each fits |
| `Reception.FractionLostIs` | rist-protocol/src/protocol/rtcp_state.rs:260-264 | for all counts the fraction is floor(256 * lost / expected), at most 255, and 0 if as many came as expected |
| `Reception.ReportSays` | rist-protocol/src/protocol/rtcp_state.rs:243-292 | over every run whose totals fit the counters, the block holds the highest number received, all numbers up to it less the packets received cut to 24 bits, and the share lost of the numbers that became due since the last report |
| `Reception.ReportsTelescope` | rist-protocol/src/protocol/rtcp_state.rs:243-292 | over every run the extended number is the first plus all forward movement, no interval is negative and the intervals add up to the totals |
| `Rtt.RttEstimator.UpdateRtt` | rist-protocol/src/protocol/rtt.rs:72-90 | the new SRTT is an eighth of the way to the sample and the new variation a quarter of the way to the distance, exactly and with the rounding; the first sample sets them to itself and its half; the estimate stays within the range of all samples but for the rounding |
| `Rtt.StaysInRange` | rist-protocol/src/protocol/rtt.rs:72-90 | for samples in [lo, hi] SRTT stays in [8*floor(lo/8), hi] for ever and the variation is bounded |
| `Rtt.BoundIsTight` | rist-protocol/src/protocol/rtt.rs:72-90 | a constant sample of 8k+7 settles at 8k |
| `Rtt.SrttSettles` | rist-protocol/src/protocol/rtt.rs:72-90 | from any estimate, enough repeats of one sample bring SRTT to a fixed limit, which is the sample or at most 14 ns below it, and keep it there |
| `Rtt.SettlesWithinSevenIff` | rist-protocol/src/protocol/rtt.rs:72-90 | that limit is within 7 ns of the sample if and only if the estimate started no lower than 7 ns below it or the sample is a multiple of 8 |
| `Rtt.StuckFourteenBelow` | rist-protocol/src/protocol/rtt.rs:72-90 | an estimate of 1 ns stays at 1 ns however often a sample of 15 ns comes |
| `Rtt.RttvarSettles` | rist-protocol/src/protocol/rtt.rs:72-90 | once the estimate has settled, enough repeats bring the variation to a limit of at most 14 ns |
| `Guard.MediaSlot.Receive` | rist-transport/src/receiver.rs:307-368 | a burst is accepted if and only if it parsed, comes from the pinned IP if there is one, and the slot is empty, of the same IP, never live, or last live 12 s before; an admitted burst moves the latch even if it does not parse, and only an accepted one makes the slot live; the fields are what the run of all bursts makes of them, and accepted groups stay 12 s apart |
| `Guard.MediaGroupsSpaced` | rist-transport/src/guard.rs:48-96 | in every run consecutive accepted media groups from different IPs are at least 12 s apart, although the latch may move on bursts that do not parse |
| `Guard.SourceAllowedIff` | rist-transport/src/guard.rs:48-96 | the admission rule for every source, pin, latch and time |
| `Guard.ProtectionEnds` | rist-transport/src/guard.rs:48-96 | after every run a parsed burst 12 s after the last accepted group is accepted from every IP the pin allows |
| `Guard.ProtectionHolds` | rist-transport/src/guard.rs:48-96 | and before that another IP changes nothing, under a monotone clock |
| `Guard.PinIsObeyed` | rist-transport/src/guard.rs:81-96 | in every run with a pin every accepted group has the pinned IP |
| `Guard.RtcpSlot.Receive` | rist-transport/src/sender.rs:230-260 | the same for the RTCP datagrams the sender sees, without a pin; nothing moves on one that does not decode or is not admitted |
| `Guard.RtcpGroupsSpaced` | rist-transport/src/guard.rs:48-96 | the same spacing for the RTCP datagrams the sender accepts |
| `Guard.FeedbackProtectionEnds` | rist-transport/src/guard.rs:48-70 | after every run a datagram that decodes is accepted from anywhere 12 s after the last accepted one |
| `Rtp.SentReadsBack` | rist-transport/src/sender.rs:442-448 | a sent packet reads back with its number, SSRC, timestamp and payload |
| `Rtp.ParseRtpIs` | rist-protocol/src/packet/rtp.rs:61-110 | every byte string: refused if and only if shorter than 12 bytes, of another version, or too short for its CSRCs; otherwise number, timestamp and SSRC are bytes 2-3, 4-7 and 8-11 and the payload is everything behind the CSRC list |
| `Rtp.RetransmitReadsBack` | rist-protocol/src/packet/rtp.rs:42-56 | a flagged copy carries the same number and payload and is recognised by its odd SSRC |
| `Rtp.ReceivedReadsBack` | rist-transport/src/receiver.rs:255-332 | through the 2048-byte buffer an original and its copy read back with the same number and the payload's first 2036 bytes |
| `Rtp.SeenWholeIff` | rist-transport/src/receiver.rs:49 | these are the payload if and only if it has at most 2036 bytes |
| `Bits.IdxIsRemainder` | rist-protocol/src/protocol/nack_tracker.rs:35-59 | the masked ring index of a number is its remainder by the ring size |
| `Seq16.UnwrapIsNearest` | rist-protocol/src/protocol/reorder.rs:140-146 | the signed 16-bit difference finds the one number of the half-space with that wire form |

## Left out

- Reorder.ReorderBuffer.Insert: is stated for rings of at most 16384 slots, because the ring arithmetic itself wraps above (see "Reading the model").
- Reception.RtcpReceiverState.OnPacketReceived: does not model the jitter estimate.
- Recovery.RecoveredIsDelivered: is stated for reorder buffers of at most 16384 slots, the sizes for which the ring behaves like the queue.
- EndToEnd.DeliveredIsSubsequenceOfSent: does not cover packets that arrive more than half the number space away from the receiver's base; those are numbered wrongly by design.
- EndToEnd.ArrivalIsTrue: media that is not this sender's is not modelled; a foreign source that is admitted in its place could inject payloads of its own.
- Cursors and growing buffers of single packet bodies (SR, SDES, APP, RTP): modelled on byte sequences, so partial writes and reuse of buffers are not captured; the loops over report blocks, NACK entries and sub-packets are methods.
- The event loops of sender and receiver are steps of a state machine over values (`EndToEnd`), not classes; ring, scheduler, budget, peer slots and counters they mutate are classes.
- Sockets, task scheduling, channels, logging and statistics: input and output only; each arm of the event loops is one step.
- A bound on delivery latency: a recovered head restarts its own hold time, so no constant multiple of the buffer time holds.
- "Received never exceeds expected" in reports: repeats that arrive after delivery are stale, not duplicate, and are counted.
- Spacing of the receiver's own RTCP peer: the media path rewrites that address too, so the simple property does not hold for it.
- The ordering on sequence numbers (`rist-protocol/src/packet/seq.rs`), which no protocol code uses.
- Wall-clock and NTP conversion, RTT echo generation and answers, report scheduling, RTP header extensions and padding.
- Text decoding of CNAMEs: they are bytes here, so invalid UTF-8 is not replaced.
- Configuration, GRE, encryption, tunnels, null-packet deletion, the bonding and tunnel tasks: plumbing or stubs without behaviour.
