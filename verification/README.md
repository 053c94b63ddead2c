# DisPing: a model and its proofs

DisPing is a Windows tool for network latency. Its core is an x86-64 assembly engine (checksum,
CRC, memory and statistics kernels) and C++ code that must agree with it. This project models that
core in Dafny, in the form it has in the program (register and carry updates in loops, memory
written in place, methods that update fields), and proves what the routines are for.

`dafny verify dfyconfig.toml` checks everything.

## What is modelled

- **Machine, OnesComplement, Checksum, ChecksumLaws.** The dual-accumulator and the
  single-accumulator add-with-carry chains and the 32-bit scalar loop, with registers as naturals
  below 2^64 and an explicit carry. The two chains return the complement of the one's-complement
  sum for every buffer, no end-around carry is lost, and every load stays in the buffer. The scalar
  loop wraps at 2^32 in the model as in the program; it agrees with the assembly for all buffers of
  a length exactly when that length is 1 to 131074.
- **Gf2, Crc32c, Crc32cLaws.** Polynomial long division over GF(2) with its uniqueness theorem; the
  `crc32` instruction defined as a remainder; the loop that mixes 8-byte and 1-byte instructions is
  the bit-serial CRC-32C. Every error confined to 32 consecutive bits is detected, and of the bursts
  one bit longer exactly one pattern is not; every error in an odd number of bits is detected; and
  two different buffers of one length share their CRC exactly when their difference is a multiple
  of the generator.
- **MemoryKernels, Dispatch, UdpRelay, RelayLifecycle.** Flat memory as one byte array. Streaming
  stores must be aligned: the clearing routines prove it of each store, the copy routine has no
  alignment prologue and is shown to fault exactly when it is given a misaligned destination and at
  least 32 bytes. For overlapping blocks it is shown what the copy leaves, and when that is a copy.
  An instruction the processor does not have ends the process: the dispatcher never meets one, on any
  processor. The relay aligns its buffers and, on a processor with AVX2, forwards exactly what it
  received. Its worker thread and the thread that starts and stops it are interleaved step by step.
- **PingStats, PingMonitor, Sparkline.** One-pass against four-pass statistics over the reals; the
  monitor loop keeps, reply by reply, what a computation from scratch would give; the graph.
- **MtuOptimizer, TimerDaemon, TimerLaws, DnsQuery, ThreadMasks, HardwareDetector.** Binary search
  over an unreliable network, two interleaved threads as a state machine, the DNS query against a
  decoder, core counting and masks.
- **Interleaving.** Runs of a state machine, shared by RelayLifecycle, TimerDaemon and TimerLaws.
- **VdfText, LoginUsers, LoginUsersRepair, LoginUsersLaws.** The repair of Steam's users file:
  regular-expression matching and in-place editing on characters, shown equal to an update of the
  records the text stands for, on all files that are flat user blocks with no quotes inside values and
  no value spelled like a searched key, if the braces found around the account name are those of the
  user's block; when they are is stated in terms of the records.

Memory is an array of bytes, a pointer an index into it, and address 0 the null pointer. What comes
from outside (received datagrams, probe answers, latencies, CPU flags, core records, the stored user
name, the file content) is an arbitrary parameter.

## Where the code and its documentation differ

- The checksum is announced as that of RFC 1071. It is, up to the byte order of the machine, exactly
  when the buffer is not empty and its length is even or its last byte zero: an odd last byte goes
  into the high half of a little-endian word, not into the `[Z,0]` of section 1 of RFC 1071, and for
  an empty buffer the routines return 0 where RFC 1071 gives 0xFFFF
  (`ChecksumLaws.NetworkOrderIff`).
- The scalar routine is announced as the reference for the assembly. It differs on the empty buffer
  (0xFFFF against 0) and, for some buffers, on every length above 131074
  (`ChecksumLaws.ScalarAgreesForLengthIff`); for one given buffer, empty or not,
  `ChecksumLaws.ScalarAgreesIff` says when.
- The one-pass and the four-pass statistics differ when all values exceed 9999 or all are negative
  (`PingStats.PassesAgreeIff`).
- The question name reads back as the labels of the domain, by the rules of RFC 1035, exactly when
  all labels have 1 to 63 bytes and the domain at most 253 (`DnsQuery.RoundTripIff`). The length byte
  of a label of 64 to 255 bytes reads as a pointer or is reserved; from 256 on it is truncated, and
  then different domains can have the same question name (`DnsQuery.QNameInjectiveIff`).
- The program promises not to fail with an illegal instruction on old processors. The dispatcher keeps
  that promise, but the relay calls the AVX routines directly: on a processor without AVX2 the first
  non-empty datagram ends the process (`UdpRelay.UdpProxy.Relay`).
- A relay worker that ends by itself, for want of a socket, leaves its thread unjoined. This shows as
  `IsRunning()` being false after a successful Start without a Stop; then Stop does nothing, and the
  next Start or the destruction of the object ends the process (`RelayLifecycle.NextCallCrashesIff`,
  `RelayLifecycle.CrashHappens`).
- The timer is to stay locked until the daemon is stopped. A call of RestoreTimerResolution while it is
  running breaks that (`TimerLaws.RestoreUnlocksIff`, `TimerLaws.RestoreCanLeak`).
- The repair of the users file cuts a block short at a closing brace in a value after the account name
  (`LoginUsersRepair.BlockFoundIff`, `LoginUsersLaws.BraceInName`).

## Model

| member | source | states |
|---|---|---|
| InternetChecksum.Avx2Checksum | src/asm/disping_routines.asm:75-219 | for every memory, buffer and length (null and zero included) the dual-accumulator chain returns the complement of the one's-complement sum of the buffer, 0 for nothing; all loads in the buffer |
| InternetChecksum.Sse2Checksum | src/asm/disping_routines.asm:531-603 | the single-accumulator chain returns the same |
| InternetChecksum.AdcRound | src/asm/disping_routines.asm:91-129 | eight alternating loads keep the sum modulo 65535 and its zero-ness; the two accumulators and the carry are never all ones together |
| InternetChecksum.FoldCarry | src/asm/disping_routines.asm:131-132 | the closing pair of additions loses no carry, given that invariant |
| InternetChecksum.ChecksumTail | src/asm/disping_routines.asm:167-193 | the 8-byte, 2-byte and 1-byte ends add the rest of the buffer, the odd last byte in the high half |
| InternetChecksum.FoldAndComplement | src/asm/disping_routines.asm:200-215 | folding 64 to 32 to 16 bits and complementing gives the complement of the canonical residue, zero only for zero |
| OnesComplement.OnesSumIsCanon | src/asm/disping_routines.asm:75-215 | adding word by word with end-around carry equals adding in the naturals and reducing once |
| ChecksumLaws.ReturnedAnywhere | src/asm/disping_routines.asm:75-219 | the result for a buffer depends neither on its address nor on the memory around it, so the laws below hold at every address |
| InternetChecksum.ScalarChecksum16 | src/benchmark_runner.cpp:24-39 | the scalar loop returns the complement of the reduced word sum, the sum taken modulo 2^32 |
| InternetChecksum.FoldScalar | src/benchmark_runner.cpp:35-37 | the closing loop ends, on a decreasing sum, at the canonical residue |
| ChecksumLaws.NetworkOrderIff | src/asm/disping_routines.asm:75-219 | the byte-swapped result of the routines is the checksum of section 1 of RFC 1071 if and only if the buffer is not empty and its length is even or its last byte zero |
| ChecksumLaws.NetworkSumEven | src/asm/disping_routines.asm:75-215 | byte order independence, section 2(B) of RFC 1071: for even lengths the network-order sum is the byte-swapped sum |
| ChecksumLaws.VerifiesIff | src/asm/disping_routines.asm:75-219 | the routines return zero if and only if the buffer is empty or its word sum is a positive multiple of 65535 |
| ChecksumLaws.StoredChecksumVerifies | src/asm/disping_routines.asm:177-215 | storing the checksum in a cleared field at an even offset makes the recomputed checksum zero |
| ChecksumLaws.WordErrorIff | src/asm/disping_routines.asm:75-215 | a change to one 16-bit word goes unnoticed if and only if it swaps 0x0000 and 0xFFFF and the rest is not all zero |
| ChecksumLaws.ScalarAgreesIff | src/benchmark_runner.cpp:24-39 | on one buffer the scalar result is the one the assembly returns if and only if the buffer is not empty, the number of 32-bit wraps is a multiple of 65535 and the wrapped sum is zero only if the sum is |
| ChecksumLaws.ScalarAgreesForLengthIff | src/benchmark_runner.cpp:24-39 | scalar and assembly agree on all buffers of length n if and only if n is 1 to 131074 |
| Crc32c.Crc32Fast | src/asm/disping_routines.asm:371-396 | the loop over 8-byte and 1-byte instructions returns the bit-serial CRC-32C of the buffer, for every buffer and length, or meets an unknown instruction: if and only if there are bytes to read and the processor lacks SSE4.2 |
| Crc32c.InstructionIsSerial | src/asm/disping_routines.asm:381-391 | an instruction of any operand width, defined as a polynomial remainder, equals that many bit steps |
| Crc32c.LittleEndianBits | src/asm/disping_routines.asm:381-384 | a little-endian operand of any number of bytes is consumed as its bytes in memory order |
| Crc32c.BitStepIsShift | src/asm/disping_routines.asm:367-369 | a step of the reflected algorithm with constant 0x82F63B78 is a step of division by the Castagnoli polynomial |
| Gf2.RemIff | src/asm/disping_routines.asm:367-369 | long division by 0x11EDC6F41 gives the remainder: the only polynomial of degree below 32 that differs from the dividend by a multiple of the generator |
| Gf2.FeedIsRem | src/asm/disping_routines.asm:378-391 | a shift register fed coefficient by coefficient holds the remainder of state and message |
| Gf2.BurstDetected | src/asm/disping_routines.asm:378-396 | messages that differ within at most 32 coefficients leave the register different, whatever surrounds them |
| Gf2.LongerBurstIff | src/asm/disping_routines.asm:378-396 | of the bursts of 33 coefficients inside a message exactly the generator itself goes unnoticed, whatever surrounds it |
| Gf2.SameRegisterIff | src/asm/disping_routines.asm:378-396 | two messages of one length leave the same register, from any state, if and only if their difference is a multiple of the generator |
| Gf2.FeedParity | src/asm/disping_routines.asm:378-396 | the parity of the register is that of the state and the message together, since x + 1 divides the generator |
| Crc32cLaws.CheckValue | tests/test_main.cpp:106-111 | "123456789" gives 0xE3069283 |
| Crc32cLaws.BitBurstDetected | src/asm/disping_routines.asm:378-396 | buffers that differ only within 32 consecutive transmitted bits have different CRCs |
| Crc32cLaws.WindowErrorDetected | src/asm/disping_routines.asm:378-396 | buffers that differ only within four consecutive bytes have different CRCs |
| Crc32cLaws.LongerBitBurstIff | src/asm/disping_routines.asm:378-396 | different buffers that agree outside 33 consecutive bits have the same CRC if and only if those bits differ by the generator |
| Crc32cLaws.OddErrorDetected | src/asm/disping_routines.asm:378-396 | buffers of one length that differ in an odd number of bits have different CRCs |
| Crc32cLaws.CollisionIff | src/asm/disping_routines.asm:378-396 | different buffers of one length have the same CRC if and only if they have at least four bytes and their difference is a multiple of the generator |
| MemoryKernels.Avx2Memzero | src/asm/disping_routines.asm:255-304 | exactly the given bytes become zero, for every address and size, each vector store 32-aligned and in range; or an unknown instruction is met before anything changes: if and only if there are bytes to clear and the processor lacks AVX2 |
| MemoryKernels.Sse2Memzero | src/asm/disping_routines.asm:610-658 | the same with 16-byte stores |
| MemoryKernels.ZeroUntilAligned | src/asm/disping_routines.asm:263-271 | the prologue clears bytes until the address is aligned or the size runs out |
| MemoryKernels.Avx2Memcpy | src/asm/disping_routines.asm:315-363 | nothing happens for a null pointer or no bytes; otherwise an unknown instruction is met if and only if the processor lacks AVX, and else the first store traps if and only if the destination is misaligned and the size at least 32; what memory holds then, in each case; without a trap it is as after copying chunk by chunk, which is a copy unless the destination starts inside the source block |
| MemoryKernels.CopyIsExactIff | src/asm/disping_routines.asm:323-357 | whatever the blocks hold, the chunks amount to a copy if and only if the destination does not start inside the source block, or the size is 32 or 128 |
| Dispatch.DispatchTable.InitDispatchTable | src/disping_asm_dispatch.cpp:13-34 | all three pointers are set, the vector clearing and the serialised counter read only on processors that have them, on which the entry points rely |
| Dispatch.DispatchTable.ChecksumAuto | src/disping_asm_dispatch.cpp:48-51 | the result depends on the bytes alone; an unset table is filled first, a filled one is left alone |
| Dispatch.DispatchTable.MemzeroAuto | src/disping_asm_dispatch.cpp:53-56 | on every processor the block is cleared and no unknown instruction is met, whether or not the table was ready |
| Dispatch.DispatchTable.ReadTscAuto | src/disping_asm_dispatch.cpp:58-61 | on every processor the counter is read whole and no unknown instruction is met |
| Dispatch.DispatchIsTransparent | src/disping_asm_dispatch.cpp:13-56 | any two processors return the same checksum and leave the same memory, and neither meets an unknown instruction |
| UdpRelay.UdpProxy.constructor | include/udp_proxy.hpp:11-38 | a new proxy is idle and its accounts are those of no rounds |
| UdpRelay.UdpProxy.Start | src/udp_proxy.cpp:34-49 | refused without any change while active; with a thread that was never joined the process ends; otherwise active with a thread and fresh counters |
| RelayLifecycle.CrashesIff | src/udp_proxy.cpp:49-82 | a run that is over has overwritten or destroyed a joinable thread if and only if a worker ended by itself with no Stop waiting for it; otherwise no thread is left |
| RelayLifecycle.CrashHappens | src/udp_proxy.cpp:17-55 | a run that crashes: Start, a worker that gets no socket, destruction |
| RelayLifecycle.NextCallCrashesIff | src/udp_proxy.cpp:17-55 | between calls a worker has ended by itself if and only if the flag is down and its thread was never joined; then Stop does nothing; with the flag down, Start and destruction crash if and only if there is such a thread |
| RelayLifecycle.StartStarts | src/udp_proxy.cpp:40-49 | Start on an idle object without a thread raises the flag and launches a worker |
| RelayLifecycle.ActiveStays | src/udp_proxy.cpp:40-44 | while active Start changes nothing, and a worker that has its socket goes on as long as the flag is up |
| RelayLifecycle.StopStops | src/udp_proxy.cpp:21-28 | Stop on a running relay begins, and in every interleaving with the worker ends with the flag down and the worker ended and joined |
| RelayLifecycle.DestroyDestroys | src/udp_proxy.cpp:17-19 | destruction never returns to the caller, always has a next step, and when done leaves no thread unless it crashed |
| RelayLifecycle.StopTerminates | src/udp_proxy.cpp:21-28 | while Stop waits only the worker moves, at most twice, and then the join goes through |
| UdpRelay.UdpProxy.Relay | src/udp_proxy.cpp:95-126 | over every run: an unknown instruction ends the process if and only if the processor lacks AVX2 and some datagram is not empty; otherwise the payloads sent are the non-empty datagrams received, in order, counters and average are those of the successful sends, the packet buffer is zero as far as any datagram reached, and memory outside the two buffers is unchanged; before the end nothing is sent, or with AVX the first datagram |
| UdpRelay.UdpProxy.Forward | src/udp_proxy.cpp:101-125 | one round: whatever stale bytes both buffers hold, the payload is the datagram and what was received is cleared again; no store is misaligned; without AVX the round ends before the sending, without AVX2 after it |
| UdpRelay.UdpProxy.Account | src/udp_proxy.cpp:117-121 | a successful send moves the 64-bit counters and the average to those of one more round |
| UdpRelay.AverageBounds | src/udp_proxy.cpp:120 | the average lies between 0 and the slowest successful send, strictly below it unless all took no time |
| UdpRelay.SlowestIs | src/udp_proxy.cpp:117-121 | the bound is the latency of a successful send, and none took longer |
| UdpRelay.AverageConverges | src/udp_proxy.cpp:120 | a stretch of n equal latencies leaves 0.95^n of the distance to that latency |
| UdpRelay.CountsAgree | src/udp_proxy.cpp:104-125 | packets counted are at most bytes counted, bytes at most those of the payloads, packets at most payloads |
| PingStats.CalcPingStats | src/asm/disping_routines.asm:409-491 | one pass over the list in memory writes its minimum, maximum, mean and mean squared deviation where the result pointers point, skipping null ones; nothing for a null or empty list |
| PingStats.OnePass | src/asm/disping_routines.asm:424-480 | Min, Max, Sum and SumSq yield minimum, maximum, mean and mean squared deviation; the clamp of the variance never acts |
| PingStats.ScalarStats | src/benchmark_runner.cpp:139-154 | the four passes with their starting values 9999 and 0 |
| PingStats.VarianceIdentity | src/asm/disping_routines.asm:472-476 | mean of squares less square of mean is the mean squared deviation |
| PingStats.VarianceBounds | src/asm/disping_routines.asm:424-485 | min <= mean <= max, and the variance is between 0 and (max - mean)(mean - min) |
| PingStats.ExtremesAre | src/asm/disping_routines.asm:424-450 | the running extremes bound the starting value and all others and are attained |
| PingStats.PassesAgreeIff | src/benchmark_runner.cpp:139-154 | the two sets of statistics are equal if and only if some value is at most 9999 and some is at least 0 |
| PingMonitor.RunContinuousMonitor | src/ping_monitor.cpp:78-141 | every record shown to the callback, and the final one, is the batch statistics of the probes so far, wherever the run is stopped; without a reply the minimum is reported as 0 |
| PingMonitor.Session.Probe | src/ping_monitor.cpp:95-127 | one loop body keeps counters, lists, summary, jitter and previous reply equal to those of the list of probes |
| PingMonitor.BatchInvariants | src/ping_monitor.cpp:95-134 | sent = received + lost = length of history; loss rate times sent is 100 times lost, a percentage; 0 <= jitter <= max - min and min <= mean <= max once a reply has arrived, the initial values before |
| PingMonitor.HistoryKeepsValid | src/ping_monitor.cpp:102-123 | the replies are the history without its loss markers |
| PingMonitor.JitterBounds | src/asm/disping_routines.asm:498-503 | the jitter of values within an interval lies between 0 and its length |
| PingMonitor.JitterConverges | src/asm/disping_routines.asm:498-503 | after any replies, n more that are each d from the one before leave (15/16)^n of the distance of the jitter to d |
| PingMonitor.JitterIs | src/asm/disping_routines.asm:498-503 | for n + 1 replies each d from the one before the jitter is d - d (15/16)^n |
| PingMonitor.JitterZeroIff | src/asm/disping_routines.asm:498-503 | the jitter is zero if and only if all consecutive replies were equal |
| Sparkline.GenerateSparkline | src/ping_monitor.cpp:163-208 | empty history, history of losses only, otherwise min(size, width) characters, each the glyph of its sample; every width, also negative |
| Sparkline.Draw | src/ping_monitor.cpp:189-205 | the drawing loop with its clamps produces the unclamped glyphs |
| Sparkline.LevelLaws | src/ping_monitor.cpp:180-203 | levels lie in 0..6 without the clamps, the minimum has level 0, and level 6 is exactly the maximum unless the range is below 0.001 |
| Sparkline.LevelIs | src/ping_monitor.cpp:180-203 | the level is the height above the minimum in sixths of the range, rounded down |
| Sparkline.LevelMonotone | src/ping_monitor.cpp:200-203 | a slower reply never has a lower level |
| Sparkline.ReadingTheGraph | src/ping_monitor.cpp:178-205 | 'X' exactly at losses, marks ordered as the replies, each mark telling the height of its reply to a sixth of the range, '_' at a shown minimum, '#' exactly at the maxima unless the history is flat |
| MtuOptimizer.DiscoverOptimalMtu | src/mtu_optimizer.cpp:71-120 | a fixed limit P >= 1200 is measured as min(P,1472)+28 and never "could not converge"; with any network at most 11 probes, a reported size was itself answered, nothing larger was, the note says why, MSS = MTU - 40; if probes can be lost but never pass wrongly, the reported size fits the path, and a limit P of 1200 to 1471 is reported as P+28 if and only if no probe that fits was lost |
| MtuOptimizer.SearchStep | src/mtu_optimizer.cpp:97-105 | each halving keeps the search invariant and its probe budget, whatever the network answers |
| MtuOptimizer.LossStep | src/mtu_optimizer.cpp:97-105 | a halving keeps the limit in the search interval until a probe that fits is lost, and above it from then on |
| TimerDaemon.StepKeepsInv | src/system_latency_optimizer.cpp:42-97 | every step of either thread, in any interleaving and whether a request is granted natively, by the fallback or not at all, keeps the invariant, if RestoreTimerResolution is not called while the daemon is running |
| TimerDaemon.ReachableInv | src/system_latency_optimizer.cpp:204-226 | so it holds after every such run |
| TimerDaemon.FlagAgreesBetweenCalls | src/system_latency_optimizer.cpp:204-226 | between calls the running flag equals the thread being joinable, and no joinable thread is ever overwritten or destroyed |
| TimerDaemon.TimerStaysLocked | src/system_latency_optimizer.cpp:210-216 | once the daemon's request is granted natively and until it gives it up, which it does only while Stop waits, the last native call is a request |
| TimerDaemon.HeldUntilStop | src/system_latency_optimizer.cpp:81-97 | a request granted natively to either thread is given up only by the daemon while Stop waits for it or by RestoreTimerResolution |
| TimerLaws.RestoreUnlocksIff | src/system_latency_optimizer.cpp:81-97 | called beside the daemon, RestoreTimerResolution takes the timer away from it if and only if the daemon holds a native request and the flag is set |
| TimerLaws.RestoreCanLeak | src/system_latency_optimizer.cpp:81-97 | a run in which the daemon interrupts such a call, after which Stop returns with the request of the daemon outstanding |
| TimerDaemon.StopReleases | src/system_latency_optimizer.cpp:204-226 | when Stop on a running daemon returns, even one that had not yet made its first step, no native request is outstanding (the last native call, if any, is a release) and the flag is clear |
| TimerLaws.StartStarts | src/system_latency_optimizer.cpp:204-217 | Start on an idle object without a daemon raises the flag and launches one |
| TimerLaws.StopStops | src/system_latency_optimizer.cpp:219-226 | Stop on a running daemon begins, and in every interleaving with the daemon ends with the daemon ended and joined, both flags down and no native request outstanding |
| TimerLaws.SetSets | src/system_latency_optimizer.cpp:42-79 | a granted request, native or by the fallback, is made once, sets the flag and, natively, the units; a denied one changes nothing |
| TimerLaws.DaemonSets | src/system_latency_optimizer.cpp:210-211 | so does a request of the daemon |
| TimerLaws.RestoreRestores | src/system_latency_optimizer.cpp:81-97 | with the flag set the recorded units are released natively, the period is ended and the flag cleared; otherwise nothing happens |
| TimerLaws.DaemonRestores | src/system_latency_optimizer.cpp:81-97 | so does the daemon at its end |
| TimerLaws.NothingRestoredFirst | src/system_latency_optimizer.cpp:81-97 | on a new object nothing is released, and units other than none are recorded only for a request that was made |
| TimerLaws.DestroyDestroys | src/system_latency_optimizer.cpp:21-24 | destruction never returns to the caller, always has a next step, and when done leaves no thread and no request |
| TimerLaws.ReleaseCarriesRequest | src/system_latency_optimizer.cpp:54-86 | whoever gives up an outstanding native request does so with the units of a request that was made |
| TimerLaws.ReleaseIsTheGrant | src/system_latency_optimizer.cpp:54-86 | without other requests the daemon releases exactly the units it was granted |
| TimerDaemon.DestructorReleases | src/system_latency_optimizer.cpp:21-24 | after destruction no thread is left and no request outstanding |
| TimerDaemon.StopTerminates | src/system_latency_optimizer.cpp:210-226 | while Stop waits only the daemon can move, each of its at most nine moves brings it closer to its end, and then the join goes through |
| DnsQuery.BuildQuery | src/dns_optimizer.cpp:32-61 | the packet is header, encoded name, type and class, for every byte string |
| DnsQuery.WireShape | src/dns_optimizer.cpp:42-56 | the name is the domain moved up by one, each dot and the new first place holding the length of the next label modulo 256 |
| DnsQuery.QNameLength | src/dns_optimizer.cpp:42-56 | it has the length of the domain plus 2 and ends with the root label |
| DnsQuery.LabelsJoin | src/dns_optimizer.cpp:44-55 | the labels contain no dot and joined with dots give the domain |
| DnsQuery.RoundTripIff | src/dns_optimizer.cpp:42-56 | decoding by sections 3.1 and 4.1.2 of RFC 1035, with their limits of 63 bytes for a label and 255 for a name, gives the labels back and leaves what follows, if and only if all labels have 1 to 63 bytes and the domain at most 253 |
| DnsQuery.DecodeIff | src/dns_optimizer.cpp:42-56 | the decoder succeeds if and only if the bytes are an encoding of legal labels followed by the rest, and returns both |
| DnsQuery.QueryReadsIff | src/dns_optimizer.cpp:32-61 | the packet reads, by sections 4.1.1 and 4.1.2 of RFC 1035, as a standard query number 0x1234 with recursion desired, one question for the A records of the domain in class IN and no other records, if and only if the domain has a legal name |
| DnsQuery.QNameInjective | src/dns_optimizer.cpp:42-56 | different domains have different encodings if no label is longer than 255, empty labels included |
| DnsQuery.QNameInjectiveIff | src/dns_optimizer.cpp:42-56 | for labels up to a given limit the encoding is one to one if and only if the limit is at most 255 |
| HardwareDetector.WalkRecords | src/hardware_detector.cpp:137-158 | the loop counts both kinds of cores and unites the masks of the performance cores |
| HardwareDetector.CoresAreCounted | src/hardware_detector.cpp:140-160 | the two counts add up to the number of core records |
| HardwareDetector.DetectTopology | src/hardware_detector.cpp:125-192 | P and E counts add up to the physical count in every branch; that is the number of core records if there are any, half the logical processors if not, one without an answer; when the part is hybrid and its P and E counts; which mask is chosen |
| HardwareDetector.PThreadsAre | src/hardware_detector.cpp:150-152 | a processor is in the united mask if and only if some performance core has it |
| HardwareDetector.CountsSplit | src/hardware_detector.cpp:140-158 | the two counts cover all records if and only if all describe cores |
| HardwareDetector.HybridMask | src/hardware_detector.cpp:202-209 | for all records a subset of the performance threads, non-empty if and only if some performance core has a thread; threads 0 and 1 are used if and only if they are performance threads and there are fewer than 8 processors or no other performance thread; no other thread is given up |
| HardwareDetector.UniformThreads | src/hardware_detector.cpp:213-239 | exactly which threads the other branches choose |
| HardwareDetector.UniformMask | src/hardware_detector.cpp:213-239 | the mask is empty if and only if there is no processor, and names existing processors only |
| HardwareDetector.NoPerformanceCores | src/hardware_detector.cpp:202-239 | without performance cores neither the hybrid flag nor the mask found matters |
| VdfText.MatchIsTokenMatch | src/platform_healer.cpp:191-224 | on text of quoted words, white space and braces, each regular expression matches as many characters as the tokens it should match |
| VdfText.SameIff | src/platform_healer.cpp:192 | ignoring case is to take letters whose codes differ by 32 as equal, and nothing else |
| VdfText.SearchIsTokenSearch | src/platform_healer.cpp:194 | the first match in the text is the first matching token: none begins inside a quoted word or at a closing quote |
| VdfText.ReplaceIsTokenReplace | src/platform_healer.cpp:202 | replacing all matches in the text replaces all matching tokens |
| LoginUsers.EditField | src/platform_healer.cpp:201-215 | one of the three edits: on the text of a well-formed user block the result is the text of the block with the field of its record set, again well formed |
| LoginUsers.SetFieldIsSetUser | src/platform_healer.cpp:201-215 | an edit of the text of a block is an update of its record |
| LoginUsers.RepairBlockIsRepairUser | src/platform_healer.cpp:201-215 | the three edits together, and the block stays well formed |
| LoginUsersRepair.TextSearch | src/platform_healer.cpp:191-195 | the account search finds the first matching entry of the first matching user |
| LoginUsersRepair.BlockFoundIff | src/platform_healer.cpp:195-197 | the braces found around the match are those of the user's block if and only if no entry before it has an opening brace and neither it nor a later one a closing brace |
| LoginUsersRepair.AroundBlock | src/platform_healer.cpp:196-217 | if the entry is enclosed, the block of its user is edited in place and nothing else |
| LoginUsersRepair.RepairNamedIs | src/platform_healer.cpp:190-219 | with a user name whose entry is enclosed, editing the text is updating the record of that user |
| LoginUsersRepair.RepairUnnamedIs | src/platform_healer.cpp:220-225 | without one, the first "0" entry is marked if no entry is marked in either spelling looked for |
| LoginUsersLaws.MarkFileMarks | src/platform_healer.cpp:220-225 | if no entry is "MostRecent" "1" after two tabs or one blank, the first "MostRecent" "0" becomes "1" after two tabs, and nothing else changes |
| LoginUsersLaws.MarkFileKeeps | src/platform_healer.cpp:220-225 | if one is, or no entry says "0", nothing changes |
| LoginUsersLaws.AccountMatchesIff | src/platform_healer.cpp:191-194 | an entry is the account looked for if and only if its key is AccountName and its value the user name, but for the case of letters |
| LoginUsersLaws.CaseMakesNoDifference | src/platform_healer.cpp:191-194 | user names that differ only in the case of letters give the same text, whatever the file |
| LoginUsersLaws.RepairIsRecordUpdate | src/platform_healer.cpp:190-226 | for every well-formed file and every user name, its entry being enclosed, the repaired text is the text of the updated records, again well formed |
| LoginUsersLaws.BraceInName | src/platform_healer.cpp:196-197 | a file on which the block found is cut short: a closing brace in the name after the account |
| LoginUsersLaws.RepairUserSets | src/platform_healer.cpp:201-215 | MostRecent and RememberPassword are present and "1", WantsOfflineMode "0" if it was present, each missing field added once, nothing else changed |
| LoginUsersLaws.OnlyTheBlockChanges | src/platform_healer.cpp:195-217 | the text before and after the block of the user is unchanged |
| LoginUsersLaws.RepairAgain | src/platform_healer.cpp:190-226 | repairing a repaired file changes nothing |
| LoginUsersLaws.RepairLoginUsersVdf | src/platform_healer.cpp:185-226 | false for an empty file; the text of a well-formed file is written back as the text of its updated records, and repairing that again leaves it as it is |

## Left out

- Spin waits, the decoding of CPUID, whether the operating system enables the vector registers, fences and cache effects: no functional result.
- Rounding, infinities and NaN of doubles: the statistics, jitter, average and graph are over the reals, and the standard deviation is represented by its square.
- PingStats.CalcPingStats: stores the variance where the program stores its square root.
- InternetChecksum.ScalarChecksum16: reads a whole array instead of a pointer and a length.
- UdpRelay.UdpProxy.Start: does not model the sockets the worker opens; that they can fail is part of RelayLifecycle. The run of the worker is a list of rounds cut off anywhere.
- RelayLifecycle.CrashesIff: the flag and the thread are a value stepped by two threads, not fields of the class, because the steps interleave.
- PingMonitor.RunContinuousMonitor: does not model the sleep between probes; a stop request takes effect before some probe.
- TimerDaemon.StepKeepsInv: the object's fields are a value stepped by two threads, not a class, because the steps interleave; the fields are read and written in one order (sequential consistency), and a native release succeeds. Calls of timeBeginPeriod and timeEndPeriod are recorded, but not said to pair, which the code does not see to.
- DnsQuery.BuildQuery: does not model sending, the reply and its timing.
- HardwareDetector.DetectTopology: masks are naturals below 2^64 and the or of two masks is defined on them; processor groups beyond the first, CPUID decoding and the memory size are left out.
- LoginUsersLaws.RepairLoginUsersVdf: does not model user names with characters that mean something in a regular expression, finding the file, or failures to read or write it.
- Files that are not well formed (nested blocks, quotes in values, a value spelled like a searched key): the editing is modelled for all texts, the record update only for well-formed ones.
- Ranking of DNS servers, applying MTU and DNS settings, and the registry, service, adapter, process and user-interface modules: foreign calls with little logic of their own.
