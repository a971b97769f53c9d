# Failure lab: a verified model of its engines

The failure lab is a C program whose screen sits on top of a handful of small stateful engines: an
arena with redzones, a pipe of fixed-size event records feeding a bounded table, a chaos proxy that
drops and fragments a byte stream, a wrapper around file writes with quotas, a random generator, and
scenarios that provoke races, deadlocks and pile-ups. This project models those engines in Dafny and
proves what each of them means, for every input, every schedule and every behaviour POSIX allows the
kernel.

How it is laid out, one module per file:

- `Basics`, `Bytes`: sequences, bytes, little-endian words, C strings, in-place stores.
- `Blocks`, `Arena` (module `ArenaModel`), `ArenaBytes`: the red-zoned arena. `Blocks` gives byte images
  their meaning as block lists; the class `Arena` is the C code over one byte array, proved to refine
  it; `ArenaBytes` says what that comes to on the raw bytes, with every number written out.
- `Wire`, `Runner`, `Crash`, `Stats`: the event pipe from the emitting threads to the stats table,
  and the record a dying child leaves.
- `Proxy`, `Messages`, `SplitBrain`, `Cascade`: the chaos proxy, what it does to messages, and two
  scenarios on top of it.
- `ChaosIo`, `WriteLoops`: the file wrapper as it runs and the two write loops over it.
  `SlotProtocol`, `QuotaProtocol`: the same wrapper under many threads, lock section by lock section.
- `Race`, `Deadlock`, `Herd`: three scenarios as interleaving models, for any number of threads.
- `Rand`: xoshiro256** and splitmix64 on 64-bit words.
- `Json`, `Overlay`, `LogRing`: escaping, text wrapping and the log ring of the front ends.

Code that updates state in place is a class or a method with loops, proved against functions on
values; the theorems are lemmas about those functions. The kernel appears as methods that may do
anything POSIX lets them (short reads, interrupted calls, partial writes, errors); schedules, clock
ticks and knob changes are arbitrary.

Where the code and the text around it disagree, the model follows the code:

- The header check of `pg_run_poll` is said to catch every misalignment
  (src/core/runner.c:297-299), and a cut crash record to be skipped up to the next 256-byte boundary
  (src/core/runner.c:180-181, include/playground/event.h:5-6). There is no resynchronisation. A record
  cut at the end of the stream ends the run as damage (`Crash.CrashSeen`). When whole records follow
  the cut, the run never reaches a clean end of file either, but it may first deliver records read
  out of step: none exactly when 1 or 2 bytes of the cut record were written, at least one otherwise,
  and it even finishes normally if one of them reads as DONE (`Wire.CutThenWhole`). What is delivered
  out of step need not be a record anybody emitted (`Wire.UnemittedRecord`), though it may by chance be
  the cut record itself (`Wire.AcceptedOutOfStep`). After several cuts even a clean end of file is
  possible: exactly when the bytes add up to whole records and every stretch read has a good header and
  does not say DONE (`Wire.CutsUnnoticedIff`, `Wire.TwoCuts`).
- Delays are promised uniform in the closed interval [min, max] (include/playground/chaos_net.h:8).
  They stay in it exactly when min <= max; otherwise every delay is min, above the maximum, or 0, below
  the minimum, when max is 0 (`Proxy.DelayWithinIff`). The upper end is drawn only if max is 0 or equals
  min (`Proxy.DelayTopIff`), and the draw is uniform below it exactly when max - min divides 2^64
  (`Proxy.DelayUniformIff`).
- Knob changes are promised for the next chunk (include/playground/chaos_net.h:25-26). A forwarder
  takes one snapshot per read, so as long as writes take all they are offered the promise is kept
  exactly when every chunk limit ever stored is off or at least the 4096-byte buffer
  (`Proxy.PromptIff`); with partial writes no chunk limit guarantees it (`Proxy.NeverPromptIfPartial`).
  A change in the middle of a read is ignored by the rest of it (`Proxy.IgnoredChange`), in force from
  the next read on (`Proxy.EffectiveNextRead`), and so ignored for 4096 bytes at most
  (`Proxy.IgnoredBriefly`).
- `split_brain.c` speaks of what a replica hears from its peer; as the descriptors are wired at
  src/scenarios/compound/split_brain.c:90-91, it hears only itself, whatever the other replica does
  (`SplitBrain.HearsItself`).
- The log pane shows the last lines pushed, for every history, exactly when it is no taller than the
  ring or the ring is not yet full (`LogRing.DrawnIsLastIff`).
- docs/ARCHITECTURE.md describes an older record layout and an event kind `PG_EV_FAULT` that the
  program no longer has.

## Model

| member | source | states |
|---|---|---|
| Blocks.WalkOfImage | src/chaos/chaos_mem.c:98-124 | The header walk from offset 0 reads the bytes of any block list back as exactly that list (sizes, live or freed, redzones, contents) and stops exactly at `used`, whatever lies beyond. |
| Blocks.WalkPast | src/chaos/chaos_mem.c:104-122 | The walk passes over a run of intact blocks and goes on with whatever bytes follow them, intact or not. |
| Blocks.Layout | src/chaos/chaos_mem.c:9-12 | Blocks tile the arena with no gap or overlap, and every header and user pointer is 8-aligned. |
| Blocks.BlockTotal | src/chaos/chaos_mem.c:32-36 | A block's extent is its header, two redzones and the rounded size, a multiple of 8, at least 40. |
| Blocks.UpdateImage | src/chaos/chaos_mem.c:83-96 | Replacing one block by another of its size changes only that block's bytes and moves nothing. |
| Blocks.ApplyKeeps | src/chaos/chaos_mem.c:60-96 | One alloc, free or in-bounds write keeps the arena within its mapping, keeps intact redzones intact, moves no block and revives none. |
| Blocks.RunKeeps | src/chaos/chaos_mem.c:60-124 | Over every run of allocs, frees and in-bounds writes (also through freed pointers): no redzone is ever damaged, so a check counts 0; user pointers keep their place; freed stays freed. |
| Blocks.CleanIsZero | src/chaos/chaos_mem.c:115-120 | The count is 0 exactly when no redzone holds a byte other than 0xCD; which bytes those are is `ArenaBytes.ScanCounts`. |
| Blocks.FilledHeaderWrecked | src/chaos/chaos_mem.c:105-108 | A memset reaching a header destroys its magic, except when it touches one byte only and writes the value already there. |
| Blocks.MemsetVerdict | src/chaos/chaos_mem.c:98-124 | After memset(p, v, len) from any block of an intact arena, a check answers 0 inside the rounded size, 1 once the post-redzone is touched (0 if v is 0xCD itself), -1 once the next header's magic changes: the exact answer for every len and v. |
| ArenaModel.RefinementIsTheWalk | src/chaos/chaos_mem.c:9-12 | The bytes alone determine the block list: whenever they refine a list, walking them yields it and a scan counts exactly its damaged redzones. |
| ArenaModel.Arena.constructor | src/chaos/chaos_mem.c:47-51 | A new arena is the empty list over zeroed bytes. |
| ArenaModel.Arena.Alloc | src/chaos/chaos_mem.c:60-81 | NULL exactly when the block would not fit, and then nothing changes; otherwise the list grows by one live block over the bytes that were there, its user pointer is returned and every earlier byte is unchanged. |
| ArenaModel.BumpAllocates | src/chaos/chaos_mem.c:65-80 | Bytes laid down at `used` refine the old list with the new block at its end. |
| ArenaModel.Arena.Free | src/chaos/chaos_mem.c:83-96 | Returns 0 exactly for the pointer of a live block, which becomes freed and has exactly `size` bytes poisoned; any other pointer (NULL, outside, freed, wild) gets -1 and changes no byte. |
| ArenaModel.FreedBytes | src/chaos/chaos_mem.c:92-94 | Flipping the magic and poisoning, on the bytes, is freeing that block in the list and nothing else. |
| ArenaModel.OnlyOne | src/chaos/chaos_mem.c:9-12 | No two blocks share a user pointer. |
| ArenaModel.Arena.UserWrite | src/chaos/chaos_mem.c:9-12 | A store inside a block's requested size changes those bytes of the mapping, so that block's contents, and nothing else. |
| ArenaModel.Arena.Check | src/chaos/chaos_mem.c:98-124 | On any bytes it can walk, damaged or not: 0 without the redzone flag, -1 at the first bad magic, otherwise the number of redzones holding, anywhere in their 16 bytes, a byte other than 0xCD. |
| ArenaModel.ScanStep | src/chaos/chaos_mem.c:104-122 | One turn of the scan accounts for one block's two redzones and leaves the rest of the walk. |
| ArenaModel.Create | src/chaos/chaos_mem.c:38-52 | Under 4096 bytes or out of memory: NULL; otherwise an empty arena of that size. |
| ArenaModel.FreedForever | src/chaos/chaos_mem.c:89 | A freed block's pointer still denotes that freed block, and no other, after any further run, so free refuses it for ever. |
| ArenaModel.ArenaCorrupt | src/scenarios/memory/arena_corrupt.c:8-20 | The scenario for any sizes and byte: a store from the block's start is reported as one corrupt redzone exactly when it leaves the rounded size and does not write 0xCD (tests/golden/arena_corrupt.jsonl:5). |
| ArenaModel.DoubleFree | src/scenarios/memory/double_free.c:7-22 | The scenario for any size: the first free succeeds and the second is caught. |
| ArenaBytes.HeaderInNumbers | src/chaos/chaos_mem.c:65-80 | On the raw bytes: a block starts with AA 11 1A A1 when live and ED FE ED FE when freed, then its size, little-endian; its user area is 24 bytes on. |
| ArenaBytes.AllocatedInNumbers | src/chaos/chaos_mem.c:60-81 | After an alloc, byte by byte: the live header, 0xCD in the 16 bytes on either side of the rounded area if redzones are on, every other byte of the mapping as it was. |
| ArenaBytes.FreedInNumbers | src/chaos/chaos_mem.c:83-96 | After a free, byte by byte: the freed magic, 0xDE in exactly the `size` bytes asked for, every other byte (slack and redzones included) as it was. |
| ArenaBytes.ScanCounts | src/chaos/chaos_mem.c:98-124 | On the raw bytes: a scan answers the number of (block, side) pairs for which some k of the 16 bytes there is not 0xCD. |
| ArenaBytes.StrayStore | src/chaos/chaos_mem.c:115-120 | In an arena of any blocks with intact redzones, one byte other than 0xCD at any place of any redzone makes the next scan answer 1. |
| ArenaBytes.StrayByte | src/chaos/chaos_mem.c:98-124 | The same through create, alloc, one store and check: 1 for every block size, side, place and byte but 0xCD. |
| ArenaBytes.UseAfterFree | src/scenarios/memory/uaf_callback.c:15-43 | The scenario for any sizes and secret: what is read through the dangling pointer is 57054 (tests/golden/uaf_callback.jsonl:7), whatever was stored. |
| Rand.UnstepStep | src/core/rand.c:21-33 | A draw loses no state: it has a left inverse. |
| Rand.StepUnstep | src/core/rand.c:21-33 | Every state is some draw's successor: the inverse works on the other side too, so the step is a bijection. |
| Rand.UnshiftUndoes | src/core/rand.c:23-29 | x ^ (x << 17) is a bijection on words, with explicit inverse. |
| Rand.ScrambleInvertible | src/core/rand.c:22 | The output scrambler is injective: a draw reveals exactly the second state word. |
| Rand.FinaliseIsBijection | src/core/rand.c:9-11 | splitmix64's finaliser is a bijection on words. |
| Rand.FinaliseZero | src/core/rand.c:9-11 | It yields 0 only from 0. |
| Rand.SeedWordsDistinct | src/core/rand.c:14-19 | Every seed gives four different words, so at most one zero word. |
| Rand.SeedingInjective | src/core/rand.c:14-19 | Two seeds give the same state exactly when they are equal or are 0 and 0xDEADBEEFDEADBEEF. |
| Rand.StepZero | src/core/rand.c:21-33 | Only the all-zero state leads to the all-zero state. |
| Rand.SeedNeverStuck | src/core/rand.c:14-33 | From no seed, after no number of draws, is the all-zero state reached. |
| Rand.DrawsAppend | src/core/rand.c:21-33 | m + n draws are m draws followed by n draws from the state reached. |
| Rand.KnownDraws | src/core/rand.c:21-33 | From the state 1, 2, 3, 4 the first draws are 11520, 0, 1509978240 and 1215971899390074240: which word is scrambled, and every shift and constant of the step. |
| Rand.KnownFinalised | src/core/rand.c:9-11 | The first counter from 0 finalises to 0xE220A8397B1DCDAF: every shift and constant of the finaliser. |
| Rand.SeedOrder | src/core/rand.c:14-19 | The four words are, in this order, the finalised first to fourth multiples of the gamma above the seed. |
| Rand.SplitMix64 | src/core/rand.c:7-12 | Advances the counter by the golden gamma and returns its finalisation. |
| Rand.Xosh.Seed | src/core/rand.c:14-19 | The loop fills the words with four successive splitmix64 outputs, 0 standing for the default seed. |
| Rand.Xosh.Next | src/core/rand.c:21-33 | The in-place updates, in the code's order, amount to the invertible step, and the word returned is the old state's. |
| Wire.DecodeEncode | include/playground/event.h:44-58 | Every event survives the 256-byte record unchanged, padding included, and passes the header check. |
| Wire.EncodeDecode | include/playground/event.h:44-58 | Every record with a good header is the record of the event it decodes to: the layout has no holes. |
| Wire.EncodedFields | include/playground/event.h:44-58 | Where each field lies in the 256 bytes, and in which width. |
| Wire.HeaderInBytes | src/core/runner.c:297-306 | A record is accepted exactly when it starts with E7 E5 01, and the kinds the parent tests for are the words 1, 2, 4, 5 and 7. |
| Wire.DeliverPast | src/core/runner.c:272-308 | Whole records come out as they went in, whatever bytes follow them. |
| Wire.DeliverStream | src/core/runner.c:272-308 | Repeated polling of whole records returns exactly the records, then 0; with a cut record at the end, every whole record and then -1. |
| Wire.DeliverToDone | src/tui/tui.c:465-495 | Reading ends with the first DONE, whatever follows. |
| Wire.ShortWriteSeen | src/core/runner.c:297-306 | At the poll right after the first k bytes of a record, with a whole record following, the header check fires exactly for k = 1 and k = 2. |
| Wire.TornDelivered | src/core/runner.c:272-308 | Whole records read out of step come out as the 256-byte stretches that straddle them, up to the first bad header or DONE. |
| Wire.CutThenWhole | src/core/runner.c:282-307 | The whole run after a k-byte cut and any whole records: never a clean end of file; finished exactly when some record read out of step says DONE, damage otherwise; nothing read out of step is delivered exactly when nothing follows or k is 1 or 2. |
| Wire.CleanEndIff | src/core/runner.c:272-308 | Any bytes at all end in a clean end of file exactly when they are whole 256-byte stretches, each with a good header and none saying DONE. |
| Wire.CutsUnnoticedIff | src/core/runner.c:282-307 | The same for any list of whole and cut records: the exact condition under which the damage is never noticed. |
| Wire.TwoCuts | src/core/runner.c:282-307 | k bytes of one record and 256 - k of the next: nothing and damage for k of 1 or 2; otherwise one record, and a clean end unless it says DONE. |
| Wire.AcceptedOutOfStep | src/core/runner.c:297-306 | From k = 3 on the first record read out of step is accepted, and it is the cut record itself exactly when the missing bytes are those the next record starts with. |
| Wire.UnemittedRecord | src/core/runner.c:297-306 | A concrete stream from which a record that nobody emitted is delivered before the damage is noticed. |
| Wire.ProgramOrder | src/core/runner.c:57-81 | Under every schedule of atomic writes, each thread's events are in the pipe in its program order, none lost and none twice. |
| Wire.EmittedCount | src/core/runner.c:57-81 | A thread has emitted as many events as the schedule gave it turns, as far as it has any. |
| Wire.WireFidelity | src/core/runner.c:57-81 | From any number of threads to the parent: every interleaving of whole-record writes is delivered exactly in pipe order, each thread's events in program order and as many as it had turns for, ending with EOF just when nothing was cut. |
| Stats.RecordReports | src/tui/tui.c:101-124 | One more call keeps the table a faithful report: sums for counters, the last value otherwise, exact minimum and maximum for gauges, for the first 64 pairs to appear. |
| Stats.RecordAllReports | src/tui/tui.c:101-124 | For every list of calls the table is that report, pairs beyond the 64th ignored. |
| Stats.StatsTable.Upsert | src/tui/tui.c:101-124 | The search-or-append loop over the array, stale rows and all, is the specification's upsert. |
| Stats.StatsTable.Clear | src/tui/tui.c:99 | Leaves no rows, whatever the array still holds. |
| Runner.Emit | src/core/runner.c:57-81 | Through interruptions and splits, a record goes out whole and once, unless the pipe breaks, which it does only if the reader goes; with atomic writes no fragment is left even then. |
| Runner.EmitAll | src/core/runner.c:57-81 | The threads' calls in the order of any schedule: with atomic writes, unless the pipe breaks, it holds exactly the stamped records in that order. |
| Runner.StampedCarries | src/core/runner.c:60-66 | Stamping changes nothing of what a keyed record carries. |
| Runner.StampMeans | src/core/runner.c:60-66 | What the stamps mean: the time since the scenario started unless the caller gave one; the first tag that is not 0 of the event's, the thread's and the context's; the rest untouched. |
| Runner.KeyStored | src/core/runner.c:98-102 | The 32-byte field keeps exactly the first 31 bytes of a key, all of a shorter one. |
| Runner.SameFieldIff | src/core/runner.c:98-102 | Two keys share a field exactly when their first 31 bytes agree. |
| Runner.RowsApart | src/core/runner.c:98-107 | Requests of different kinds, or with different keys of at most 31 bytes, get different rows of the table (last_peer_count_r1 and last_peer_count_r2, src/scenarios/compound/split_brain.c:113-114). |
| Runner.Poll | src/core/runner.c:272-308 | Through any fragmentation and interruption: exactly the next 256 bytes, 1 or -1 by their header; 0 at end of file on a boundary; -1 inside a record; -2 on timeout with nothing read. |
| Runner.KvCarries | src/core/runner.c:98-107 | What the four keyed helpers emit carries the kind (1, 2, 4 or 5), the value and the key's field, `Runner.KeyStored`. |
| Runner.LineCarries | src/core/runner.c:83-113 | What pg_logf, pg_phase and pg_sut_fault emit is no call. |
| Runner.RunScenario | src/tui/tui.c:444-495 | The parent's loop, through silent turns, an abort key and failures of either poll: it handles a prefix of the delivered events, all of them and with the right end unless its own polls or reads fail (never, if the kernel fails none); the table reports exactly their calls, and the log pane is what a ring holds after one line for each, one for the start and at most one for an abort. |
| Runner.HandleEvent | src/tui/tui.c:480-488 | One record read becomes one line of the pane and, if keyed, one call in the table. |
| Runner.RequestedArrive | src/core/runner.c:98-107 | The calls the parent reads off the records are the calls the scenario made. |
| Runner.SideBySide | src/core/runner.c:57-107 | Records go through a schedule in step with the requests they carry. |
| Runner.EndToEnd | src/core/runner.c:98-107 | From every thread's own requests, through any schedule of their writes, to what the parent reads: exactly the calls requested, under the first 31 bytes of their keys, in pipe order, each thread's in its own. |
| Runner.Observe | src/tui/tui.c:444-495 | And on to the table object: unless the kernel fails one of the parent's own polls or reads, it reports the calls of all threads, the first 64 pairs. |
| Crash.CopyText | src/core/runner.c:173-177 | The hand-rolled copies leave a NUL-terminated text: both parts, cut to 191 bytes. |
| Crash.FaultHandler | src/core/runner.c:158-184 | At most one write of the crash record; with atomic pipe writes all of it or nothing, and all of it if the reader is there and no signal comes. |
| Crash.CrashText | src/core/runner.c:164-177 | The crash record is of kind 8 and reads "child crashed: " and SIGSEGV, SIGBUS, SIGABRT, SIGFPE, SIGILL or "signal"; everything else in it is 0. |
| Crash.CrashSeen | src/core/runner.c:179-184 | The parent gets everything emitted before the crash, and the crash record exactly when all 256 bytes were written; otherwise the run ends as damage, or as plain EOF when none were. |
| Race.RunKeepsInv | src/scenarios/concurrency/race_counter.c:18-28 | Over every interleaving of loads and stores the counter stays between 0 and the stores made, a lone writer's is exact, and two or more stores each can never end below 2. |
| Race.Spend | src/scenarios/concurrency/race_counter.c:18-28 | Any number of the remaining iterations can be run while chosen writers stand still. |
| Race.ManyReached | src/scenarios/concurrency/race_counter.c:18-28 | Explicit schedules reach every final counter from K to N*K. |
| Race.FewReached | src/scenarios/concurrency/race_counter.c:18-28 | Explicit schedules reach every final counter from 2 to K. |
| Race.FinalCounters | src/scenarios/concurrency/race_counter.c:30-57 | The exact set of final counters for all N and K: K for one writer; for more, everything from 2 (1 when K is 1) to N*K and nothing else. |
| Race.RunWriters | src/scenarios/concurrency/race_counter.c:30-57 | The program, under an arbitrary scheduler, always ends, and with one of those counters. |
| ChaosIo.Granted | src/chaos/chaos_io.c:70-86 | ENOSPC exactly when a quota is set and used up; otherwise the largest amount within the request, the remaining quota and the partial limit. |
| ChaosIo.IoTable.FindLocked | src/chaos/chaos_io.c:30-35 | The first in-use slot with that descriptor, or none. |
| ChaosIo.IoTable.FreeLocked | src/chaos/chaos_io.c:37-47 | The first free slot, or none. |
| ChaosIo.IoTable.Open | src/chaos/chaos_io.c:49-68 | Succeeds exactly when mkstemp does and some slot is free; a failure leaves table and open files as they were. |
| ChaosIo.IoTable.Close | src/chaos/chaos_io.c:123-129 | Frees the descriptor's slot and closes it. |
| ChaosIo.IoTable.Set | src/chaos/chaos_io.c:131-150 | Each of the three setters changes the knob it is named after, in that descriptor's slot, and nothing else. |
| ChaosIo.IoTable.Write | src/chaos/chaos_io.c:70-96 | Refuses when the quota is used up and changes nothing; otherwise a prefix of the data within the grant reaches the file and exactly that many bytes are charged. |
| ChaosIo.IoTable.FsyncDelayOf | src/chaos/chaos_io.c:107-119 | How long an fsync sleeps first: the delay in the descriptor's slot, 0 without one. |
| WriteLoops.CeilDivIs | src/scenarios/timeio/partial_write.c:30-37 | The ceiling used below, by its defining property. |
| WriteLoops.WriteAll | src/scenarios/timeio/partial_write.c:25-37 | The retry loop stores the whole buffer, in order, in exactly ceil(n/p) calls (15 for 2048 bytes at 137, tests/golden/partial_write.jsonl:8). |
| WriteLoops.WriteWithoutRetry | src/scenarios/timeio/disk_full.c:22-38 | The loop without retry stores the first min(k*c, q) bytes offered; the first refusal is at write ceil(q/c) and every later one is refused: k - ceil(q/c) in all (48 in tests/golden/disk_full.jsonl:4). |
| WriteLoops.FullFrom | src/scenarios/timeio/disk_full.c:26-38 | The quota is used up after i writes exactly when i reaches ceil(q/c). |
| WriteLoops.OpenWith | src/chaos/chaos_io.c:49-68 | An open and one setter leave a slot with that one knob and no other, whatever the slot held before. |
| WriteLoops.PartialWrite | src/scenarios/timeio/partial_write.c:12-45 | The scenario from open to close, for any buffer and chunk limit: the naive write stores one chunk, the loop the whole buffer in ceil(n/p) calls. |
| WriteLoops.DiskFull | src/scenarios/timeio/disk_full.c:13-48 | The scenario from open to close, for any chunk, quota and count: the file holds the first min(k*c, q) bytes offered, and exactly the writes from number ceil(q/c) on are refused. |
| SlotProtocol.NextKeepsInv | src/chaos/chaos_io.c:49-68 | Every step of an open, close, tune or charge by any thread keeps in-use slots and held descriptors in one-to-one correspondence. |
| SlotProtocol.SlotsSound | src/chaos/chaos_io.c:49-68 | Over every interleaving: in-use slots hold distinct descriptors, all of them open and in their owners' hands. |
| SlotProtocol.OthersUntouched | src/chaos/chaos_io.c:131-150 | No step on one descriptor touches the slot of another. |
| SlotProtocol.RunLeavesAlone | src/chaos/chaos_io.c:131-150 | Over a whole run, a descriptor that no step names keeps its slot and knobs. |
| SlotProtocol.OwnSlot | src/chaos/chaos_io.c:37-47 | Each knob lands as itself, and a charge as bytes written, in the descriptor's own slot; a new descriptor starts with none, whatever its slot held before. |
| SlotProtocol.OpenRefusedWhenFull | src/chaos/chaos_io.c:57-64 | An open is refused exactly when all 64 slots have owners, and then touches neither the table nor any other descriptor. |
| SlotProtocol.ClosingFirstWouldBreak | src/chaos/chaos_io.c:123-129 | Were the descriptor closed before its slot is cleared, two slots could come to hold it. |
| SlotProtocol.LateCharge | src/chaos/chaos_io.c:88-94 | A write in flight across a close charges its own slot if the descriptor was not cleared meanwhile, changes the table exactly if somebody holds the descriptor by then, and never touches another descriptor's slot. |
| SlotProtocol.ChargedToAnother | src/chaos/chaos_io.c:88-94 | From every state such a charge can land on a new, empty file: the descriptor is closed and handed out again at once. |
| QuotaProtocol.NextKeepsInv | src/chaos/chaos_io.c:70-96 | Check, kernel write and accounting, as separate steps of any thread, keep recorded plus in-flight bytes within quota + (W-1)*cap, cap being the least of m, the quota and the partial limit. |
| QuotaProtocol.QuotaBound | src/chaos/chaos_io.c:70-96 | In every reachable state the file holds at most quota + (W-1)*cap bytes, hence at most quota + (W-1)*m, for W threads asking at most m each; a single writer never passes the quota. |
| QuotaProtocol.QuotaBoundReached | src/chaos/chaos_io.c:86-94 | That bound is the exact maximum: for all W, m, quotas and partial limits some run puts exactly that many bytes in the file. |
| Proxy.RandUnitRange | src/chaos/chaos_net.c:37-41 | rand_unit lies in [0, 1). |
| Proxy.RandUnitIs | src/chaos/chaos_net.c:37-41 | rand_unit is the word drawn over 2^64, rounded down to a multiple of 2^-53. |
| Proxy.LosesIff | src/chaos/chaos_net.c:81-85 | For every probability p in [0, 1] the words that lose are exactly those below 2048 * ceil(p * 2^53). |
| Proxy.LossLaw | src/chaos/chaos_net.c:81-85 | So that many of the 2^64 words lose: p * 2^64 rounded up to a multiple of 2048. |
| Proxy.TurnLosesIff | src/chaos/chaos_net.c:80-86 | A turn of the forwarder drops its piece exactly when the word it drew is one of those. |
| Proxy.WaitIs | src/chaos/chaos_net.c:43-46 | A drawn delay is min plus the word drawn modulo max - min. |
| Proxy.DelayWithinIff | src/chaos/chaos_net.c:43-52 | Every delay lies between the two knobs exactly when min <= max. |
| Proxy.DelayTopIff | src/chaos/chaos_net.c:43-52 | Some draw gives the maximum exactly when it is 0 or equals the minimum. |
| Proxy.DelayUniformIff | src/chaos/chaos_net.c:43-52 | Every delay from min up to max is drawn by equally many of the 2^64 words exactly when max - min divides 2^64. |
| Proxy.Shared.Set | src/chaos/chaos_net.c:155-161 | Stores one more setting, from then on the one in force for new reads. |
| Proxy.Forwarder.Forward | src/chaos/chaos_net.c:54-101 | Whatever the reads, partial writes and settings stored by other threads before any turn: the run has an account in which every byte read is delivered, dropped or left by a failed write, in order, all of the source if neither end fails; each turn acts on the setting its read took, and its drop and its sleep follow from its own draws; the generator is drawn from exactly as accounted, the refused turn included; at EOF nothing is left over. |
| Proxy.Forwarder.Relay | src/chaos/chaos_net.c:65-95 | One read is disposed of piece by piece under the setting stored when it was taken. |
| Proxy.Forwarder.ApplyDelay | src/chaos/chaos_net.c:43-52 | Sleeps what the knobs and the draw say, and draws only for a positive span. |
| Proxy.Conservation | src/chaos/chaos_net.c:54-101 | What is delivered is a subsequence of what was read, and delivered plus dropped is what was read. |
| Proxy.LossExtremes | src/chaos/chaos_net.c:80-86 | Loss 0 throughout delivers everything unchanged; loss 1 throughout delivers nothing. |
| Proxy.ChunkLimit | src/chaos/chaos_net.c:71-78 | With a positive chunk limit no write is offered more, whether it takes all, part or none of it. |
| Proxy.PromptIff | src/chaos/chaos_net.c:61-94 | With complete writes, every run observes each stored setting on the next chunk exactly when all chunk limits ever stored are off or at least 4096. |
| Proxy.NeverPromptIfPartial | src/chaos/chaos_net.c:76-94 | With partial writes, every chunk limit allows a run that does not. |
| Proxy.IgnoredChange | src/chaos/chaos_net.c:65-69 | A concrete run in which loss is set to 1 in the middle of a read and the rest of the read is still written. |
| Proxy.EffectiveNextRead | src/chaos/chaos_net.c:61-69 | Every read after a turn that began with a setting stored acts on it or on a newer one; all turns ignoring it are of one read. |
| Proxy.IgnoredBriefly | src/chaos/chaos_net.c:57-69 | No stored setting is ignored for more than 4096 bytes. |
| Proxy.OneSplit | src/chaos/chaos_net.c:61-69 | The pieces that act on settings older than a given one all come first. |
| Messages.OneMessageEach | src/chaos/chaos_net.c:71-94 | With the chunk limit at the message size, whole-message reads and complete writes, every piece is exactly one message on a message boundary. |
| Messages.FlattenInjective | src/scenarios/network/packet_loss.c:27-33 | A stream of equal-sized messages can be cut into messages in one way only. |
| Messages.WholeMessages | src/scenarios/network/packet_loss.c:13-33 | The pieces are the messages sent, and what comes out is the concatenation of those that got through, in order. |
| Messages.LossInMessages | src/scenarios/network/packet_loss.c:27-50 | The bytes reported lost are the message size times the number of messages dropped. |
| SplitBrain.Replica.Tick | src/scenarios/compound/split_brain.c:41-64 | A tick raises local_count by one, publishes it, and takes in every whole word readable, last_peer_count being the last word ever taken in. |
| SplitBrain.RunReplica | src/scenarios/compound/split_brain.c:39-66 | After any number of ticks fed whole messages, what was heard is exactly what arrived, and what was sent is 1, 2, ..., local_count. |
| SplitBrain.HeardShape | src/scenarios/compound/split_brain.c:45-58 | The counts that get through are strictly increasing and never exceed the publisher's own. |
| SplitBrain.CountsHeard | src/scenarios/compound/split_brain.c:39-66 | For any knob history and however far the forwarder has read, what a replica has heard is a prefix of the counts that got through: strictly increasing and at most local_count of its publisher. |
| SplitBrain.HealedSuffix | src/scenarios/compound/split_brain.c:98-106 | With knobs that start at loss 1 and one call of chaos_net_set_knobs to loss 0, exactly the messages whose snapshot follows the call get through, every one of them. |
| SplitBrain.LastHeard | src/scenarios/compound/split_brain.c:98-114 | With that one call, a replica that has taken in all that got through ends with the publisher's final count exactly when some message was read after the call, and with 0 otherwise. |
| SplitBrain.NextKeepsWired | src/scenarios/compound/split_brain.c:39-66 | Every step of either replica or forwarder keeps the wiring: a forwarder has read a prefix of what its replica sent, in messages, and a replica has taken in a prefix of what reached it. |
| SplitBrain.HearsItself | src/scenarios/compound/split_brain.c:90-91 | In every state that any interleaving of replicas, forwarders and knob settings reaches, wired as written: a replica has heard a prefix of its own counts that got through, so its last_peer_count never exceeds its own local_count, whatever the other does. |
| Cascade.Receive | src/scenarios/compound/cascading_failure.c:34-48 | Whatever the read sizes and the file wrapper's answers: what reaches the file is a subsequence of what was received, with the counters exact and one delay slept for every read, up to the end of the stream unless a read fails; with a kernel that takes all and no quota or partial limit, everything received is persisted. |
| Cascade.ReceiverSide | src/scenarios/compound/cascading_failure.c:34-67 | The receiver from its own open and fsync delay on: the file ends as exactly what was received, after that delay for every read. |
| Cascade.PersistedFromSent | src/scenarios/compound/cascading_failure.c:80-99 | From sender to disk: persisted is a subsequence of sent, and persisted <= received <= sent. |
| Deadlock.NextKeepsInv | src/scenarios/concurrency/deadlock_classic.c:15-32 | Every step keeps: a mutex has an owner exactly while that locker's code is inside its critical part. |
| Deadlock.MutualExclusion | src/scenarios/concurrency/deadlock_classic.c:15-32 | In every reachable state at most one locker is inside each mutex. |
| Deadlock.Alone | src/scenarios/concurrency/deadlock_classic.c:15-32 | What a locker holds after each of its steps when nothing is in its way: first, first, both, first, none. |
| Deadlock.CrossedForever | src/scenarios/concurrency/deadlock_classic.c:44-54 | Once two lockers of opposite order each hold their first mutex, no continuation ever gets either its second one, and the lockers never all return. |
| Deadlock.StuckMeansCrossed | src/scenarios/concurrency/deadlock_classic.c:15-32 | The only way for the lockers to be stuck is two of them crossed, each waiting for the other's mutex. |
| Deadlock.OnlyTheWatchdog | src/chaos/chaos_thread.c:129-143 | In a stuck state the watchdog's exit is the only possible step, and nothing follows it. |
| Deadlock.RunsAreShort | src/scenarios/concurrency/deadlock_classic.c:15-32 | Every run is finite: at most five steps a locker and the watchdog's. |
| Deadlock.DeadlockIffOrdersDiffer | src/scenarios/concurrency/deadlock_classic.c:46-54 | For any number of lockers, a stuck state is reachable exactly when two of them disagree on the order (the fix at lines 73-75). |
| Herd.NextKeepsInv | src/scenarios/compound/thundering_herd.c:34-61 | Every step of any worker or of the clock keeps the mutex, the clock readings, the timeline of critical sections and the two totals, as sums over that timeline, consistent. |
| Herd.SectionsDisjoint | src/scenarios/compound/thundering_herd.c:45-53 | In every reachable state the completed critical sections are pairwise disjoint in time and, but for those a signal cut short, each at least as long as the fsync delay. |
| Herd.BusyBounds | src/scenarios/compound/thundering_herd.c:55-58 | Disjoint sections fill at least D for each that was not cut short, and at most the span they lie in. |
| Herd.Iteration | src/scenarios/compound/thundering_herd.c:44-58 | One iteration of one worker, with anything the others do in between: the section recorded holds the clock at its own three readings, and their differences are what is added to total_wait and total_work. |
| Herd.WaitsOut | src/scenarios/compound/thundering_herd.c:44-46 | A worker whose t_before lies before the start of m earlier full sections waits at least m delays. |
| Herd.HerdPrice | src/scenarios/compound/thundering_herd.c:133 | With one iteration each, when all W workers arrive before the first section starts: total_wait >= D * W*(W-1)/2, so the average wait grows with W. |
| Herd.HerdTiming | src/scenarios/compound/thundering_herd.c:99-107 | When all workers are joined: total_wait is the sum of t_acquired - t_before and total_work that of t_done - t_acquired over the W*I sections; (W*I - signals)*D <= total_work <= wall, where signals counts the delays a signal cut short (chaos_io_fsync ignores that), so W*I*D <= total_work without any; and total_wait + total_work <= W*wall. |
| Herd.SomeoneMoves | src/scenarios/compound/thundering_herd.c:43-59 | Short of the end some worker can always step once the clock has moved by the delay, and comes nearer to its return. |
| Herd.RunsFinish | src/scenarios/compound/thundering_herd.c:105 | Every reachable state can be continued until all workers are joined. |
| Json.JsonEscape | src/main.c:41-57 | The loop over the C string writes its escaped form. |
| Json.EscapedByteReads | src/main.c:45-54 | A reader of section 7 of RFC 8259 reads one escaped byte back as that byte, whatever follows. |
| Json.RoundTrip | src/main.c:41-57 | Reading the output back by section 7 of RFC 8259 gives the original bytes and stops exactly at the closing quote. |
| Json.NoControlBytes | src/main.c:45-56 | No raw control byte is written, so an event stays on one line. |
| Json.EscapeForms | src/main.c:45-54 | Exactly five bytes get a two-character form; the other controls get six characters with lower-case digits, the rest themselves. |
| Overlay.ShowBody | src/tui/tui.c:340-355 | For every width: what is printed is the full wrapping cut after the max(0, oh - 4) lines there is room for; a negative width cuts no line, and width 0 fills the room with empty lines from the first non-empty paragraph on; an empty text is replaced by "(no lesson written for this scenario)"; the nested loops end. |
| Overlay.ChunksRejoin | src/tui/tui.c:346-353 | The lines of a paragraph, put end to end, are the paragraph. |
| Overlay.ChunksFit | src/tui/tui.c:346-353 | No line is longer than `wrap` and all but a paragraph's last are full. |
| Overlay.ParagraphsRejoin | src/tui/tui.c:343-355 | The paragraphs joined by newlines are the body, up to one trailing newline. |
| Overlay.ParagraphsPlain | src/tui/tui.c:343-345 | No paragraph holds a newline. |
| Overlay.LinesFit | src/tui/tui.c:343-355 | Every line of the full wrapping fits. |
| LogRing.Ring.Push | src/tui/tui.c:74-82 | The line joins the history, and the ring still holds the newest line of every slot; the push that wraps the 32-bit count empties the pane. |
| LogRing.Ring.Draw | src/tui/tui.c:196-210 | The pane shows, at each position, the newest line in the slot of the line that belongs there. |
| LogRing.DrawnIsLastIff | src/tui/tui.c:200-205 | The pane shows the last lines pushed, for every history, exactly when it is no taller than 512 lines or no more than 512 were pushed. |
| LogRing.PaneHolds | src/tui/tui.c:74-82 | After any pushes the ring's history is the last n mod 2^32 of them. |
| LogRing.PaneShows | src/tui/tui.c:196-210 | A pane of at most 512 rows shows exactly the last lines it was given, in order. |

## Left out

- ArenaModel.Arena.Alloc: requires sizes that cannot wrap a 64-bit size_t in `round8`, `block_total` or `used + need`, and arenas of at most 2^32 bytes so the 32-bit size field does not truncate.
- ArenaModel.Arena.Free: trusts any 4-byte magic it finds 24 bytes before the pointer, so its caller must not have forged a live one where no block starts, nor pass a pointer whose header straddles the mapping's end.
- ArenaModel.Arena.Check: requires that damaged size fields do not lead the walk out of the mapping.
- Runner.RunScenario: finitely many silent turns; an abort only sends a signal, so its effect is on the bytes the child still writes; starting the child, reaping it and the line about its exit are omitted, as is the text of a log line; keys are NUL-terminated, as every emitter makes them.
- Runner.Emit: only finitely many interrupting signals, so that the loops end; the same holds for `Runner.Poll`.
- Wire.WireFidelity: assumes writes up to PIPE_BUF are atomic on pipes, as POSIX.1-2017 promises.
- Stats.RecordAllReports: values are unbounded integers; a counter that overflows int64_t is not modelled.
- Race.FinalCounters: the shared `long` is an unbounded integer.
- Race.RunWriters: loads and stores are sequentially consistent; the undefined behaviour C gives this data race is not modelled.
- Proxy.Forwarder.Forward: the final shutdown of the write side is omitted, a sleep is a number, and the stream to come is a finite sequence. The loss knob is a real number, so a NaN is not covered. `Serve`, `Relay`, `TakeTurn`, `Lose`, `ApplyDelay` and `Draw` are parts of the C functions forward_fn, apply_delay and rand_unit.
- Messages.WholeMessages: assumes reads return whole messages and proxy writes are complete, as do `Messages.LossInMessages`, `SplitBrain.CountsHeard` and `SplitBrain.HearsItself`; the packet_loss loops that only sum byte counts are represented by the streams they count.
- SplitBrain.Replica.Tick: the publishing write is taken to be complete; last_heard_ns and the sleeps are omitted.
- SlotProtocol.SlotsSound: each descriptor is used and closed once by whoever opened it, through the wrapper; what a charge does that comes after the close is `SlotProtocol.LateCharge`; the stored path is omitted.
- QuotaProtocol.QuotaBound: the quota is set before the first write and the descriptor stays open.
- Herd.HerdTiming: the clock never goes back, so skew and jitter of the lab's own clock are excluded; the result of the write inside the critical section is ignored, as the code ignores it.
- Deadlock.OnlyTheWatchdog: the watchdog may fire at any moment while the lockers run; its two-second timer is not modelled.
- LogRing.Ring.Push: colours and truncation to 255 bytes are omitted.
- Overlay.ShowBody: clipping at the window's edge by the screen library is omitted.
- The life cycle of the child (fork, waitpid, signal delivery, resource limits) and the kernel objects behind it (mmap, mkstemp, sockets, nanosleep, real clocks): replaced by arbitrary results within their POSIX contract.
- chaos_io_read, fsync(2) itself and the clock helpers: one lookup each, no further state; of chaos_io_fsync only its sleep is modelled.
- chaos_net_close and SIGPIPE: they depend on how the kernel tears sockets down.
- jittery_timer, flaky_environment, slow_fsync, connection_reset and the other scenarios whose point is real timing: nothing holds of all their runs.
- Registry, argument parsing, name tables, colours, layout, key handling, printf formatting beyond truncation, percentages: easy members only.
