# Verification model of Cachetest

Cachetest measures a memory hierarchy by pointer chasing: it writes a linked path into a buffer, cuts the
path into one loop per subpath, lets threads or fibres run round those loops, and stops them by breaking
the loops from an alarm handler. This project models the parts of the program on which the validity of a
measurement rests, and proves what they promise.

| file | what it models |
|---|---|
| `Paths.dfy` | paths, cycles and rings in memory, and what a pointer chase sees of them |
| `FirstFit.dfy`, `UniformDistribution.dfy` | the first-fit fill and the builder of one path through the buffer |
| `SlotBytes.dfy` | first-fit paths stated in byte offsets |
| `SubpathDistribution.dfy` | the builder of one uniform or Zipf subpath per slice, linked into a ring |
| `PathSetup.dfy` | collecting the subpaths and splitting the ring into loops |
| `ChaseProtocol.dfy` | threads, barrier, main thread and alarm handler as a state machine |
| `ChaseHistory.dfy` | its runs seen from outside: the order of steps, and where every thread stands after any run |
| `MersenneTwister.dfy` | the generator `MTRand` against the recurrence of ISO/IEC 14882:2011, section 26.5.3.2 |
| `ZipfSampler.dfy` | Schrage's generator and the Zipf sampler |
| `PageTable.dfy`, `PageWalk.dfy`, `PageTypes.dfy` | page accounting, walking and range printing of `page-types`, and a whole run of it |
| `FrameSearch.dfy` | the search for physically contiguous frames |
| `Tokens.dfy` | splitting option strings |
| `Arithmetic.dfy`, `Wrappers.dfy` | a few facts about division, and `Option` |

**Memory.** The buffer is an array indexed by byte offset from `Get_buffer_pointer()`; cell `b` stands for
the four-byte element whose first byte lies at offset `b`. Links are byte offsets, as in the program. That
elements in use never share a byte is proved, not assumed: for the slots of one layout
(`FirstFit.AddrApart`), for the two fields of the 64-byte lines (`SubpathDistribution.FieldsApart`) and for
the slots of all subpaths of the buffer (`SubpathDistribution.SlotsApart`).

**Inputs.** What comes from outside is a parameter: the permutation `std::shuffle` applies (section
25.3.12 of ISO/IEC 14882:2011), the lines and ranks drawn, the frame map, the mapped areas, the kernel's page flags, the
Zipf weights. The theorems hold for all of them. Preconditions are those of the program: at least one line
per subpath, a zeroed buffer for the first-fit builders, offsets below 2^32 - 1, a non-empty frame map, a
non-empty delimiter.

**Concurrency.** Steps of all participants interleave arbitrarily over one sequentially consistent memory.
Every load of a thread and every single write of the alarm handler is a step of its own.

## Where the code does less than it seems to

For each of these the model keeps the code as it is, and a member says exactly when it does meet its
promise.

- Builder and reader of the path cut the slices by different formulas. The reader looks for every subpath
  where the builder starts it, and can come back with a description of the subpaths, if and only if there is
  a single subpath, or the buffer factor is 1 and the data set ends fewer bytes after its last full line than
  there are subpaths (`PathSetup.StartsAgree`, `PathSetup.CollectionCanSucceed`; `PathSetup.StartsDiffer` has
  a configuration for both ways to fail).
- The seed check of the Zipf subpath builder admits 2147483647, for which the rejection loop never ends
  (`ZipfSampler.RejectionEnds`, `ZipfSampler.SchrageStuck`).
- The frame search starts with 0 as the previous frame number. If the lowest frame is number 1 and starts a
  run of one frame too few, it reports success and lists the first page twice
  (`FrameSearch.Buffer.FindContiguousRange`, `FrameSearch.MisreadIsWrong`).
- The call that drains the range printer is itself a page (0, 0, 0). Taken by itself, `show_page_range` loses
  the last range if and only if the last page fed has no flags and the highest page number, in pid mode also
  virtual (`PageWalk.RangePrinter.Drain`, `PageWalk.HighestPageIsLost`). No walk ever feeds that page, because
  requested ranges are clipped below it and frame numbers in page tables have 55 bits
  (`PageWalk.ClippedSize`, `PageWalk.PagemapPfn`), so a run that ends regularly lists exactly the pages that
  pass its filters, with and without pid (`PageTypes.Run`). The clipping also means that the highest page
  cannot be asked for.
- A migrating fibre that loads the sentinel from a subpath of length 1, and only then, migrates once more
  although it arrives nowhere (`ChaseProtocol.MigratesOnArrival`). An experiment has a run in
  which that happens if and only if it has fibres and a subpath of length 1 (`ChaseProtocol.ExtraMoveExactly`);
  1 KB in sixteen subpaths is one (`ChaseProtocol.SmallestRun`).
- The fill of a uniform slice overruns it by three bytes. The model has the overrun, and the path is built
  correctly all the same, because the next slice is built later (`SubpathDistribution.BuildUniform`,
  `SubpathDistribution.OneMore`).
- Splitting a join gives the tokens back if and only if every token is cut off by the first delimiter in
  sight. For delimiters of several characters this asks for more than tokens free of the delimiter
  (`Tokens.JoinThenSplit`, `Tokens.FreeIsNotEnough`).

## Model

| member | source | states |
|---|---|---|
| SubpathDistribution.SubpathDistribution.DoDistribute | src/Distribution.cc:568-600 | stated on the object's fields and in bytes. Refused exactly when the buffer is large and has slabs, the lines do not divide evenly, or alpha is 0 and lines are not 64 bytes. For positive alpha, slice `c` holds a first-fit path from its first byte: each of `size / 4 - 1` ranks in turn is given the lowest element not yet on the path of line `shuffle[rank - 1]`, and the path ends early only at a full line. For alpha 0, each slice is the chain from its first line through the shuffled others, and a chase from the start visits `start + 64 * line` for each of the lines exactly once and returns. The slices form one ring, `entries` is its length, `sequence` the recorded lines |
| SubpathDistribution.ZipfSliceBuilt | src/Distribution.cc:409-458 | in bytes, a Zipf subpath gives each rank the lowest element not yet on it of the line `shuffle[rank - 1]`, stops early only at a full line, and records the lines given out |
| SubpathDistribution.UniformSliceBuilt | src/Distribution.cc:519-551 | in bytes, a uniform subpath goes from the first line of its slice through the others as shuffled, at the first element of each |
| SubpathDistribution.UniformVisitsEveryLineOnce | src/Distribution.cc:488-600 | with uniform subpaths a chase from the start visits the first slot of every data line exactly once and is then back at the start |
| SubpathDistribution.LinkShuffled | src/Distribution.cc:528-551 | the shuffled indices, stored in the lines being linked, are all read before they are overwritten; the result is the chain in shuffled order and nothing outside the slice changes |
| SubpathDistribution.LinkOne | src/Distribution.cc:538-547 | both assertions hold at every link, and one link keeps the unread indices and the unwritten path cells |
| SubpathDistribution.FillInvalid | src/Distribution.cc:495-498 | every element of the slice is invalid, the first three bytes of the element behind it are overwritten, nothing else changes |
| SubpathDistribution.BuildUniform | src/Distribution.cc:488-566 | whatever the slice held before, it then holds the open chain from line 0 through the shuffled lines; outside it only the overrun bytes have changed |
| SubpathDistribution.ShuffleIsOnto | src/Distribution.cc:525-526 | a permutation of the lines leaves none out (pigeonhole) |
| SubpathDistribution.SubpathDistribution.UniformSubpath | src/Distribution.cc:488-566 | one slice's open chain, the slot left to close, exact updates of `entries` and `sequence`, and no change outside but the overrun bytes |
| SubpathDistribution.SubpathDistribution.ZipfSubpath | src/Distribution.cc:372-486 | the same for the first-fit path of the lines the ranks select |
| SubpathDistribution.ZipfShape | src/Distribution.cc:409-458 | that path is the unique first-fit path of the ranked lines, and on every line the used elements are a prefix |
| SubpathDistribution.OneMore | src/Distribution.cc:583-599 | building one slice, overrun included, keeps all earlier subpaths, their links and the zeros of later first-fit slices |
| SubpathDistribution.SlotsApart | src/Distribution.cc:585-599 | no two slots of the buffer's subpaths share a byte |
| SubpathDistribution.FieldsApart | src/Distribution.cc:508-515 | the two fields in use of the lines never share a byte, of one line or of two |
| SubpathDistribution.DrawZipf | src/Distribution.cc:376-433 | for every seed the builder admits: the sampler gives a Zipf subpath ranks its shuffled table has, each determined by its state, or the first draw never ends, exactly for the seed 2147483647 |
| FirstFit.FillIsFirstFit | src/Distribution.cc:138-168 | the fill computes the one and only path in which every slot is the next unused element of its draw's line, none is skipped, and the path stops early only at a full line |
| FirstFit.FillStops | src/Distribution.cc:157-162 | the fill ends before the draws do only when the next drawn line has no allowed free element |
| FirstFit.ZeroMeansFree | src/Distribution.cc:142-152 | apart from the tail, a slot holds zero exactly when it is not on the path, even when the data start at offset 0 |
| FirstFit.ScanAgrees | src/Distribution.cc:142-161 | once the tail is marked, the scan of memory finds the line's first unused element or reports it full, according to the path alone |
| FirstFit.LinkNext | src/Distribution.cc:142-167 | one round of either fill: mark the tail, scan, link the element found; the path grows by the next unused element of the drawn line, which is the fill's next slot, or the line is full and the fill is over |
| FirstFit.FirstFree | src/Distribution.cc:146-161 | in bytes: the scan finds the lowest multiple of 4 within the line, among the elements that may be given out, whose cell is zero, or reports that there is none |
| FirstFit.FillLines | src/Distribution.cc:136-168 | the loop leaves the first-fit path of the draws in memory, all other slots zero, and touches nothing outside the lines; in bytes that path is what `SlotBytes.FirstFitInBytes` says |
| FirstFit.AddrApart | src/Distribution.cc:149 | different slots never share a byte |
| SlotBytes.FirstFitInBytes | src/Distribution.cc:142-165 | first fit in byte offsets: the path starts at the base, every further slot is the lowest `base + line * cacheline + 4 * e` of the next line drawn that is not on the path yet, and if draws are left the next line has none |
| SlotBytes.CycleInBytes | src/Distribution.cc:136-168 | the same for a cycle through the whole buffer, whose record is the lines of the draws used, and on which byte `4 * (cacheline / 4 - 1)` of a line is never given out |
| SlotBytes.NeverOnPath | src/Distribution.cc:155-158 | no line's last element is on a path that stops before it |
| UniformDistribution.UniformDistribution.DoDistribute | src/Distribution.cc:108-172 | for all draws the buffer holds one simple cycle of `entries` slots from the start offset; in bytes, each draw modulo the number of lines is given the lowest element of its line not on the cycle yet, never the last one; the cycle is complete after `size / 4 - 1` draws or at the first drawn line without a free element; `sequence` is the lines of the draws used |
| UniformDistribution.UniformDistribution.PathShape | src/Distribution.cc:138-168 | the path is the unique first-fit path of the drawn lines, and on every line the used slots are a prefix that never includes the last slot |
| UniformDistribution.UniformDistribution.BuiltInBytes | src/Distribution.cc:142-168 | that path in bytes: lowest free element first, the last element of a line never |
| Paths.ChaseCycle | src/cachetest.cc:372-394 | a chase round a cycle stands on slot `k mod length` after `k` loads |
| Paths.CycleVisitsEachOnce | src/cachetest.cc:219-225 | one round visits every slot exactly once and ends at the start |
| Paths.RingIsCycle | src/Distribution.cc:585-599 | subpaths that each lead to the next form one simple cycle, chunk after chunk, in order |
| Paths.LoopsCoverRing | src/cachetest.cc:237-253 | the locations the split loops visit are exactly those the original path visits |
| PathSetup.StartsAgree | src/cachetest.cc:186-189 | the reader looks for every subpath where the builder starts it if and only if there is one subpath, or the buffer factor is 1 and fewer bytes than subpaths are left over |
| PathSetup.CollectionCanSucceed | src/cachetest.cc:178-203 | for everything the builder builds: records that start where the collector starts can describe the subpaths if and only if that holds |
| PathSetup.StartsDiffer | src/cachetest.cc:186-189 | two subpaths and a data set of 1 KB: starts at 1024 and 512 with buffer factor 2, at 480 and 512 with 96-byte lines |
| PathSetup.CollectPointerChasingSubpathInfo | src/cachetest.cc:178-203 | every walk ends and finds the subpath's first slot, last slot and length; the lengths sum to the length of the whole path |
| PathSetup.LengthsSum | src/cachetest.cc:178-203 | the recorded lengths sum to the number of slots on the ring |
| PathSetup.SplitPointerChasingPath | src/cachetest.cc:244-253 | afterwards the buffer holds one simple cycle per subpath over exactly its slots, and only the end slots have changed |
| PathSetup.SetupDistribution | src/cachetest.cc:1228-1241 | building and collecting together, in every configuration in which that holds: the records describe the subpaths the draws determine, and their lengths sum to `entries` |
| ChaseProtocol.Prepare | src/cachetest.cc:492-493 | in the same configurations, from an empty buffer to a valid experiment over exactly those subpaths, for the plain and the migrating test |
| ChaseProtocol.StartTest | src/cachetest.cc:621-626 | splitting unless fibres migrate leaves memory as the chosen loop needs it |
| ChaseProtocol.StepKeepsInv | src/cachetest.cc:360-417 | every step of every participant keeps the invariant: memory is the built path with exactly the handler's writes applied, every thread is where it may be, the barrier count is the number of arrivals |
| ChaseProtocol.ReachableOk | src/cachetest.cc:492-575 | the invariant holds in every reachable state of every experiment |
| ChaseHistory.NextSteps | src/cachetest.cc:509-567 | after every run exactly these steps can come next: a thread's remaining unchecked loads, then its arrival; once all have arrived, arming the alarm, and then the release; the alarm any time after it is armed; the handler's writes, one per subpath; a thread's first pass only after the release, and passes until it has returned |
| ChaseHistory.RunOrder | src/cachetest.cc:509-567 | every step of every run came in that order |
| ChaseHistory.NobodyStartsEarly | src/cachetest.cc:530-562 | in every reachable state, a thread in the loop or back from it has been released by the main thread, and by then every thread has arrived and the alarm is armed; before the release nobody has counted a load |
| ChaseHistory.CountsPasses | src/cachetest.cc:372-394 | after every run a thread has counted exactly its passes, but for the one in which it returned |
| ChaseHistory.AlarmMayComeFirst | src/cachetest.cc:554-562 | in every experiment the alarm can go off, and the handler finish, before the release |
| ChaseHistory.StandsWhereItCounted | src/cachetest.cc:372-394 | in every reachable state of either loop: a running thread stands where its unchecked and its counted loads lead in the memory as it was built; once it holds the sentinel, its last counted load was from a broken start slot |
| ChaseHistory.PlainPlace | src/cachetest.cc:372-394 | in the plain loop that is slot `(offset + count) mod length` of the thread's own subpath, and a thread that holds the sentinel loaded it from slot 0 |
| ChaseProtocol.NoWildLoads | src/cachetest.cc:509-562 | no thread ever loads through the sentinel or outside the buffer; unchecked walks are over before the alarm can be armed; a running thread holds the sentinel or a slot of its own subpath (migrating: slot `_curStep` of subpath `_subpathIdx`) |
| ChaseProtocol.MigratesOnArrival | src/cachetest.cc:463-484 | a pass migrates if and only if it arrives at a subpath's start, which is then the start of the new subpath; on the sentinel it migrates exactly in subpaths of length 1 |
| ChaseProtocol.ExtraMoveExactly | src/cachetest.cc:459-484 | a migrating experiment has a reachable state in which a fibre loads the sentinel and migrates all the same if and only if it has fibres and a subpath of length 1 |
| ChaseProtocol.SmallestRun | src/cachetest.cc:459-484 | from an empty buffer of 1 KB, in sixteen lines and as many subpaths, the builder and the driver set up such an experiment |
| ChaseProtocol.BreakKeepsMemory | src/cachetest.cc:845-851 | one write of the handler breaks one start slot and nothing else |
| ChaseProtocol.BrokenMeansWritten | src/cachetest.cc:848-850 | a start slot reads as the sentinel exactly when the handler has broken its subpath |
| ChaseProtocol.Countdown | src/cachetest.cc:373-394 | once the start slot ahead of a thread is broken, over every continuation of the run passes made and passes left add up, and so do loads |
| ChaseProtocol.BrokenSubpathEnds | src/cachetest.cc:374-394 | plain loop: after its start slot is broken a thread makes at most as many further loads as its subpath has slots, and has left the loop once it has had one pass more |
| ChaseProtocol.AlarmEndsEveryThread | src/cachetest.cc:845-851 | either loop: once the handler is done, a thread has left exactly when it has had its remaining passes, whose loads are at most the length of the subpath it is on |
| ChaseProtocol.ProgressUntilDone | src/cachetest.cc:561-567 | after the handler, as long as anything is left to do somebody can step, and nothing is left exactly when every thread has returned |
| ChaseProtocol.ExperimentEnds | src/cachetest.cc:564-567 | after the handler, every schedule uses up the remaining steps one by one, so every run ends |
| MersenneTwister.SeededOutputs | src/include/MersenneTwister.h:284-298 | for every seed and number of draws, output `j` is the tempering of term `624 + j` of the recurrence and fits 32 bits |
| MersenneTwister.MTRand.Initialize | src/include/MersenneTwister.h:167-182 | the state becomes the 32-bit seed sequence, although computed in 64 bits |
| MersenneTwister.MTRand.Reload | src/include/MersenneTwister.h:184-198 | the in-place reload replaces the block by the next 624 terms of the same sequence |
| MersenneTwister.MTRand.RandInt | src/include/MersenneTwister.h:284-298 | returns the tempering of the term the cursor stands for and moves on by one, with or without a reload |
| MersenneTwister.MTRand.RandInts | src/include/MersenneTwister.h:284-298 | any number of draws across any number of reloads returns the outputs in order |
| MersenneTwister.MTRand.RandIntUpTo | src/include/MersenneTwister.h:300-317 | returns the first masked output that is at most `n`, and consumes exactly the outputs up to it |
| MersenneTwister.UsedCovers | src/include/MersenneTwister.h:302-309 | the mask is the shortest run of ones that covers `n` |
| MersenneTwister.TossSplits | src/include/MersenneTwister.h:314 | the bits tossed from an output are exactly those above the mask |
| MersenneTwister.TossKeeps | src/include/MersenneTwister.h:314-316 | an output of at most `n` is returned unchanged |
| MersenneTwister.MTRand.Draw | src/include/Distribution.hpp:95-97 | the call operator over the full range accepts the very first output unchanged |
| MersenneTwister.TwistWidens | src/include/MersenneTwister.h:128-136 | on 32-bit values the 64-bit twist is the recurrence's |
| MersenneTwister.TemperWidens | src/include/MersenneTwister.h:292-297 | on 32-bit values the 64-bit tempering is the 32-bit one |
| MersenneTwister.SeedNextWidens | src/include/MersenneTwister.h:179 | the masked 64-bit seeding step is the 32-bit one |
| MersenneTwister.TermIs | src/include/MersenneTwister.h:128-136 | in numbers, a term is put together from the top bit of the term 624 back and the low 31 bits of the one 623 back, halved, with 0x9908B0DF if that was odd, and the term 227 back |
| MersenneTwister.TemperedIs | src/include/MersenneTwister.h:293-297 | in numbers, tempering is four steps with 2048, 128 and 0x9D2C5680, 32768 and 0xEFC60000, 262144 |
| MersenneTwister.SeedNextIs | src/include/MersenneTwister.h:179 | in numbers, the seeding step is `1812433253 * (x ^ x / 2^30) + i` |
| MersenneTwister.FirstOutputOf5489 | src/include/MersenneTwister.h:284-298 | check value: with words 0, 1 and 397 as seed 5489 gives them, the first output is 3499211612 |
| MersenneTwister.TemperingIsInvertible | src/include/MersenneTwister.h:293-297 | tempering loses nothing |
| MersenneTwister.OutputsDetermineState | src/include/MersenneTwister.h:284-298 | 624 consecutive outputs determine the words they come from |
| MersenneTwister.Rebase | src/include/MersenneTwister.h:373-381 | the sequence may be restarted from any 624 consecutive terms |
| MersenneTwister.SaveAndLoad | src/include/MersenneTwister.h:364-381 | saving at any point and loading, into the same or another generator, resumes the identical stream |
| MersenneTwister.MTRand.CopyFrom | src/include/MersenneTwister.h:274-282 | a copy stands at the same place of the same sequence |
| ZipfSampler.SchrageIsExact | src/genzipf.cc:192-199 | for every state 1..m-1 the step is `16807 x mod m`, stays in 1..m-1, and no intermediate value leaves 32 bits |
| ZipfSampler.SchragePermutes | src/genzipf.cc:192-199 | the step is a permutation of 1..m-1 |
| ZipfSampler.InverseWorks | src/genzipf.cc:192-199 | multiplication by 1407677000 undoes the step, on both sides |
| ZipfSampler.StateIsPower | src/genzipf.cc:174-203 | the state after `k` steps is `16807^k seed mod m` |
| ZipfSampler.TenThousandthState | src/genzipf.cc:170 | seeded with 1, the 10000th state is 1043618065 |
| ZipfSampler.SchrageStuck | src/Distribution.cc:378-379 | the modulus is a fixed point, and 0 leads to it |
| ZipfSampler.RejectionEnds | src/genzipf.cc:142-147 | the rejection loop ends if and only if the seed is in 1..m-1, and then after one draw |
| ZipfSampler.ZipfSampler.RandVal | src/genzipf.cc:174-203 | a positive argument seeds, any other takes one step and returns the state over the modulus |
| ZipfSampler.Uniform | src/genzipf.cc:201-202 | 2147483647 times the value returned is the state |
| ZipfSampler.ZipfSampler.Normalise | src/genzipf.cc:133-140 | the constant scales the weights' total to 1 |
| ZipfSampler.Search | src/genzipf.cc:149-159 | the search yields the rank whose prefix sums bracket `z`, and one exactly when `z` is at most the scaled total |
| ZipfSampler.BracketUnique | src/genzipf.cc:149-159 | there is at most one such rank |
| ZipfSampler.ZipfSampler.Zipf | src/genzipf.cc:124-165 | one draw takes one step and returns the bracketing rank; with unchanged weights it always has one |
| ZipfSampler.ZipfSampler.Ranks | src/genzipf.cc:124-165 | any number of draws with unchanged weights yields ranks in range, each the bracketing rank of its state |
| PageTable.PageTable.AddPages | src/util/page-types.c:545-565 | a whole run from an empty table: counted to the end if and only if the accepted pages have at most 8191 different non-zero values, and then with exact counts |
| PageTable.PageTable.AddPage | src/util/page-types.c:545-565 | one page: normalised, filtered, counted; it ends the program exactly when its value is new and no slot is left; what normalising does to each bit is stated below |
| PageTable.PageTable.HashSlot | src/util/page-types.c:518-543 | the slot of a value, claimed if the value is new; none exactly when it is new and the table is full |
| PageTable.PageTable.Probe | src/util/page-types.c:531-539 | the first slot from the value's home on, wrapping to slot 1, that is free or holds the value |
| PageTable.Insert | src/util/page-types.c:534-537 | a free slot at the end of a probe proves the value absent, and claiming it leaves no value with two slots and no free slot between a value's home and its slot |
| PageTable.CountOneMore | src/util/page-types.c:563-564 | counting a page keeps every slot's count equal to the number of pages with its value, and the sum equal to the total |
| PageTable.FullMeansAllValues | src/util/page-types.c:530-542 | the table is full exactly when 8191 different non-zero values have been counted |
| PageTable.PageTable.ShowSummary | src/util/page-types.c:383-402 | the rows list every value counted exactly once, with its exact count, and their counts add up to the total, which is the number of pages |
| PageTable.BitMaskOk | src/util/page-types.c:409-424 | a page passes exactly when every filter passes |
| PageTable.FilterForSome | src/util/page-types.c:413-416 | a filter with all 64 bits asked for passes exactly the pages that have one of its masked bits |
| PageTable.FilterForExactly | src/util/page-types.c:417-420 | any other passes exactly the pages whose masked bits are, position by position, the bits asked for |
| PageTable.ExpansionIsLossless | src/util/page-types.c:426-443 | on flags with the upper 16 bits clear, telling overloaded flags apart can be undone |
| PageTable.SlabBit35 | src/util/page-types.c:429-431 | on slab pages (bit 7) bit 35 moves to bit 49 |
| PageTable.SlabBit6 | src/util/page-types.c:432-433 | on slab pages bit 6 moves to bit 50 |
| PageTable.SlabBit1 | src/util/page-types.c:434-435 | on slab pages bit 1 moves to bit 51 |
| PageTable.NotSlabBits | src/util/page-types.c:428-436 | on other pages bits 1, 6, 35 and 49 to 51 stay |
| PageTable.ReclaimBit9 | src/util/page-types.c:438-440 | with bit 9 and without bit 8, bit 9 moves to bit 48 |
| PageTable.NotReclaimedBits | src/util/page-types.c:438-440 | otherwise bits 9 and 48 stay |
| PageTable.OtherBits | src/util/page-types.c:426-443 | the expansion touches no bits but 1, 6, 9, 35 and 48 to 51 |
| PageTable.HackersHidden | src/util/page-types.c:447-448 | in non-raw mode bits 32 to 47 are clear |
| PageTable.CompoundHead | src/util/page-types.c:450-452 | bit 15 survives exactly when bit 17 is set |
| PageTable.CompoundTail | src/util/page-types.c:450-452 | bit 16 survives exactly when bit 17 is set |
| PageTable.NothingElseHidden | src/util/page-types.c:445-455 | every other bit is that of the expansion |
| PageTable.NormalisedIs | src/util/page-types.c:457-465 | raw mode expands and hides nothing, otherwise the expansion is hidden from as above |
| PageWalk.WalkTask | src/util/page-types.c:617-637 | the ranges walked are increasing, disjoint and cover exactly the requested pages that are mapped; the assertion holds and the walk ends |
| PageWalk.ClippedSize | src/util/page-types.c:639-647 | the clipped range covers exactly the requested pages below `ULONG_MAX` |
| PageWalk.RangePrinter.ShowPageRange | src/util/page-types.c:348-373 | printed lines and open run always expand to exactly the pages fed, and no two neighbouring lines could be merged |
| PageWalk.RangePrinter.Drain | src/util/page-types.c:991-992 | after draining, the lines expand to the pages fed if and only if the last page is not the highest one without flags |
| PageWalk.HighestPageIsLost | src/util/page-types.c:348-373 | `show_page_range` by itself, fed only that page and drained, prints nothing |
| PageWalk.PrintAll | src/util/page-types.c:348-373 | a whole listing loses a page exactly when the drain call absorbs the last one; whenever all offsets are below the highest it shows the very frames and flags fed, in order, and in pid mode the virtual offsets too |
| PageWalk.WalkPfn | src/util/page-types.c:568-589 | the frames of a range are fed in order with their flags, none lost or repeated however short the reads are, up to the count or the end of the file; the program ends only behind the last word that can be asked for |
| PageWalk.WalkVma | src/util/page-types.c:592-615 | for a mapped range, exactly these pages are fed, in increasing order, none left out and none twice: those whose page table entry is at least 2^63 and has a remainder by 2^55 that is not 0 and numbers a frame there is, with that remainder as frame and the frame's flags |
| PageWalk.PresentLists | src/util/page-types.c:592-615 | what the loop collects page by page is exactly that list |
| PageWalk.WalkTaskPages | src/util/page-types.c:617-637 | for a requested range of a process, exactly those of these pages that are mapped are fed, in increasing order |
| PageWalk.MappedLists | src/util/page-types.c:617-637 | what is collected over the mapped pages is exactly that list |
| PageWalk.WalkRequest | src/util/page-types.c:649-665 | one request in either mode; it fails only if something it asks for lies behind the last word that can be read |
| PageWalk.AllFrames | src/util/page-types.c:655-660 | without a requested range every frame there is gets listed, from 0 on, with its flags |
| PageWalk.AllMapped | src/util/page-types.c:655-663 | without a requested range of a process, exactly its mapped pages that are present are listed |
| PageTypes.AddPage | src/util/page-types.c:545-565 | one page is normalised, filtered, listed and counted; listing and count always account for exactly the same pages; false exactly when the page is wanted and there is no room for its value |
| PageTypes.Run | src/util/page-types.c:649-665 | a run over any requests, with or without pid: the lines expand to exactly the pages asked for that pass the filters, in walk order and with normalised flags; the summary counts exactly those; and as long as everything can be read the run ends regularly if and only if they have at most 8191 different non-zero values |
| PageTypes.PassedShown | src/util/page-types.c:545-558 | hiding virtual offsets and normalising and filtering pages do not interfere |
| PageWalk.PagemapPfn | src/util/page-types.c:288-298 | a frame number taken from a page table entry has 55 bits (its value is in `PageWalk.PfnIs`) |
| PageWalk.PfnIs | src/util/page-types.c:288-298 | an entry of at least 2^63 yields its remainder by 2^55, a smaller one 0 |
| PageWalk.DrainOutcome | src/util/page-types.c:353-357 | the drain call continues the open run exactly in that case, and otherwise printing the run completes the listing |
| FrameSearch.Buffer.FindContiguousRange | src/Buffer.cc:113-157 | succeeds if and only if the frames hold a long enough run, with the pages of the lowest such run in order, unless a lowest frame 1 is misread |
| FrameSearch.MisreadIsRun | src/Buffer.cc:125-143 | a misread happens exactly when frame 1 is the lowest and starts a run of one frame too few |
| FrameSearch.MisreadIsWrong | src/Buffer.cc:125-143 | the result is then never a correct answer |
| FrameSearch.RoundedTo4KB | src/Buffer.cc:10-14 | masking rounds up: short of overflow, the multiple of 4 KB at or above the address, less than 4 KB away |
| FrameSearch.RoundedTo2MB | src/Buffer.cc:10-14 | the same for 2 MB |
| FrameSearch.RoundedTo1GB | src/Buffer.cc:10-14 | the same for 1 GB |
| FrameSearch.PagesSuffice | src/Buffer.cc:128 | the pages asked for are enough and not one too many |
| Tokens.Split | src/cachetest.cc:158-171 | for any non-empty delimiter `split` ends; its tokens join to the input and none contains the delimiter |
| Tokens.SplitThenJoin | src/cachetest.cc:158-171 | joining the tokens of any string gives the string back |
| Tokens.JoinThenSplit | src/cachetest.cc:158-171 | splitting a join gives the tokens back if and only if every token is cut off leftmost |
| Tokens.OneCharacter | src/cachetest.cc:158-171 | with a one-character delimiter, tokens free of it are given back |
| Tokens.FreeIsNotEnough | src/cachetest.cc:158-171 | "a" and "b" joined by "aa" do not come back |

## Left out

- FillInvalid: the three overrun bytes are modelled in the one element in use they fall into, on a little-endian machine.
- DoDistribute: the uniform builder is stated for lines of at least two elements; with one element per line its stop test cannot fire and the scan would run past the line. Large buffers with slabs, which it passes on to `doHugeDistribution`, are not part of this model.
- FillLines: the uniform and the Zipf builder repeat the same loop; the model has it once, with the number of elements a line may give out as a parameter.
- Shuffle: `std::shuffle` is modelled by the permutation it happens to apply, not by its draws from the generator.
- FirstOutputOf5489: word 397 of the seeded state is given, not computed from the seed.
- RandIntUpTo: how soon an output is accepted is a property of the recurrence; the index of the first accepted output is given.
- Load: loading is stated for arrays of 32-bit words and a count of at most 624, as `save` writes them.
- Zipf: exact real arithmetic with arbitrary positive weights in place of floating point and `pow`; rounding is not modelled.
- DrawZipf: a draw that never ends is a result of the method, since a method of the model has to end.
- WalkPfn: the walk is modelled before its pages are added, while the program adds each page as it comes; what is printed before the program is ended early is not stated.
- ShowPageRange: the run counter is unbounded; it would wrap after 2^64 pages.
- AddPage: injecting and forgetting hardware poison, and listing pages one by one instead of in ranges.
- Round: page counts are computed on unbounded numbers; the masking form is shown correct separately, for pages of 4 KB, 2 MB and 1 GB only.
- StartTest: every thread starts at the first slot of its subpath, since the spreading constant is 0; the protocol itself allows any offset below the subpath's length.
- Element size is fixed at 4 bytes, the size of `element_size_t`.
- Weak memory: loads and handler writes are assumed sequentially consistent.
- `WeightedUniform` and `ZipfDistribution` in `src/Distribution.cc`: the first returns the last probe of its search instead of the result and is never selected, the second writes no path.
- `LinearDistribution`, which links the lines in address order, and `doHugeDistribution`, which fills like the uniform builder behind an address translation.
- The `WRITEBACK`, `DEBUG` and `FIBRE_YIELD` variants of the loops; libfibre beyond migration and barrier as steps.
- `MTRand` seeding from an array or from the system, its stream operators, and the real-valued and normal draws.
- Reading `/proc`, allocation, performance counters, affinity, cache eviction, options and output formats; `slabinfo`, the MSR tools, kernel modules and scripts.
