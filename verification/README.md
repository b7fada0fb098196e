# clambench: what makes its measurements valid

clambench measures latencies and bandwidths. A number it prints means something only if the pointer
chase behind it really is one long cycle, if two threads really take turns, if every pair of processors
really was tested, if the bytes that are counted really were fetched. This project models the data
structures and protocols behind those measurements and proves what they are built for: for every size,
every stream of random numbers, every rounding mode, every interleaving.

`dafny verify dfyconfig.toml` checks the whole project.

## Components

**Pointer chases** (`Cycles`, `Shuffle`, `ReachableCycles`, `PatternFill`, `PageByPage`, `PageOrder`, `LoadSums`,
`LatencyRuns`, `ByteFill`, `TlbRun`, `ParallelRuns`). The builders are methods over arrays, written as the C code writes
them. `rand()` is the class `Rand`: an arbitrary stream of naturals and a position in it. `Shuffle` says as a function
which table the in-place swaps produce, and proves by an explicit witness (owner, distance and length of every cycle)
that the table is one cycle; `ReachableCycles` says exactly which cycles can result. Each builder is proved against that
function, and `Cycles` carries the cycle over to memory, where most cells are not part of the pattern. On top come the
two-level page order, the 64-bit variant with one cycle per residue class, the TLB layout, the parallel chains and the
array of pointers.

**Half precision** (`HalfFormat`, `HalfRounding`, `HalfConvert`, `HalfFloat`). Bit patterns are naturals below
2^16, 2^32 and 2^64. `HalfRounding` states what IEEE 754-2019 prescribes (sections 3.4, 4.3 and 7.4) as a relation
between an exact number and a half that quantifies over all halves; it proves that exactly one half satisfies it and
that the conversions, which work with shifts and masks, return that one.

**Ping-pong** (`PingPong`, `OwnedLines`, `LatencyThreads`). Two threads over sequentially consistent memory. A
schedule says which of them makes the next memory access; in the versions without compare-and-swap a load and the
store after it are separate accesses. The thread bodies are methods of a class over shared words, proved against the
machines about which the theorems speak.

**Pair scheduler** (`PairMatrix`, `PairScheduler`, `PairOrder`, `TargetPages`). The n x n state matrix, filled round by
round for each cache line offset, and the words that the tests bounce. The result of a test is taken from an arbitrary
stream.

**Instruction buffers** (`X86`, `InstructionBuffer`, `InstructionCounts`, `CallLayout`, `BranchBuffer`) and **bytes
read** (`ScalarRead`). The generators write bytes into an array. A small decoder and stepper for the instructions that
occur (Intel Software Developer's Manual, volume 2, entries CALL, JMP, NOP, RET and XOR) records the address of every
byte fetched, and the theorems compare these with what the bandwidth figure counts. `scalar_read` is modelled for any
number type with any addition and multiplication, so its order of operations and their rounding are those of the
source.

`Common` holds what several components share.

## Where the code and its comments or its purpose differ

- `MemoryLatency/MemoryLatency.c:453` announces Sattolo's algorithm, which produces every cycle. The partner of
  position i is drawn below i - 1 rather than below i, so the result is still always one cycle, but every cycle can
  result if and only if there are at most two positions (`EveryCycleIsProduced`). A cycle can result if and only if no
  position i >= 2 leads to i - 1 directly or through larger positions only (`ProducedExactly`). For n >= 2 positions
  these are (n - 2)! cycles (`TablesCounted`), each from one sequence of partners (`DrawsAreDetermined`).
- `MemoryLatency/MemoryLatency.c:392` says that a left-over part page is handled separately. It enters the page table
  but no loop fills it, and the chase runs into it. The chase stays on filled cells if and only if the list is a whole
  number of pages (`SafeExactlyForWholePages`); the default size of 24567 KB is not
  (`UnsafeSizesLeaveTheFilledCells`).
- `MemoryLatency/MemoryLatency.c:735` is meant to catch any bad access. The byte count given to `memset` is a count of
  cells, so exactly the first quarter of the list is poisoned, whatever it held (`QuarterIsPoisoned`), and the other
  cells off the pattern stay as they were (`BuildTlbPattern`).
- The reference run of the TLB test uses as many cache lines as the TLB run uses pages only if that number is a
  multiple of 16 (`ReferenceMatches`).
- A linear instruction buffer fetches seven bytes less per call than the figure counts (`LinearFillFetches`); the
  call/return buffer fetches exactly what is counted (`EveryByteOnce`). A buffer fetches one sequence of addresses only
  (`FetchesUnique`).
- The targets of one round's tests are always on different pages (`TargetsAreOnSeparatePages`), but each 64 offsets move
  them on by one page while the allocated block stays as it is (`CoherencyLatency/PThreadsCoherencyLatency.c:78-122`).
  With at least two processors and a positive parallelism factor, all targets of all rounds are inside the block if and
  only if there are at most 64 * (factor - min(factor, processors / 2) + 1) offsets; up to 64 always fit (`RunOffsets`).
- `CoherencyLatency/PThreadsCoherencyLatency.c:225` always runs the version without compare-and-swap.
- The owned-line test ends with 2N - 1 and 2N in its lines if and only if N is positive (`OwnedRunsFinish`).

## What callers must provide

Preconditions are those under which the C code means what it says. `FillPatternArr` needs an element count below 2^31
(its loop variables are `int`) and at least one cell per element. `FillPageByPage` needs lists below 4 GiB, where
`pageCount * PAGE_SIZE` fits 32 bits, and an element size that divides a page. The latency tests need a positive size
below 4 GiB. `FillInstructionArray` needs a positive size, for the call layout up to 4 GiB so that displacements fit
signed 32 bits, and a supported instruction length: for any other the C code goes on with an uninitialised pointer.
Tests that chase by page need a size for which that is safe (`SizeIsSafe`), which is proved to be the exact condition;
for the TLB test that is the size of its reference run. A preallocated array must hold the list, and its cells are
32-bit numbers. What the allocator leaves in a new array is an arbitrary function.

## Model

| member | source | states |
|---|---|---|
| Cycles.LapFromAnywhere | MemoryLatency/MemoryLatency.c:520-524 | on a table that is one cycle a lap comes back to wherever it began |
| Cycles.IterInjective | MemoryLatency/MemoryLatency.c:612-617 | chases started at different entries of one cycle never meet |
| Cycles.ChaseIsConjugate | MemoryLatency/MemoryLatency.c:520-524 | chasing through memory that holds a table at mapped addresses is chasing through the table, seen through the map |
| Cycles.CycleInMemory | MemoryLatency/MemoryLatency.c:457-472 | if the table is one cycle and the map injective, the memory is one lap: n loads visit each pattern cell once, no other cell, and return |
| Cycles.LapRepeats | MemoryLatency/MemoryLatency.c:520-524 | no load of a run of any length ever leaves the pattern, and load n + k is of the cell of load k |
| Cycles.AnyWindowLoadsOnce | MemoryLatency/MemoryLatency.c:520-524 | any n consecutive loads, wherever they begin, load each pattern cell exactly once |
| Cycles.EvenCoverage | MemoryLatency/MemoryLatency.c:520-524 | q laps and r further loads load every cell q or q + 1 times, exactly q if r is 0 |
| Shuffle.SwapMerges | MemoryLatency/MemoryLatency.c:465-471 | the loop invariant: each cycle holds exactly one position below iter, and a swap merges two cycles |
| Shuffle.ShuffleFromIsSingleCycle | MemoryLatency/MemoryLatency.c:465-471 | from any table with that invariant the remaining swaps lead to one cycle, for every stream of draws |
| Shuffle.ShuffledIsSingleCycle | MemoryLatency/MemoryLatency.c:457-472 | for every size and every stream the shuffle is one single cycle through all positions |
| Shuffle.UpperPartIsFinal | MemoryLatency/MemoryLatency.c:465-471 | a position that has been swapped is never touched again |
| Shuffle.LastNeverLeadsToItsPredecessor | MemoryLatency/MemoryLatency.c:467 | because the draw excludes iter - 1, the last position never leads to the one before it |
| ReachableCycles.ShuffledIsInsert | MemoryLatency/MemoryLatency.c:465-471 | a shuffle of n positions is a shuffle of n - 1, on the rest of the stream, with the last position inserted before its partner |
| ReachableCycles.ShuffledFromDraws | MemoryLatency/MemoryLatency.c:465-471 | in terms of the numbers drawn: the last of n >= 3 positions is inserted before draw modulo n - 2, and the rest is shuffled with the draws after it |
| ReachableCycles.FallsKept | MemoryLatency/MemoryLatency.c:465-471 | taking the last position out of its cycle leaves unchanged which of the others lead back to the one before them |
| ReachableCycles.ProducedExactly | MemoryLatency/MemoryLatency.c:453-472 | a table can result if and only if it is one cycle in which no position from 2 on leads to the one before it directly or through larger positions only |
| ReachableCycles.UnreachableCycle | MemoryLatency/MemoryLatency.c:453-467 | for every size from three on, a cycle that Sattolo's algorithm produces and this code never does |
| ReachableCycles.EveryCycleIsProduced | MemoryLatency/MemoryLatency.c:453-472 | every cycle of a size can result, as the announced algorithm promises, if and only if the size is at most two |
| ReachableCycles.DrawsAreDetermined | MemoryLatency/MemoryLatency.c:465-471 | two shuffles give the same table if and only if every position has the same partner in both |
| ReachableCycles.AllTablesAreProduced | MemoryLatency/MemoryLatency.c:453-472 | the tables that can result are those built by inserting positions one by one before a partner that can be drawn |
| ReachableCycles.TablesCounted | MemoryLatency/MemoryLatency.c:453-472 | for every size from two on exactly (n - 2)! tables can result |
| PatternFill.Rand.Next | MemoryLatency/MemoryLatency.c:467 | `rand()` as the next element of an arbitrary stream |
| PatternFill.DrawPartner | MemoryLatency/MemoryLatency.c:467 | the partner is the next number drawn modulo iter - 1, and for position 1 it is 0 and no number is drawn |
| PatternFill.SwapCells | MemoryLatency/MemoryLatency.c:468-470 | exchanging two pattern cells swaps the two table entries and leaves every cell off the pattern |
| PatternFill.FillIdentity | MemoryLatency/MemoryLatency.c:460-462 | every element leads to itself, other cells unchanged |
| PatternFill.FillAndShuffle | MemoryLatency/MemoryLatency.c:460-471 | the in-place loops leave the shuffle of the stream in the pattern cells, nothing else changed, and the number of draws used |
| PatternFill.DrawPattern | MemoryLatency/MemoryLatency.c:545-554 | the same for a table of its own, as in RunAopTest and RunTlbTest |
| PatternFill.FillPatternArr | MemoryLatency/MemoryLatency.c:457-472 | the list holds the shuffle in every increment-th cell, relative to the pointer passed, and every other cell is as before |
| PatternFill.FilledListIsOneCycle | MemoryLatency/MemoryLatency.c:457-472 | a filled list is one lap from cell 0 over exactly the multiples of the stride, all values inside the list |
| PatternFill.FillPatternArr64 | MemoryLatency/MemoryLatency.c:478-495 | each residue class holds a shuffle of its own part of the stream, and cells behind the last whole element are unchanged |
| PatternFill.FillClass | MemoryLatency/MemoryLatency.c:481-494 | a pass over one offset keeps all classes filled before |
| PatternFill.OtherClassKept | MemoryLatency/MemoryLatency.c:481-494 | writing one residue class never disturbs another |
| PatternFill.OneCyclePerResidueClass | MemoryLatency/MemoryLatency.c:478-495 | the list splits into exactly increment disjoint cycles, each covering its residue class, together covering every cell |
| PageByPage.LinkPage | MemoryLatency/MemoryLatency.c:404-410 | the line that led back to the page's first line leads to the next page, the others stay within the page |
| PageByPage.FillPage | MemoryLatency/MemoryLatency.c:400-410 | one page filled and linked, all other cells unchanged |
| PageByPage.NextPage | MemoryLatency/MemoryLatency.c:398-411 | linking a page keeps the pages linked before it |
| PageByPage.DrawPageTable | MemoryLatency/MemoryLatency.c:396-397 | the order of the pages is a shuffle of their numbers |
| PageByPage.FillPageByPage | MemoryLatency/MemoryLatency.c:384-415 | with more than two pages every whole page is linked to the one that the page table names and nothing else is written; otherwise the list is filled as one pattern |
| PageOrder.LeavesPage | MemoryLatency/MemoryLatency.c:404-410 | a chase is in a page for exactly as many steps as it has lines, then at the first line of the next |
| PageOrder.EntersPageAtFirstLine | MemoryLatency/MemoryLatency.c:398-411 | pages are entered in the order of the page table, always at the first line |
| PageOrder.StepWithinPage | MemoryLatency/MemoryLatency.c:398-411 | step l within the i-th page is at the l-th line of that page's own shuffle |
| PageOrder.PageIsCompletedBeforeTheNext | MemoryLatency/MemoryLatency.c:384-411 | every line of a page is visited between its first line and the first line of the next page |
| PageOrder.WholePagesAreOneCycle | MemoryLatency/MemoryLatency.c:384-415 | for whole pages, more than two, the chase is one lap over all cache lines of the list, for every stream |
| PageOrder.PartPageIsEnteredUnfilled | MemoryLatency/MemoryLatency.c:392-397 | with a part page left over, the chase arrives at a cell that nothing filled, for every stream |
| PageOrder.SafeExactlyForWholePages | MemoryLatency/MemoryLatency.c:384-415 | beyond two pages the chase stays on filled cells if and only if the list is a whole number of pages |
| LoadSums.LapsSum | MemoryLatency/MemoryLatency.c:521-524 | over q whole laps the checksum is q times the sum of all pattern cells |
| LatencyRuns.ChaseLoop | MemoryLatency/MemoryLatency.c:520-524 | no load is out of bounds; the cell reached and the checksum modulo 2^32 |
| LatencyRuns.FillForTest | MemoryLatency/MemoryLatency.c:513-514 | the list is what the chosen builder leaves behind, and one lap over all cache lines |
| LatencyRuns.OrderIsChosen | MemoryLatency/MemoryLatency.c:513-514 | page by page, from 12 KB on, loads 64 * i, ..., 64 * i + 63 are all of one page, beginning with its first cell, and the pages follow in the order of their shuffle; otherwise the list is the shuffle of all lines |
| LatencyRuns.ArrayFor | MemoryLatency/MemoryLatency.c:504-511 | the test works on the caller's array if there is one, else on a new one with arbitrary contents |
| LatencyRuns.RunTest | MemoryLatency/MemoryLatency.c:497-532 | the tested list is one lap over all cache lines in the order chosen, each line is loaded q or q + 1 times, over whole laps the checksum does not depend on the random draws, and a preallocated array is not written behind the list |
| LatencyRuns.UnsafeSizesLeaveTheFilledCells | MemoryLatency/MemoryLatency.c:28-30 | from three pages on, a size is safe to chase by page if and only if it is a multiple of 4 KB; the default size 24567 is not |
| LatencyRuns.CellsLoadedEvenly | MemoryLatency/MemoryLatency.c:521-524 | how often every cell is loaded, and the checksum of whole laps, for any injective pattern |
| ByteFill.Memset | MemoryLatency/MemoryLatency.c:735 | memset byte by byte: the value converted to a byte, the size in bytes, every cell afterwards |
| ByteFill.AllOnesExactly | MemoryLatency/MemoryLatency.c:735 | a cell becomes all ones, whatever it held, if and only if all four of its bytes are among those set |
| TlbRun.Poison | MemoryLatency/MemoryLatency.c:735 | cells whose bytes are all among the first list_size are poisoned, those behind them keep their values |
| TlbRun.QuarterIsPoisoned | MemoryLatency/MemoryLatency.c:735 | of the list's cells exactly the first quarter is poisoned whatever it held |
| TlbRun.BuildTlbPattern | MemoryLatency/MemoryLatency.c:695-744 | the list holds the shuffle at the translated addresses; the other cells are poisoned in the first quarter and as allocated above |
| TlbRun.TlbIsOneCellPerPage | MemoryLatency/MemoryLatency.c:695-744 | one lap from A[0] of size_kb / 4 loads, or of one below 4 KB, in which every page inside the list is loaded exactly once; all cells are in bounds |
| TlbRun.TlbLines | MemoryLatency/MemoryLatency.c:738-742 | page i is chased at its line i modulo 64, so 64 neighbouring pages at different lines |
| TlbRun.TlbIsConjugate | MemoryLatency/MemoryLatency.c:741-743 | load k is of the image of the k-th entry of the shuffle |
| TlbRun.ChasePages | MemoryLatency/MemoryLatency.c:695-763 | a lap loads every page of the list once, a run q or q + 1 times, and the checksum of whole laps is the same for every stream |
| TlbRun.RunTlbTest | MemoryLatency/MemoryLatency.c:692-772 | the same with the reference run behind it, which laps evenly over its own list in the order chosen; if the array is preallocated, at its beginning, leaving the rest of the page layout |
| TlbRun.ReferenceMatches | MemoryLatency/MemoryLatency.c:766-768 | the reference run chases as many lines as there were pages if and only if that number is a multiple of 16 |
| ParallelRuns.AdvanceChains | MemoryLatency/MemoryLatency.c:613-616 | one round takes every chain one step along its cycle |
| ParallelRuns.RunMlpTest | MemoryLatency/MemoryLatency.c:590-618 | after k rounds offset j is the k-fold image of its start |
| ParallelRuns.ChainsNeverMeet | MemoryLatency/MemoryLatency.c:606-617 | after any number of rounds all offsets are in bounds and pairwise distinct |
| ParallelRuns.ChainsStartInBounds | MemoryLatency/MemoryLatency.c:607 | all chains start inside the list if and only if there are no more chains than cache lines |
| ParallelRuns.ScatterPointers | MemoryLatency/MemoryLatency.c:566-569 | pointer i leads to the line of entry i of the table and holds i + 1 after all writes: no write overwrites another |
| ParallelRuns.SumThroughPointers | MemoryLatency/MemoryLatency.c:574-577 | what the measured loop, with its inner loop cut short at the end, adds up |
| ParallelRuns.ReadSumClosed | MemoryLatency/MemoryLatency.c:574-577 | q * n + r reads add up to q * n(n+1)/2 + r(r+1)/2 |
| ParallelRuns.RunAopTest | MemoryLatency/MemoryLatency.c:535-577 | the checksum in closed form modulo 2^32, and that the pointers lead to all lines in the order of the shuffle, for every iteration count and every stream |
| HalfFormat.GridIncreases | GpuMemLatency/OpenCL/include/CL/cl_platform.h:240-288 | larger bit patterns denote strictly larger numbers, across the boundaries of binades, in each of the three formats |
| HalfFormat.HMagNormal | GpuMemLatency/OpenCL/include/CL/cl_platform.h:240-288 | a normal half is (1024 + fraction) * 2^(exponent + 1049) units, and the next pattern is one unit in the last place larger, across binades |
| HalfFormat.HMagSubnormal | GpuMemLatency/OpenCL/include/CL/cl_platform.h:240-288 | a subnormal half is its fraction times 2^1050 units |
| HalfFormat.FMagNormal | GpuMemLatency/OpenCL/include/CL/cl_platform.h:240-288 | a normal float is (2^23 + fraction) * 2^(exponent + 924) units |
| HalfFormat.DMagNormal | GpuMemLatency/OpenCL/include/CL/cl_platform.h:240-288 | a normal double is (2^52 + fraction) * 2^(exponent - 1) units |
| HalfFloat.OneInThreeFormats | GpuMemLatency/OpenCL/include/CL/cl_platform.h:240-288 | the three formats are counted in one unit: their patterns of 1.0 agree, and rounding to infinity begins at 65520 |
| HalfRounding.RoundedIsPrescribed | GpuMemLatency/OpenCL/include/CL/cl_half.h:184-228 | the rounding function gives what the standard prescribes for every number, sign and mode |
| HalfRounding.PrescribedIsUnique | GpuMemLatency/OpenCL/include/CL/cl_half.h:184-228 | the standard leaves no choice: a half is prescribed if and only if it is the one that function gives |
| HalfRounding.ModesRelate | GpuMemLatency/OpenCL/include/CL/cl_half.h:61-103 | negation swaps the directed modes; these are equal exactly for representable numbers and neighbours otherwise; the other modes give one of them |
| HalfRounding.ExactIsKept | GpuMemLatency/OpenCL/include/CL/cl_half.h:184-228 | a number that a half represents is rounded to that half in every mode |
| HalfConvert.OverflowIsRounded | GpuMemLatency/OpenCL/include/CL/cl_half.h:61-82 | from 2^16 on the overflow helper gives the prescribed half in all modes |
| HalfConvert.UnderflowIsRounded | GpuMemLatency/OpenCL/include/CL/cl_half.h:87-103 | strictly between zero and 2^-25 the underflow helper gives the prescribed half in all modes |
| HalfConvert.RoundedFromRest | GpuMemLatency/OpenCL/include/CL/cl_half.h:310-354 | the bits shifted out decide between the truncated pattern and its successor as the standard demands |
| HalfConvert.RoundAndPack | GpuMemLatency/OpenCL/include/CL/cl_half.h:310-354 | rounding, the carry into the exponent and packing give the rounded number |
| HalfConvert.CarryAndPack | GpuMemLatency/OpenCL/include/CL/cl_half.h:347-354 | a mantissa of 0x400 becomes the next binade, or infinity behind the last one |
| HalfConvert.DoubleLocated | GpuMemLatency/OpenCL/include/CL/cl_half.h:256-312 | in the normal and in the denormal branch, the shifted mantissa and the bits shifted out locate the double exactly between two halves |
| HalfConvert.FromFiniteDouble | GpuMemLatency/OpenCL/include/CL/cl_half.h:252-354 | every finite double that is not zero, subnormals included, is rounded as the standard prescribes |
| HalfConvert.FromDouble | GpuMemLatency/OpenCL/include/CL/cl_half.h:235-355 | for every bit pattern: the rounded value, infinity for infinity, a quiet NaN with sign and leading payload kept |
| HalfConvert.NanHalf | GpuMemLatency/OpenCL/include/CL/cl_half.h:262-270 | a NaN keeps its sign and payload and comes out quiet |
| HalfConvert.FiniteDoubleIsPrescribed | GpuMemLatency/OpenCL/include/CL/cl_half.h:235-355 | for every finite double and mode a half is the result if and only if IEEE 754-2019 prescribes it |
| HalfConvert.DoubleModesRelate | GpuMemLatency/OpenCL/include/CL/cl_half.h:296-354 | for every double but NaN: how the four results and those of its negation relate |
| HalfFloat.FloatLocated | GpuMemLatency/OpenCL/include/CL/cl_half.h:130-186 | the same location for floats |
| HalfFloat.FromFloat | GpuMemLatency/OpenCL/include/CL/cl_half.h:109-229 | for every float bit pattern: the rounded value, infinity, or a quiet NaN with its payload |
| HalfFloat.FiniteFloatIsPrescribed | GpuMemLatency/OpenCL/include/CL/cl_half.h:109-229 | for every finite float and mode a half is the result if and only if IEEE 754-2019 prescribes it |
| HalfFloat.FloatModesRelate | GpuMemLatency/OpenCL/include/CL/cl_half.h:170-228 | for every float but NaN: how the four results and those of its negation relate |
| HalfFloat.Normalize | GpuMemLatency/OpenCL/include/CL/cl_half.h:415-420 | the loop moves the leading one into place in at most ten shifts |
| HalfFloat.ToFloat | GpuMemLatency/OpenCL/include/CL/cl_half.h:361-428 | the float denotes exactly what the half denotes |
| HalfFloat.FloatIsDetermined | GpuMemLatency/OpenCL/include/CL/cl_half.h:361-428 | at most one float denotes what a given half denotes |
| HalfFloat.HalfFloatHalf | GpuMemLatency/OpenCL/include/CL/cl_half.h:109-428 | to float and back in any mode gives the half itself, or for a NaN its quiet form |
| HalfFloat.FloatHalfFloat | GpuMemLatency/OpenCL/include/CL/cl_half.h:109-428 | a float that some half represents survives the way to half and back, in any mode |
| HalfFloat.FloatAndDoubleAgree | GpuMemLatency/OpenCL/include/CL/cl_half.h:109-355 | converting a float directly or through its exact widening gives the same half, for all bit patterns and whether or not the widening makes a signalling NaN quiet |
| HalfFloat.WideningExists | GpuMemLatency/OpenCL/include/CL/cl_half.h:235-355 | every float, subnormals and NaNs included, has an exact widening |
| PingPong.StepKeepsInv | CoherencyLatency/PThreadsCoherencyLatency.c:257-262 | whose turn it is, what both threads wait for, and that the one that is not on turn is never about to store |
| PingPong.AlternatesInEveryInterleaving | CoherencyLatency/PThreadsCoherencyLatency.c:216-265 | in every interleaving at most one thread is between load and store, and the word has taken the values 1, 2, 3, ... in order, written by the threads in turn |
| PingPong.RunRefines | CoherencyLatency/PThreadsCoherencyLatency.c:231-265 | every run of the plain version is a run of the compare-and-swap version under the schedule of its stores |
| PingPong.TurnProgresses | CoherencyLatency/PThreadsCoherencyLatency.c:257-262 | until the end exactly the thread on turn makes progress and the other one spins |
| PingPong.FairRunsFinish | CoherencyLatency/PThreadsCoherencyLatency.c:208-265 | any schedule that lets both threads run 4N times ends the test with 2N in the word and exactly N writes by each |
| PingPong.CasRunIsPlainRun | CoherencyLatency/CoherencyLatency.cpp:205-215 | conversely, every run of the compare-and-swap version is a run of the plain one in which nobody interferes |
| PingPong.CasAlternates | CoherencyLatency/CoherencyLatency.cpp:155-215 | under every schedule of compare-and-swaps the word has taken the values 1, 2, 3, ... in order, written by the threads in turn |
| PingPong.CasFairRunsFinish | CoherencyLatency/CoherencyLatency.cpp:155-215 | any schedule that lets both threads run 2N times ends the test with 2N in the word and exactly N writes by each |
| OwnedLines.OwnedStepRefines | CoherencyLatency/CoherencyLatency.cpp:227-233 | step for step, the larger of the two lines does what the single word does, and the lines stay one apart |
| OwnedLines.OwnedStartIsReached | CoherencyLatency/CoherencyLatency.cpp:183-192 | the initial values are those of the single-word test after the first write |
| OwnedLines.OwnedRunsAreSingleWordRuns | CoherencyLatency/CoherencyLatency.cpp:183-236 | every reachable state differs by exactly one between the lines and is a single-word run |
| OwnedLines.NeverStuck | CoherencyLatency/CoherencyLatency.cpp:223-236 | in every reachable state that is not final some unfinished thread's next access makes progress |
| OwnedLines.OwnedRunsFinish | CoherencyLatency/CoherencyLatency.cpp:171-236 | fair runs end; the lines then hold 2N - 1 and 2N if and only if N is positive |
| LatencyThreads.LatencyThread.CasTurn | CoherencyLatency/PThreadsCoherencyLatency.c:241-243 | the whole new state after one compare-and-swap |
| LatencyThreads.LatencyThread.PlainTurn | CoherencyLatency/PThreadsCoherencyLatency.c:257-262 | the whole new state after one load and test, or one store |
| LatencyThreads.RunNoLockTest | CoherencyLatency/PThreadsCoherencyLatency.c:216-225 | two threads on one word do what the interleaved machine does, for every schedule |
| LatencyThreads.RunCasTest | CoherencyLatency/CoherencyLatency.cpp:155-169 | the same with compare-and-swap |
| LatencyThreads.RunOwnedTest | CoherencyLatency/CoherencyLatency.cpp:171-197 | the same with one line per thread, each reading the other's |
| PairMatrix.ValidMeansUnblocked | CoherencyLatency/PThreadsCoherencyLatency.c:103-112 | the scan of two rows and two columns finds nothing running if and only if no selected pair shares a processor |
| PairScheduler.ValidPair | CoherencyLatency/PThreadsCoherencyLatency.c:103-112 | the loop with its early exit decides exactly that scan |
| PairScheduler.ConsiderPair | CoherencyLatency/PThreadsCoherencyLatency.c:96-125 | one cell considered keeps the selection disjoint and first come first served up to here; the exit is never taken |
| PairScheduler.SelectRound | CoherencyLatency/PThreadsCoherencyLatency.c:91-127 | processor-disjoint untested pairs, at most the limit, in the order of the loops: every untested pair they come to is selected or gives way to an earlier one; below the limit a maximal matching |
| PairScheduler.Launch | CoherencyLatency/PThreadsCoherencyLatency.c:135-138 | every selected pair is launched and has its own result: the break for processors 0/0 is never taken |
| PairScheduler.Join | CoherencyLatency/PThreadsCoherencyLatency.c:141-147 | exactly the cells of the round become done and receive their own results |
| PairScheduler.RoundDone | CoherencyLatency/PThreadsCoherencyLatency.c:90-150 | a round keeps the record of what was tested and strictly shrinks the untested set |
| PairScheduler.RunOffset | CoherencyLatency/PThreadsCoherencyLatency.c:85-151 | terminates with every ordered pair of distinct processors tested exactly once, the matrix filled with the right results, every round disjoint, first come first served and maximal, and no failure exit |
| PairOrder.SelectionIsDetermined | CoherencyLatency/PThreadsCoherencyLatency.c:91-127 | the pairs tested before determine the selection of a round |
| PairOrder.RoundsAreDetermined | CoherencyLatency/PThreadsCoherencyLatency.c:85-151 | the number of processors and the parallelism factor determine all rounds |
| TargetPages.TargetsAreOnSeparatePages | CoherencyLatency/PThreadsCoherencyLatency.c:122 | the targets of one round are on pages of their own, for every offset |
| TargetPages.TargetsAreOnLines | CoherencyLatency/PThreadsCoherencyLatency.c:122 | the target of pair k is the first word of line 64 * k + offset of the block |
| TargetPages.RoundSize | CoherencyLatency/PThreadsCoherencyLatency.c:91-127 | a round has at most as many pairs as the factor and as half the processors |
| TargetPages.FirstRoundSize | CoherencyLatency/PThreadsCoherencyLatency.c:91-127 | the first round, a maximal matching of all processors, has exactly that many |
| TargetPages.OffsetInBlock | CoherencyLatency/PThreadsCoherencyLatency.c:78-122 | the targets of one offset are inside the allocated block if and only if the offset is below the room that the largest round leaves |
| TargetPages.RunOffsets | CoherencyLatency/PThreadsCoherencyLatency.c:85-151 | every offset is tested completely and on its own line, and all targets of all rounds are inside the block if and only if the offsets fit that room; up to 64 always do |
| X86.StraightAdd | MemoryBandwidth/MemoryBandwidth.c:591-611 | straight code after straight code is straight code that fetches each byte once, in order, with the instructions of both |
| X86.BranchPatternIsStraight | MemoryBandwidth/MemoryBandwidth.c:511 | the pattern with a branch falls through: its jump goes to the next instruction |
| X86.K8NopIsStraight | MemoryBandwidth/MemoryBandwidth.c:510 | the prefixed pattern is two instructions of four bytes |
| X86.Xor2IsStraight | MemoryBandwidth/MemoryBandwidth.c:503 | the pattern for size 2 is four instructions of two bytes |
| InstructionBuffer.WriteReturn8BBlock | MemoryBandwidth/MemoryBandwidth.c:492-498 | exactly eight bytes change, to a 7-byte NOP and a return |
| InstructionBuffer.FillLinear | MemoryBandwidth/MemoryBandwidth.c:591-611 | every slot but the last holds its pattern or the branch pattern, then a return |
| InstructionBuffer.LinearFillFetches | MemoryBandwidth/MemoryBandwidth.c:591-641 | one call runs straight to the return and fetches every byte up to it once: seven less than counted |
| InstructionCounts.SlotDecodes | MemoryBandwidth/MemoryBandwidth.c:500-605 | a slot decodes to instructions of the length asked for, with prefixes for size 3, or to a jump between two of them exactly if every branchInterval-th slot is due |
| InstructionCounts.LinearFillExecutes | MemoryBandwidth/MemoryBandwidth.c:591-611 | how many instructions one call executes: 8 / length in each slot, three in each slot with a branch, and the return |
| InstructionBuffer.FetchesUnique | MemoryBandwidth/MemoryBandwidth.c:500-633 | a buffer has one sequence of fetched addresses only |
| InstructionBuffer.FillCalls | MemoryBandwidth/MemoryBandwidth.c:542-585 | all calling and called lines are in place at the end: no round damages an earlier one |
| InstructionBuffer.Offsets | MemoryBandwidth/MemoryBandwidth.c:552-557 | up to 4 GiB neither the target nor the displacement wraps around in 32 bits, and the displacement is positive when signed |
| InstructionBuffer.FillInstructionArray | MemoryBandwidth/MemoryBandwidth.c:500-633 | which layout the buffer has, and that nothing behind it is written |
| CallLayout.CallAndReturn | MemoryBandwidth/MemoryBandwidth.c:549-582 | a call runs all 64 bytes of its target and comes back behind the call with an empty stack, after ten instructions |
| CallLayout.CallFillExecutes | MemoryBandwidth/MemoryBandwidth.c:542-585 | one call of the buffer runs line 0, target 0, line 1, target 1, ... and returns from the last line, after 144 * size_kb + 1 instructions |
| CallLayout.EveryByteOnce | MemoryBandwidth/MemoryBandwidth.c:542-641 | it fetches each byte of the buffer exactly once and nothing outside: what the figure counts |
| BranchBuffer.FillBranch16 | MemoryBandwidth/MemoryBandwidth/MemoryBandwidth.cpp:575-591 | even slots branch, odd slots hold a NOP, the last even slot returns, the last odd slot is not written |
| BranchBuffer.BranchFillRuns | MemoryBandwidth/MemoryBandwidth/MemoryBandwidth.cpp:575-591 | one call of 64 * size_kb instructions hops over even slots only, each once and in order, and stops at the return |
| BranchBuffer.FillTenByte | MemoryBandwidth/MemoryBandwidth/MemoryBandwidth.cpp:564-574 | the return is behind whole instructions and inside the buffer |
| BranchBuffer.TenByteFillRuns | MemoryBandwidth/MemoryBandwidth/MemoryBandwidth.cpp:564-574 | one call falls through instructions of ten bytes each to the return |
| ScalarRead.ReadBlock | MemoryBandwidth/MemoryBandwidth.c:876-883 | one turn adds element i + lane to each even lane and multiplies it into each odd one |
| ScalarRead.ScalarRead | MemoryBandwidth/MemoryBandwidth.c:866-892 | for any arithmetic, rounding included: the checksum adds up eight lanes folded in the order of the source, and all counted elements are read if and only if the length is a multiple of eight |
| ScalarRead.ExactSum | MemoryBandwidth/MemoryBandwidth.c:876-883 | in exact arithmetic an adding lane is the number of passes times the sum of its elements |
| ScalarRead.ExactProduct | MemoryBandwidth/MemoryBandwidth.c:876-883 | in exact arithmetic a multiplying lane is a power of the product of its elements |
| ScalarRead.ExactTotal | MemoryBandwidth/MemoryBandwidth.c:873-891 | in exact arithmetic the result is the passes times the sum of the four adding lanes, plus the four products to the power of the passes |
| ScalarRead.MeasureBw | MemoryBandwidth/MemoryBandwidth.c:637-802 | the bytes behind the figure are the bytes that all threads together read, shared or private: the requested size once for each iteration and thread, and more only if private parts were rounded up |
| ScalarRead.PrivateSizes | MemoryBandwidth/MemoryBandwidth.c:651 | private parts cover the requested size, by less than a kilobyte more for each thread, and exactly if it divides evenly |

## Left out

- Clocks, thread creation, affinity, NUMA, huge pages, performance counters, MSR access and OpenCL calls: no logic to
  prove. Threads appear as the steps they take.
- Assembly kernels (asm_read, preplatencyarr, latencytest): their source is not part of this model.
- scale_iterations and the loops that retune iteration counts: iteration counts are parameters.
- GetIterationCount: one division and two adjustments.
- FillPageByPage64: its call at line 437 fills 32-bit cells and only part of each page.
- Further copies of FillPatternArr (LoadedMemoryLatency, GpuMemLatency, AsmGen): one model stands for all.
- Fills for AArch64 and RISC-V, the LEA fill and the linear fills of MemoryBandwidth.cpp: the x86 fills of
  MemoryBandwidth.c stand for them.
- RunStlfTest, RunAsmTest, argument parsing, CSV output, GetCoreIndex of c2cparse and the -bwcores parser: plumbing, or
  too little to prove.
- InstructionBuffer.FillInstructionArray: does not model the call to mprotect.
- LatencyRuns.ArrayFor: does not model a failed allocation.
- ParallelRuns.RunMlpTest: does not model the sum of the offsets, which is only compared with zero for a message.
- PairScheduler.RunOffset: does not model negative parallelism factors; zero, which selects nothing either, is modelled.
  Results are an arbitrary stream rather than the outcome of a latency test.
- ScalarRead.ScalarRead: does not model a start other than 0, which no caller passes.
- ScalarRead.MeasureBw: does not model the division by the elapsed time, and takes scalar_read for the tested function.
- PingPong.FairRunsFinish: assumes sequential consistency; weaker memory orders are not modelled.
- LatencyThreads.RunNoLockTest: the schedule is an input, and a finished thread that is scheduled does nothing.
