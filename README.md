# Merge path with circular buffers, in Dafny

This project models the merge-path core of a CUDA merge of two sorted
integer arrays. It also models the CPU reference merge and the check that
compares the two outputs. Every model is proved against a functional
specification.

- **Co-rank search** (`coRank`, `coRankCircular`). For a rank `k` of the
  merged output, these find how many of the first `k` outputs come from `A`.
  The search is a bracketed binary search. `coRankCircular` reads both
  inputs through circular buffers of `TILE_SIZE` slots.
- **Circular-window merge** (`mergeSequentialCircular`). This is a
  sequential two-way merge. It reads two windows of circular buffers and
  writes a linear output.
- **Kernel** (`mergeCircularBufferKernel`).
  - Each block takes an equal share `[C_curr, C_next)` of the output and
    co-ranks both ends.
  - It then works tile by tile. Each tile refills the two shared circular
    buffers `A_S` and `B_S` with the inputs consumed by the previous tile.
  - Each thread merges its own slice of the tile.
  - The counters (`C_completed`, `A_consumed`, `A_S_start`, ...) advance by
    the co-rank of the tile's end.
- **Host reference** (`mergeCPU`, `validate`).

## Modules

- `MergeSpec` (merge_spec.dfy) holds the specification. `Merge(a, b)` is the
  merge that takes from `a` on equal keys. `IsSplit(a, b, i, j)` is the
  boundary condition that the co-rank searches test: `a[i-1] <= b[j]` and
  `b[j-1] < a[i]` wherever those elements exist. For sorted inputs,
  `MergePrefix` shows what it means: the first `i + j` outputs of
  `Merge(a, b)` are the merge of the first `i` elements of `a` and the
  first `j` of `b`. The lemmas cover:
  - sortedness and permutation;
  - uniqueness and monotonicity of splits;
  - the merge of slices between two splits.
- `CoRankSearch` and `CoRank` (corank.dfy) model the two searches with
  three loops: `coRank`, `coRankCircular` as written, and
  `CoRankCircularFixed`, which is `coRankCircular` with the `>=` test of
  `coRank`. Each loop follows the fuel-bounded function `Search` round by
  round. A bracket invariant shows that every loop stops on any input:
  - `coRank` and `CoRankCircularFixed` stop at a split for
    `0 <= k <= m + n`;
  - `coRankCircular` as written stops at a loose stopping point, where
    `B'[j-1] <= A'[i]` replaces the strict test;
  - for a rank outside that range, the search returns `min(k, m)`.
- `CircularMerge` (merge_circular.dfy) and `Fill` (fill.dfy) model the
  circular-window merge. `Fill` holds the "written so far, the rest
  untouched" frame of an output array.
- `KernelIndex` (kernel_index.dfy) holds the kernel's index arithmetic:
  - `ceildiv` and the unsigned block product;
  - the threads' shares of a tile;
  - the staging guard.

  Each piece whose code differs from what it evidently means appears twice,
  as written and corrected.
- `Kernel` (kernel.dfy) models one block, with its threads run one after
  another.
  - Each loop over `threadIdx.x` becomes a `while` loop of its own, and each
    barrier becomes the boundary between two methods.
  - The shared buffers are `array<int>`s, and `C` is an `array<int>`.
  - The tile loop is proved against the invariant `TileState`. It states:
    - the output so far is a prefix of the block's merge;
    - the counters form a split of the block's inputs;
    - the ring starts stay in `[0, TILE_SIZE)`;
    - both rings hold the next window of unconsumed input.

  `AllBlocks` runs the blocks of a grid one after another and shows that
  together they write the whole merge.
- `HostReference` (host.dfy) models `mergeCPU` and `validate`.

The kernel model uses the corrected version of each piece in "## Findings".
The as-written code of those pieces is modelled alongside, together with an
input that shows the difference. Line 209,
`B_S_consumed = min(C_len - C_completed, TILE_SIZE) - A_S_consumed`, is
modelled as the macro expands (`BFreed`): the subtraction applies only when
`TILE_SIZE` is the smaller operand. On the block's last tile this
miscounts `B_S_consumed`. That is harmless because no tile follows.

Elements are `int` (the source is a template, instantiated with `int`).
Array indices are unbounded integers, except the unsigned product of lines
129-130, which is modelled modulo 2^32.

## Model

| member | source | states |
|---|---|---|
| MergeSpec.MergeSorted | cuda_module/include/cuda_merge_kernel.h:94-120 | the merge of two sorted sequences is sorted |
| MergeSpec.MergePermutation | cuda_module/include/cuda_merge_kernel.h:94-120 | the merge holds exactly the elements of both inputs, as multisets |
| MergeSpec.MergeCommutes | src/main.cpp:23-26 | for sorted inputs, taking from `B` on equal keys gives the same output as taking from `A` |
| MergeSpec.SplitUnique | cuda_module/include/cuda_merge_kernel.h:39-58 | for sorted inputs, each rank has at most one split position |
| MergeSpec.SplitMonotone | cuda_module/include/cuda_merge_kernel.h:191-200 | split positions of sorted inputs grow with the rank, in both inputs |
| MergeSpec.SplitDecomposesMerge | cuda_module/include/cuda_merge_kernel.h:129-142 | at a split, the merge is the merge of the prefixes followed by the merge of the suffixes |
| MergeSpec.MergePrefix | cuda_module/include/cuda_merge_kernel.h:205-211 | at a split `(i, j)`, the first `i + j` outputs are the merge of `a[..i]` and `b[..j]` |
| MergeSpec.MergeSlice | cuda_module/include/cuda_merge_kernel.h:139-148 | between two splits, the merge of the input slices is the same slice of the whole merge |
| MergeSpec.SplitCompose | cuda_module/include/cuda_merge_kernel.h:205-213 | a split of the remaining inputs after a split is a split of the whole inputs |
| CoRankSearch.Slot | cuda_module/include/cuda_merge_kernel.h:103-104 | the model's slot `(start + x) % tile_size`, taken with Euclidean `%`, is in `[0, tile_size)` |
| CoRankSearch.SlotIsCRemainder | cuda_module/include/cuda_merge_kernel.h:72-79 | for a non-negative start and logical index, as every caller passes, the slot equals C's truncating `%` and lies in `[0, tile_size)`; for a negative dividend the two differ (C gives `-1` where `Slot` gives `1023`) |
| CoRankSearch.WindowUnique | cuda_module/include/cuda_merge_kernel.h:72-79 | a sequence read through a ring from slot `start` is that ring's window of its length |
| CoRankSearch.BracketStart | cuda_module/include/cuda_merge_kernel.h:33-36 | the initial `i`, `i_low`, `j_low` bracket the answer in `[max(0, k-n), min(k, m)]` |
| CoRankSearch.StepDown | cuda_module/include/cuda_merge_kernel.h:41-47 | when `A[i-1] > B[j]`, the step down by `delta` keeps a bracket of the answer with `j = k - i` |
| CoRankSearch.StepUp | cuda_module/include/cuda_merge_kernel.h:48-54 | when the second test holds, the step up by `delta` keeps a bracket of the answer with `j = k - i` |
| CoRankSearch.SearchStops | cuda_module/include/cuda_merge_kernel.h:39-58 | on any inputs the search stops at a position with no inversion on its border, which is a split under the `>=` test; for an out-of-range rank it returns `min(k, m)` |
| CoRankSearch.RingSearchFinds | cuda_module/include/cuda_merge_kernel.h:70-88 | the search over the rings returns what the search over the windows `A'`, `B'` returns |
| CoRank.CoRank | cuda_module/include/cuda_merge_kernel.h:31-59 | for every input the loop stops; for an in-range rank it stops at a split `(i, k - i)`: `A[i-1] <= B[j]` unless `i == 0` or `j == n`, and `B[j-1] < A[i]` unless `j == 0` or `i == m` |
| CoRank.CoRankBounds | cuda_module/include/cuda_merge_kernel.h:33-36 | the co-rank of an in-range `k` lies in `[max(0, k-n), min(k, m)]`; `coRank(0) = 0` and `coRank(m+n) = m` |
| CoRank.StrictCoRankMonotone | cuda_module/include/cuda_merge_kernel.h:134-142 | on sorted inputs, `coRank` grows with the rank in both `A` and `B`, so `A_curr <= A_next` and `B_curr <= B_next` |
| CoRank.CoRankCircular | cuda_module/include/cuda_merge_kernel.h:62-91 | as written: the loop stops on the windows with `A'[i-1] <= B'[j]` and `B'[j-1] <= A'[i]` (the loose second test of line 79) |
| CoRank.CoRankCircularFixed | cuda_module/include/cuda_merge_kernel.h:62-91 | with the `>=` test of line 48 in place of line 79, the loop stops at the split of the windows |
| CoRank.LooseCoRankNotMonotone | cuda_module/include/cuda_merge_kernel.h:79 | the loose search on sorted windows `[0,0,1]`, `[0,0,0]` gives 2 at rank 2 and 1 at rank 3, which is not a split |
| CircularMerge.MergeSequentialCircular | cuda_module/include/cuda_merge_kernel.h:94-120 | writes exactly `C[0..m+n)`, with the merge of the windows `A'[0..m)` and `B'[0..n)`, taking from `A` on equal keys; the rest of `C` is unchanged |
| CircularMerge.MergeHeads | cuda_module/include/cuda_merge_kernel.h:101-115 | the first loop stops with one window used up; what it wrote is the merge's output up to `(i, j)`, at `C[0..i+j)`, and nothing else changed |
| CircularMerge.CopyRestOfA | cuda_module/include/cuda_merge_kernel.h:116-117 | once the second window is used up, copying the rest of the first uses it up too and extends the merge's output at `C[i+j..)` |
| CircularMerge.CopyRestOfB | cuda_module/include/cuda_merge_kernel.h:118-119 | once the first window is used up, copying the rest of the second uses it up too and extends the merge's output at `C[i+j..)` |
| CircularMerge.MergedWindowsIs | cuda_module/include/cuda_merge_kernel.h:101-119 | what the circular merge writes is `Merge` of the two logical windows read through the rings |
| CircularMerge.MergedWindowsSortedPermutation | cuda_module/include/cuda_merge_kernel.h:101-119 | what the circular merge writes holds exactly the elements of both windows, and it is sorted when both windows are |
| HostReference.MergeCpuHeads | src/main.cpp:21-27 | after the main loop, `i == m` or `j == n`, and the output so far is a merge prefix taking from `B` on equal keys |
| HostReference.MergeCpuRestOfA | src/main.cpp:29 | once `B` is used up, the copy of the rest of `A` uses it up and extends the output, still a prefix of the merge with ties from `B` |
| HostReference.MergeCpuRestOfB | src/main.cpp:30 | once `A` is used up, the copy of the rest of `B` uses it up and extends the output, still a prefix of the merge with ties from `B` |
| HostReference.MergeCpu | src/main.cpp:16-31 | writes exactly `C[0..m+n)`, with the merge of `B` and `A` (ties from `B`); the rest of `C` is unchanged |
| HostReference.MergeCpuIsMerge | src/main.cpp:16-31 | for sorted inputs, `mergeCPU`'s output is the kernel's merge; it is non-decreasing and a permutation of `A ++ B` |
| HostReference.Validate | src/main.cpp:33-43 | returns true iff `C[x] == ans[x]` for every `x < N` |
| KernelIndex.CDiv | cuda_module/include/cuda_merge_kernel.h:13 | definition of C's truncating `/` as used by `ceildiv` (its contract only bounds the value); its meaning for the tile count is proved in `Kernel.Counting` |
| KernelIndex.BlockStartAsWritten | cuda_module/include/cuda_merge_kernel.h:129 | `C_curr` as the unsigned product expands: an `int`; where the product `blockIdx.x * (m + n + gridDim.x - 1)` fits in 31 bits it equals the exact `BlockStart` |
| KernelIndex.BlockEndAsWritten | cuda_module/include/cuda_merge_kernel.h:130 | `C_next` as written: an `int`; where the product for `blockIdx.x + 1` fits in 31 bits it equals the exact `BlockEnd` |
| KernelIndex.BlockStart | cuda_module/include/cuda_merge_kernel.h:129 | the exact block start is never negative |
| KernelIndex.BlockEnd | cuda_module/include/cuda_merge_kernel.h:130 | the exact block end lies in `[0, m + n]` |
| KernelIndex.BlockRangesTile | cuda_module/include/cuda_merge_kernel.h:129-130 | with exact arithmetic, block 0 starts at 0, each block ends where the next starts (clipped to `m+n`), and the last ends at `m+n` |
| KernelIndex.BlockRangeWraps | cuda_module/include/cuda_merge_kernel.h:129-130 | as written, for `m+n = 1000000` and 7813 blocks, block 4261's range ends at 41 instead of 549762, so outputs are missed |
| KernelIndex.ThreadBoundAsWritten | cuda_module/include/cuda_merge_kernel.h:185-186 | the thread bound as the macro expands is never below the intended `t * ceildiv(TILE_SIZE, blockDim)` |
| KernelIndex.ThreadBound | cuda_module/include/cuda_merge_kernel.h:185-186 | the intended thread bound is non-negative, and `t * (TILE_SIZE / blockDim)` when `blockDim` divides `TILE_SIZE` |
| KernelIndex.ThreadBoundOverrunsAt128 | cuda_module/include/cuda_merge_kernel.h:185-186 | as written, with 128 threads, thread 113 covers `[1016, 1025)`, which ends past `TILE_SIZE` |
| KernelIndex.ThreadBoundOverrunsTile | cuda_module/include/cuda_merge_kernel.h:185-186 | as written, for any block of more than one thread, the last thread, `blockDim - 1`, ends at `TILE_SIZE + blockDim - 1`, past the tile |
| KernelIndex.ThreadBoundsTile | cuda_module/include/cuda_merge_kernel.h:185-186 | with the intended `t * ceildiv(TILE_SIZE, blockDim)`, the thread ranges start at 0, are ordered, and end exactly at `TILE_SIZE` |
| KernelIndex.StageGuardAsWritten | cuda_module/include/cuda_merge_kernel.h:164 | definition of the guard as written (its contract restates it with `Min`); the over-read it admits is proved in `StageGuardAsWrittenOverreads` and `Kernel.StagedReadsInBlock` |
| KernelIndex.StageGuard | cuda_module/include/cuda_merge_kernel.h:164 | definition of the corrected guard; an admitted read `offset + x` with `0 <= x` is inside the block's input, and under the tile loop's invariant it is an unstaged element (`Kernel.StagedReadsInBlock`) |
| KernelIndex.StageGuardAsWrittenOverreads | cuda_module/include/cuda_merge_kernel.h:164-167 | as written, the guard admits the index `A_len - A_offset`, whose read is the first element past the block's input |
| KernelIndex.StageGuardOverreadsEvensOdds | cuda_module/include/cuda_merge_kernel.h:164-167 | with `len = 1500`, `consumed = 512`, `offset = 1024` and 512 free places, the guard as written admits `x = 476` to `511`, reading `A[1500]` to `A[1535]`; the corrected guard stops at the read of `A[1499]` |
| Kernel.StagedReadsInBlock | cuda_module/include/cuda_merge_kernel.h:164-176 | under the tile loop's `Staged` invariant, every place the corrected guard admits reads `offset + x`, after the elements still on the ring and inside the block's input; the guard as written admits exactly the extra places `[len - offset, min(len - consumed, sConsumed))`, whose reads are at or past the block's end |
| Kernel.StageTile | cuda_module/include/cuda_merge_kernel.h:162-178 | the two refills: each ring's free places are staged from its input and, from its start slot, each ring then holds the next `min(TILE_SIZE, len - consumed)` unconsumed inputs |
| Kernel.StageRound | cuda_module/include/cuda_merge_kernel.h:162-169 | one round of `blockDim` threads stages the next `blockDim` free places (or all that remain) and leaves every other slot as it was |
| Kernel.StageRing | cuda_module/include/cuda_merge_kernel.h:162-178 | a refill writes each guarded free place `x` at slot `(start + TILE_SIZE - consumed + x) % TILE_SIZE` from `offset + x`, and nothing else |
| Kernel.StagedWindow | cuda_module/include/cuda_merge_kernel.h:162-181 | after the refill, the ring holds from `A_S_start` on the next `min(TILE_SIZE, A_len - A_consumed)` unconsumed inputs |
| Kernel.Clip | cuda_module/include/cuda_merge_kernel.h:188-189 | a clipped thread bound is the smaller of the bound and `C_len - C_completed` |
| Kernel.ThreadCoRanks | cuda_module/include/cuda_merge_kernel.h:185-200 | each thread's clipped range lies within the tile, and its two co-ranks are splits of the windows |
| Kernel.MergeThread | cuda_module/include/cuda_merge_kernel.h:185-203 | thread `t` writes ranks `[c_curr, c_next)` of the merge of the windows to its place in `C`, and nothing else |
| Kernel.MergeTile | cuda_module/include/cuda_merge_kernel.h:184-203 | the block's threads together write the first `min(TILE_SIZE, C_len - C_completed)` outputs of the merge of the windows, and nothing else |
| Kernel.TileSplit | cuda_module/include/cuda_merge_kernel.h:205-208 | `A_S_consumed` is the split, in the windows, of the tile's output count |
| Kernel.MergeWindows | cuda_module/include/cuda_merge_kernel.h:184-208 | a tile's merge of the windows and the split of its end, together |
| Kernel.TilePieceIsNext | cuda_module/include/cuda_merge_kernel.h:191-213 | the tile's merge of the two windows is the next `min(TILE_SIZE, rem)` outputs of the block's merge |
| Kernel.TileAdvances | cuda_module/include/cuda_merge_kernel.h:205-213 | after the tile, `A_consumed` and `B_consumed` are again a split of the block's inputs at `C_completed` |
| Kernel.BFreed | cuda_module/include/cuda_merge_kernel.h:209 | definition of `B_S_consumed` as the unparenthesised `min` expands (its contract restates the two cases); that the rings stay consistent with it, even on the last tile, is proved in `Kernel.KeptRings` |
| Kernel.NextProgress | cuda_module/include/cuda_merge_kernel.h:204-217 | one tile adds 1 to `counter` and `min(TILE_SIZE, rem)` to `C_completed`, keeps `A_consumed + B_consumed == C_completed`, advances `B_consumed` by `B_S_consumed` on a full tile, advances the offsets by what was staged, and keeps both ring starts in `[0, TILE_SIZE)` |
| Kernel.KeptOutputs | cuda_module/include/cuda_merge_kernel.h:204-213 | each iteration adds `min(TILE_SIZE, C_len - C_completed)` to `C_completed`, keeps `A_consumed + B_consumed == C_completed`, and extends the output by the next part of the merge |
| Kernel.KeptRings | cuda_module/include/cuda_merge_kernel.h:180-217 | after the counter updates, including line 209 as it expands, the ring starts stay in `[0, TILE_SIZE)` and the unconsumed part of each ring is the start of the next window |
| Kernel.Counting | cuda_module/include/cuda_merge_kernel.h:149-160 | the loop goes on (`counter < ceildiv(C_len, TILE_SIZE)`) iff `counter * TILE_SIZE < C_len` |
| Kernel.TileStateStarts | cuda_module/include/cuda_merge_kernel.h:145-158 | the initial counters (both rings empty, `A_S_consumed = B_S_consumed = TILE_SIZE`) satisfy the tile loop's invariant |
| Kernel.TileStateDone | cuda_module/include/cuda_merge_kernel.h:160 | when the loop stops, `C_completed == C_len` and the block has written all of its range |
| Kernel.MergeStep | cuda_module/include/cuda_merge_kernel.h:180-217 | given the staged rings, the merge half of an iteration writes the tile's outputs after those already written, counts one more tile, and keeps the tile loop's invariant |
| Kernel.TileStep | cuda_module/include/cuda_merge_kernel.h:162-218 | one iteration keeps the tile loop's invariant and counts one more tile |
| Kernel.TileLoop | cuda_module/include/cuda_merge_kernel.h:145-219 | the tile loop writes the merge of the block's inputs to `C[C_curr..C_next)`, and nothing else |
| Kernel.BlockSetup | cuda_module/include/cuda_merge_kernel.h:129-142 | the block's range and, passed through `A_S[0]` and `A_S[1]`, the splits of both of its ends |
| Kernel.BlockInputs | cuda_module/include/cuda_merge_kernel.h:139-148 | the block's inputs `A[A_curr..A_next)` and `B[C_curr - A_curr..C_next - A_next)` are sorted, and their merge is the block's slice of the whole merge |
| Kernel.MergeCircularBufferKernel | cuda_module/include/cuda_merge_kernel.h:123-220 | one block writes `Merge(A, B)[C_curr..C_next)` to its range of `C`, and changes nothing else |
| Kernel.NextBlock | cuda_module/include/cuda_merge_kernel.h:129-130 | if the output holds the merge up to block `b`'s start, then after block `b` it holds it up to block `b+1`'s start |
| Kernel.BlocksSoFar | cuda_module/include/cuda_merge_kernel.h:129-130 | after blocks `0..k-1`, the output holds the merge up to block `k`'s start |
| Kernel.AllBlocks | cuda_module/include/cuda_merge_kernel.h:123-220 | once every block of the grid has run, the output is the merge of `A` and `B` |

## Left out

- Concurrency is not modelled. Threads of a block run one after another, each barrier (`__syncthreads`, lines 137, 143, 182 and 218) is a method boundary, and `__shared__` memory is an ordinary array. The blocks of a grid run one after another, in order (`KernelOutput`). Races and interleavings are not modelled.
- The host adapter `mergeCircularBufferCUDA` (lines 222-241) is not part of this model. It is device allocation, copies and the launch.
- `gpuAssert` and `cudaErrChk` (lines 17-25) are error reporting and process exit.
- `main` (src/main.cpp:46-92): random input, `std::sort`, timing and console output are I/O. It calls `mergeCircularBuffer`, which is declared in cuda_module/include/cuda_merge.h. Its definition is not part of this model.
- `mergesort` and `merge` (src/main.cpp:95-134) are declared but never called from `main`. They are benchmark code outside the merge path.
- CoRankSearch.Slot: uses Dafny's Euclidean `%`, which agrees with C's `%` only for a non-negative dividend (`SlotIsCRemainder`). The ring co-rank searches and `MergeSequentialCircular` require non-negative starts, and every caller passes non-negative indices, so the source's negative-slot reads are outside the model.
- KernelIndex.ThreadBoundOverrunsTile: proves only the arithmetic of lines 185-186. The unstaged read and the possibly wrong output that follow from it for `m = 1200`, `n = 0`, with one block of 128 threads, are not derived in Dafny, because the kernel model uses the corrected bounds. Under the launch of `mergeCircularBufferCUDA` (lines 237-239) this input is merged correctly: see "## Findings".
- Apart from the block product of lines 129-130, 32-bit overflow of `int` index arithmetic is not modelled. Indices are unbounded integers.
- Kernel.MergeCircularBufferKernel: models the kernel with the corrected pieces of "## Findings": the strict test in the tile's co-ranks, `ThreadBound`, `StageGuard`, and exact arithmetic for the block range. The kernel exactly as written is described only through the as-written members of each finding.
- Kernel.MergeCircularBufferKernel: requires `TILE_SIZE % blockDim == 0`, the kernel's configuration, where every tile is split evenly among the threads. It also requires sorted `A` and `B`, which the source assumes without checking.
- Kernel.MergeStep: the merge phase reads the rings as values (`aS[..]` after staging), so aliasing between the rings and `C` is excluded by requires rather than modelled.
- CoRank.CoRank: the loop carries the invariant `Run(...) == Some(r0)` and not `i + j == k` explicitly. The relation `j = k - i` is stated by the bracket lemmas `StepDown` and `StepUp` and carried by the loops of the two circular variants.
- CoRank.CoRankCircular: states only that the result is a loose stopping point (no inversion under the `>` test of line 79). On equal keys it is not unique, so no output relation is proved for threads that use it.
- HostReference.Validate: requires `N` to be within both arrays. The source reads past them otherwise, which is undefined behaviour.

## Findings

The host adapter `mergeCircularBufferCUDA` launches `(m + n + 127) / 128`
blocks of 128 threads (lines 237-239), so each block has at most 129
outputs and runs a single tile. Under that launch only the findings for
line 79 and lines 129-130 can show. The findings for lines 164 and 185-186
need a launch with fewer blocks, such as one block of 128 threads.

| source | as written | input that shows it | evidently intended | confidence | as-written member | corrected member |
|---|---|---|---|---|---|---|
| cuda_module/include/cuda_merge_kernel.h:79 | `coRankCircular` stops when `B'[j-1] > A'[i]` is false, so on equal keys it may stop at a non-split, and ranks do not map monotonically to co-ranks | sorted windows `A' = [0,0,1]`, `B' = [0,0,0]`: rank 2 gives 2, rank 3 gives 1, so a thread with range `[2, 3)` gets `a_next - a_curr = -1` | the `>=` test of line 48, as in `coRank` | not executed | CoRank.LooseCoRankNotMonotone, CoRank.CoRankCircular | CoRank.CoRankCircularFixed, CoRank.StrictCoRankMonotone |
| cuda_module/include/cuda_merge_kernel.h:185-186 | `threadIdx.x * ceildiv(TILE_SIZE, blockDim.x)` expands to `(threadIdx.x * (TILE_SIZE + blockDim.x - 1)) / blockDim.x`; thread ranges drift past the tile | needs a launch with fewer blocks than `mergeCircularBufferCUDA` uses (lines 237-239 give each block at most 129 outputs, so only one tile runs and the clipped ranges stay inside it); with one block of 128 threads, `m = 1200`, `n = 0`: in the first tile the `B` window is empty and thread 113 gets ranks `[1016, 1025)`, so `a_curr = 1016`, `a_next = 1024`, `b_next = 1`; it merges the never-written `B_S[0]` into `C[1016..1025)`, and the second tile rewrites only `C[1024..)`, so `C[1016..1024)` can be wrong | `threadIdx.x * ((TILE_SIZE + blockDim.x - 1) / blockDim.x)` | not executed | KernelIndex.ThreadBoundOverrunsAt128, KernelIndex.ThreadBoundOverrunsTile, KernelIndex.ThreadBoundAsWritten | KernelIndex.ThreadBound, KernelIndex.ThreadBoundsTile |
| cuda_module/include/cuda_merge_kernel.h:164 | the staging guard compares with `A_len - A_consumed`; elements already staged but not consumed are counted again (likewise line 173 for `B`) | needs a launch with fewer blocks than `mergeCircularBufferCUDA` uses (lines 237-239 give each block at most 129 outputs, so no block reaches a second tile, where the over-read happens); with one block, `m = n = 1500`, evens in `A`, odds in `B`: the second tile has `A_consumed = 512`, `A_offset = 1024`, `A_S_consumed = 512`, and reads `A[1500]` | `i + threadIdx.x < A_len - A_offset` | not executed | KernelIndex.StageGuardAsWrittenOverreads, KernelIndex.StageGuardOverreadsEvensOdds, KernelIndex.StageGuardAsWritten | KernelIndex.StageGuard, Kernel.StagedReadsInBlock, Kernel.StageRing, Kernel.StagedWindow |
| cuda_module/include/cuda_merge_kernel.h:129-130 | `blockIdx.x * ((m+n) + gridDim.x - 1)` is an unsigned 32-bit product that wraps for large inputs | `m + n = 1000000`, 7813 blocks (the launch's 128 threads per block): block 4261's range ends at 41 instead of 549762 | the product without wrap-around | not executed | KernelIndex.BlockRangeWraps, KernelIndex.BlockStartAsWritten | KernelIndex.BlockStart, KernelIndex.BlockRangesTile |
