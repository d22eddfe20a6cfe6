# libentropy, modelled in Dafny

This project models the three sequential cores of libentropy, a small C library and tool that measure how random a stream of bytes looks.

- **Frequency-table engine** (`entropy.dfy`, module `Entropy`). An `entropy_ctx` holds 256 64-bit byte counters, a symbol count, an algorithm selector, a result and a status.
  - `libentropy_update_ctx` counts a buffer into the context in place.
  - `libentropy_calculate` computes Shannon entropy or Pearson's chi-squared statistic against a uniform byte distribution, and writes the result and a status.
  - The context is the class `EntropyCtx`. Its update is a loop proved against the pure table function `Tally`, which wraps every counter modulo 2^64.
  - A C `double` is `Float`: a finite real, or a value `isfinite` rejects.
- **Free-block iterator** (`e2ntropy.dfy`, module `E2ntropy`). `e2ntropy_iter_next` walks the block groups of an ext2/3/4 file system forward and hands out one unused block per call.
  - It skips groups flagged `BLOCK_UNINIT`.
  - It stops with `-ERANGE` at the last group or at the device capacity.
  - The opened file system is an immutable `Filesystem` value. Its group count, cluster count, checksum feature, group flags, bitmap and block reader are the lookups the iterator makes of the ext2fs library.
  - The iterator is the class `Iterator`, with the fields of `struct e2ntropy_iter`. Its `goto` retries are two nested loops, proved against the mutually recursive functions `TryNextBg` and `TryNextBlock`, which follow the two labels.
- **Stream segmentation in the `entropy` tool** (`entropy_tool.dfy`, module `EntropyTool`). `process_file` reads a file page by page, up to an optional size limit. It either measures the whole input, or measures every complete block of a chosen size and reports each block at the offset just past it.
  - `read()` is an oracle `chunk(pos, size)`, capped by the request and by the bytes left.
  - The metric is an oracle from a table and a symbol count to a result and a status.
  - The loop is the method `ProcessFile`, over a real `EntropyCtx`, proved equal to the pure loop `Loop`.
  - `Loop` is then proved equal to independent reference definitions: `Blocks` for block mode and `WholeInput` for whole-input mode. Both hold however `read` splits the input, provided that no read returns 0 before the end of the input (`Progresses`) and that the size limit is 0 or at least a page.

The iterator's main guarantees:
- Blocks come out in strictly increasing order, so none is handed out twice.
- Each block handed out is free, below capacity, outside uninitialised groups, and never block 0.
- `-ERANGE` is final.
- A wrong buffer size changes nothing.

The engine's main guarantees:
- Counting is independent of chunking and of byte order.
- The sum of the counters equals the symbol count modulo 2^64.
- For counters below 2^32, the closed form computed by `chisq` equals the textbook sum of (O - E)^2 / E, so it is non-negative and 0 on a uniform table. From 2^32 on, a counter's 64-bit square wraps: 2^32 zero bytes give a statistic of -2^32 (`ChiSquareSquareWraps`).
- Shannon entropy applies `log2` only to positive probabilities, and is 0.0 on an all-zero table.

Behaviours of the code worth knowing:
- Shannon entropy of an empty context is 0.0 with status SUCCESS, not an FP error. Zero counters are skipped, so nothing divides by the zero symbol count (`ShannonOfZeros`, `ShannonFiniteIff`).
- A failed block read does not leave the iterator where it was. Any moves to later groups made during the walk persist, together with the old resume offset, so a retry can skip free blocks (`ReadErrorSkipsAhead`).
- `parse_ull` never reports an error: its final `*err = 0` overwrites both error assignments (`ParseUll`).
- `libentropy_calculate` has no case for the byte-frequency-distribution selector. Like any unknown selector, it only sets status `UNKOWN_ALGO` (`EntropyCtx.Calculate`).
- The algorithm enum in `include/libentropy.h` names only Shannon (0). The library and the tool use a chi-square selector, and the tool also uses a BFD selector; the model gives them the next enum values, 1 and 2.
- In whole-input mode, or in block mode with a block of at least twice the limit, a size limit of at most half a page is overshot: the first read is shortened by `(total + size) % limit`, which lands on the limit only when the unshortened read would end less than a whole limit past it (`LimitOvershoot`, `ClampLandsOnLimit`).

## Model

| member | source | states |
|---|---|---|
| Entropy.Zeros | include/libentropy.h:36 | a zeroed frequency table has one counter per byte value, 256 in all |
| Entropy.Tally | lib/libentropy.c:89-90 | counting any buffer keeps the table at 256 counters |
| Entropy.TallyAt | lib/libentropy.c:89-90 | after counting a buffer, the counter of byte `b` has grown by the number of occurrences of `b` in the buffer, modulo 2^64; this holds for every byte, so no other counter changes |
| Entropy.TallyPermutation | lib/libentropy.c:89-90 | two buffers with the same bytes in any order give the same table |
| Entropy.TallyConcat | lib/libentropy.c:81-92 | counting `a` and then `b` gives the same table as counting `a + b` at once (chunk-size independence) |
| Entropy.TallySumMod | lib/libentropy.c:89-91 | the counters' sum grows by the buffer length modulo 2^64, matching the symbol-count update |
| Entropy.TallySumExact | lib/libentropy.c:89-91 | when the sum plus the buffer length stays below 2^64, no counter wraps and the sum grows by exactly the buffer length |
| Entropy.Shannon | lib/libentropy.c:23-45 | definition of `shannon_entropy` (the loop over the counters, skipping zeros, with `log2` a parameter); what it promises is stated by the `Shannon*` lemmas below |
| Entropy.ShannonUsesLog2OnPositivesOnly | lib/libentropy.c:31-37 | zero counters are skipped, so two logarithms that agree on positive reals give the same entropy |
| Entropy.ShannonOfZeros | lib/libentropy.c:31-44 | an all-zero table leaves the accumulator untouched: entropy 0.0, status SUCCESS, whatever the symbol count |
| Entropy.ShannonStaysNonFinite | lib/libentropy.c:37-42 | once the accumulated entropy is non-finite, it stays non-finite, and the status is FP_ERROR |
| Entropy.ShannonFiniteIff | lib/libentropy.c:31-42 | the entropy is finite exactly when the symbol count is non-zero or every counter is zero |
| Entropy.ShannonSingleSymbol | lib/libentropy.c:31-44 | a buffer of one repeated byte value has entropy 0.0, given log2(1) = 0 |
| Entropy.ShannonUniform | lib/libentropy.c:31-44 | 256 equal non-zero counters give entropy 8.0, given log2(1/256) = -8 |
| Entropy.ChiSquare | lib/libentropy.c:61-79 | the statistic is finite, so the status is SUCCESS, exactly when the symbol count is non-zero; with 0 it divides by 0 and the status is FP_ERROR |
| Entropy.SquaresSum | lib/libentropy.c:69-72 | the double accumulating the wrapped 64-bit squares is never negative |
| Entropy.SquaresSumNoWrap | lib/libentropy.c:70-71 | with every counter below 2^32 the 64-bit squares do not wrap, and the sum is the true sum of squares |
| Entropy.ClosedForm | lib/libentropy.c:47-60 | with E = N/256, (sum of squares - 2EN + 256E^2)/E equals the closed form (sum of squares)/E - N |
| Entropy.ChiSquareIsPearson | lib/libentropy.c:47-72 | for a non-zero count equal to the sum of the counters, each counter below 2^32, the closed form equals the sum of (O_i - N/256)^2 / (N/256) over the 256 counters |
| Entropy.ChiSquareNonNegative | lib/libentropy.c:61-79 | under the same conditions the statistic is finite and non-negative |
| Entropy.ChiSquareOfUniform | lib/libentropy.c:61-79 | 256 equal non-zero counters below 2^32 give a statistic of exactly 0 |
| Entropy.ChiSquareSquareWraps | lib/libentropy.c:70-72 | for 2^32 copies of one byte value, a table that sums to its count, the 64-bit square of that counter wraps to 0 and the statistic is -2^32, not the true 2^40 - 2^32 |
| Entropy.EntropyCtx.constructor | include/libentropy.h:25-43 | a zero-filled context has 256 zero counters and count 0, selects Shannon (0) with status SUCCESS (0), and its counters sum to its count |
| Entropy.EntropyCtx.Reset | src/entropy.c:191 | zeroing an existing context gives the same state as a fresh one |
| Entropy.EntropyCtx.Update | lib/libentropy.c:81-92 | the new table is the old table with the buffer counted in, the count grows by the buffer length modulo 2^64, and counters that summed to the count still do |
| Entropy.EntropyCtx.Calculate | lib/libentropy.c:94-110 | Shannon and chi-square write their result and the matching status; any other selector sets UNKOWN_ALGO and leaves the result untouched |
| E2ntropy.Blocksize | include/libe2ntropy.h:43-46 | definition of `e2ntropy_iter_blocksize`: the file system's block size, the one buffer size a call accepts (`WrongBufferSize`) |
| E2ntropy.BlockIndex | include/libe2ntropy.h:48-52 | definition of `e2ntropy_iter_block_index`; `BlockIndexDivMod`, `BlockIndexInjective` and `BlockIndexOrder` state what it promises |
| E2ntropy.Step | lib/libe2ntropy.c:82-163 | definition of one `e2ntropy_iter_next` call as a state and an outcome; what it promises is stated by `WrongBufferSize`, `StepPreservesInv`, `StepComplete`, `ReadErrorKeepsResumePoint` and `OutOfRangeIsFinal`, and `Iterator.Next` is proved to perform it |
| E2ntropy.FetchFlags | lib/libe2ntropy.c:106-110 | fetched flags are a 16-bit word; without the checksum feature they are 0, which never says BLOCK_UNINIT |
| E2ntropy.TryNextBg | lib/libe2ntropy.c:95-133 | the walk never moves to an earlier group, never changes the capacity, never returns -EINVAL, and touches the resume point only when it yields |
| E2ntropy.TryNextBlock | lib/libe2ntropy.c:135-162 | the same guarantees, from inside a group |
| E2ntropy.BlockIndexDivMod | include/libe2ntropy.h:48-52 | for an offset inside the group, the index divided by the group size gives the group back, and the remainder gives the offset |
| E2ntropy.BlockIndexInjective | include/libe2ntropy.h:48-52 | distinct (group, offset) pairs with offsets inside the group have distinct block indices |
| E2ntropy.BlockIndexOrder | include/libe2ntropy.h:48-52 | for offsets inside the group, the index is smaller exactly when (group, offset) is lexicographically smaller |
| E2ntropy.UninitGroupNoneReadable | lib/libe2ntropy.c:126-133 | no block of a group flagged BLOCK_UNINIT is one the walk may read |
| E2ntropy.TryNextBgResult | lib/libe2ntropy.c:95-162 | the walk ends with the flags cached for its group, never moves backwards, and passes over no readable block. -ERANGE means it ran out of groups or reached the capacity. A yield or a read error is at a readable block, and a yield saves offset + 1 as the resume point |
| E2ntropy.TryNextBgUninit | lib/libe2ntropy.c:126-133 | a BLOCK_UNINIT group is skipped whole: the walk goes on from the next group at offset 0 with the flags unset |
| E2ntropy.TryNextBlockResult | lib/libe2ntropy.c:135-162 | the guarantees of `TryNextBgResult`, from a group whose flags are fetched and clear |
| E2ntropy.TryNextBlockEndOfGroup | lib/libe2ntropy.c:137-144 | past the group's last offset, the walk moves to the next group with offset 0 and the flags unset |
| E2ntropy.TryNextBlockInUse | lib/libe2ntropy.c:152-155 | a block the bitmap marks as used is passed over, and the walk retries the next offset without refetching the flags |
| E2ntropy.TryNextBlockStops | lib/libe2ntropy.c:147-161 | a block at or past the capacity gives -ERANGE before any bitmap test or read; a free block is read, and yielded unless the read fails |
| E2ntropy.InitEstablishesInv | lib/libe2ntropy.c:67-70 | the initial state (resume offset 1, flags unset) satisfies the iterator invariant with nothing handed out |
| E2ntropy.StepPreservesInv | lib/libe2ntropy.c:82-163 | every call keeps the invariant. A yielded block lies after every block yielded before, is not block 0, is free, is below capacity, and is outside uninitialised groups |
| E2ntropy.WrongBufferSize | lib/libe2ntropy.c:89-92 | a call returns -EINVAL exactly when the buffer size differs from the file system's block size, and then changes no field |
| E2ntropy.ExhaustedIsFinal | lib/libe2ntropy.c:94-98 | once the group index is past the last group, a call returns -ERANGE and only reloads the offset from the resume point |
| E2ntropy.ReadErrorKeepsResumePoint | lib/libe2ntropy.c:157-160 | a failed read keeps the resume offset, while the group index may have advanced, and the failing block was a readable one |
| E2ntropy.OutOfRangeIsFinal | lib/libe2ntropy.c:94-149 | after -ERANGE, whether from running out of groups or from reaching the capacity, the next call returns -ERANGE again |
| E2ntropy.RunInv | lib/libe2ntropy.c:82-163 | over any number of calls, the blocks handed out extend the earlier ones, still strictly increasing and each readable |
| E2ntropy.RunFromInit | lib/libe2ntropy.c:62-163 | from a freshly initialised iterator, every sequence of calls hands out strictly increasing blocks, none of them block 0, and each one free and below capacity |
| E2ntropy.RunAfterOutOfRange | lib/libe2ntropy.c:94-149 | after a -ERANGE, every later call returns -ERANGE |
| E2ntropy.StepComplete | lib/libe2ntropy.c:94-162 | a call that does not fail to read leaves no readable block of an existing group, between block 1 and the new resume point, unhanded-out |
| E2ntropy.RunComplete | lib/libe2ntropy.c:94-162 | over any number of calls none of which fails to read, no readable block before the final resume point is skipped |
| E2ntropy.RunFromInitComplete | lib/libe2ntropy.c:62-162 | from a freshly initialised iterator, with no read error, every free block of an initialised existing group below capacity, from block 1 up to the resume point, is among the blocks handed out |
| E2ntropy.UninitGroupSkipped | lib/libe2ntropy.c:126-149 | on a two-group example with group 1 flagged BLOCK_UNINIT, the calls yield blocks 3 up to the capacity or the end of group 0, then -ERANGE; group 1 never appears |
| E2ntropy.ReadErrorSkipsAhead | lib/libe2ntropy.c:94-160 | on an example where block 8 cannot be read, the calls give block 5, the read error, then block 14, while free blocks 9 to 13 are never visited |
| E2ntropy.Iterator.constructor | lib/libe2ntropy.c:67-70 | the fields start zeroed, with flags unset and resume offset 1, and the invariant holds |
| E2ntropy.Iterator.Next | lib/libe2ntropy.c:82-163 | the fields change, and the error code is returned, as one call of the walk describes; a yielded block's data lands in the buffer, which is otherwise unchanged; the invariant is kept |
| E2ntropy.Iterator.WalkGroups | lib/libe2ntropy.c:95-144 | the group loop ends in the state and outcome `TryNextBg` gives from the starting state |
| E2ntropy.Iterator.ScanGroup | lib/libe2ntropy.c:135-162 | the block loop either finishes the call as `TryNextBlock` says, or leaves the group with nothing else changed |
| EntropyTool.ParseMetric | src/entropy.c:68-81 | `*err` is 0 exactly for "entropy", "chisq" and "bfd"; any other string gives -1 and selects Shannon |
| EntropyTool.MetricName | src/entropy.c:39-41 | parsing a metric's name selects that metric, with no error |
| EntropyTool.AcceptedNamesAreMetricNames | src/entropy.c:68-81 | every accepted string is the name of the metric it selects |
| EntropyTool.ParseUll | src/entropy.c:45-66 | `*err` always ends 0, even for the empty string, trailing garbage or ULLONG_MAX, and the value is what `strtoull` returned |
| EntropyTool.BlockStart | src/entropy.c:154-156 | in block mode, a block with nothing remaining starts again with `blocksize` bytes; otherwise `remaining` is kept |
| EntropyTool.Clamp | src/entropy.c:168-171 | definition of the size-limit adjustment; `ClampRoundsDown` and `ClampLandsOnLimit` state what it promises |
| EntropyTool.ClampRoundsDown | src/entropy.c:168-171 | the shortened read ends on the last multiple of the limit that the unshortened read reaches, giving up less than one limit |
| EntropyTool.ClampLandsOnLimit | src/entropy.c:168-171 | a read that would pass the limit is shortened but never emptied, and it ends exactly on the limit if and only if it would have ended less than a whole limit past it |
| EntropyTool.ReadSize | src/entropy.c:157-171 | a read asks for at least one byte and at most a page; in block mode it never asks past the block's end |
| EntropyTool.ReadSizeBounds | src/entropy.c:157-171 | without a limit, a read asks for a page, or in block mode for what is left of the block if that is less; with a limit no smaller than a page, a read never passes the limit |
| EntropyTool.ReadCount | src/entropy.c:173 | `read` returns no more than asked and no more than remains: all that was asked, or the source's chunk, or the rest of the input |
| EntropyTool.ReadAt | src/entropy.c:157-173 | one read stays within the input and, in block mode, within the current block |
| EntropyTool.Step | src/entropy.c:154-201 | one pass of the loop body advances the total by the bytes read, stays within the input, and keeps 256 counters |
| EntropyTool.Consumed | src/entropy.c:151-153 | the loop takes in no more than the input |
| EntropyTool.Loop | src/entropy.c:150-202 | definition of the do-while loop as a recursion over `Step`; `BlockMode` and `WholeInputMode` state what it computes and `ProcessFile` is proved to perform it |
| EntropyTool.Conclude | src/entropy.c:203-212 | definition of what follows the loop: -1 after a failed block, otherwise 0 and, in whole-input mode, the whole input's result when its calculation succeeds; `WholeInputNeverFails` states the return value |
| EntropyTool.Process | src/entropy.c:148-212 | definition of `process_file` from a zeroed context; `BlockMode` and `WholeInputMode` relate it to the reference definitions `Blocks` and `WholeInput` |
| EntropyTool.BlocksCount | src/entropy.c:187-202 | the block-mode reference returns 0 or -1, and returns 0 exactly when it reported every complete block |
| EntropyTool.BlocksInPlace | src/entropy.c:175-191 | every block report carries the metric over the complete block that ends at its offset, with `blocksize` as the symbol count |
| EntropyTool.BlocksFirst | src/entropy.c:175-190 | the first block report is at the skip offset plus the first block's end |
| EntropyTool.BlocksSpacing | src/entropy.c:175-191 | consecutive block reports lie exactly one block apart |
| EntropyTool.ReadAdvances | src/entropy.c:150-178 | with reads that progress, a read below the limit returns 0 only at the end of the input and never passes what the loop consumes |
| EntropyTool.CountOn | src/entropy.c:175-181 | counting a read on top of the block so far gives the table and count of the block up to the new total |
| EntropyTool.LoopContinues | src/entropy.c:150-202 | a pass that read something is followed by another pass |
| EntropyTool.BlockEndStep | src/entropy.c:187-201 | the pass that completes a block calculates over exactly that block. On failure the loop stops; on success it reports the block at its end offset and zeroes the context |
| EntropyTool.BlockEndContinues | src/entropy.c:187-191 | after a successful block, the loop goes on from an empty context at the next block, with the report appended |
| EntropyTool.BlockEndFails | src/entropy.c:192-200 | a failed block calculation ends the loop with the reports made so far |
| EntropyTool.BlockLoop | src/entropy.c:150-202 | from any point inside a block, the loop returns and reports what the block-mode reference gives over the bytes it will consume, after the earlier reports |
| EntropyTool.BlockLoopAtBlockEnd | src/entropy.c:187-202 | the same, when the next read completes the block |
| EntropyTool.BlockLoopInsideBlock | src/entropy.c:173-181 | the same, when the next read stays inside the block |
| EntropyTool.BlockLoopFromStart | src/entropy.c:150-202 | the same, from the start of a block |
| EntropyTool.BlockLoopNextBlock | src/entropy.c:189-202 | once a block is reported, the loop reports the blocks after it |
| EntropyTool.BlockMode | src/entropy.c:112-213 | in block mode `process_file` returns and prints exactly what the reference gives: the complete blocks of the consumed input, each at its end offset, none for a trailing partial block, stopping with -1 at the first failed calculation, however `read` splits the input |
| EntropyTool.WholeLoop | src/entropy.c:150-202 | in whole-input mode the loop ends having counted exactly the consumed input |
| EntropyTool.WholeInputMode | src/entropy.c:205-212 | in whole-input mode `process_file` measures exactly the consumed input, reports it only if the calculation succeeds, and returns 0 |
| EntropyTool.WholeLoopFinishes | src/entropy.c:150-202 | in whole-input mode the loop cannot fail |
| EntropyTool.WholeInputNeverFails | src/entropy.c:205-212 | in whole-input mode `process_file` returns 0 whatever the input, the reads and the calculation do |
| EntropyTool.LimitOvershoot | src/entropy.c:152-171 | with a 100-byte limit and 4096-byte pages the first read is cut to 4000 bytes, and all 4000 are measured |
| EntropyTool.ProcessFile | src/entropy.c:112-213 | the loop over a real context returns and reports exactly what the pure loop gives |
| EntropyTool.Iteration | src/entropy.c:151-201 | one pass over the context moves the total, `remaining`, the offset, the context and the reports as one loop step describes, or stops on a failed block |

## Left out

- The ext2fs library, modelled as the immutable `Filesystem` value with function-valued lookups. This covers opening the file system, reading the bitmap, the device-size query, the group-descriptor and bitmap tests, and the block read. These are foreign calls whose on-disk parsing is outside this code.
- Reads are deterministic per block: `readBlock` is a fixed function of the block, so a retried read of a block that failed fails again. The real `io_channel_read_blk64` may succeed on a retry. No contract depends on this.
- `e2ntropy_open` and `e2ntropy_close` (lib/libe2ntropy.c:36-60): handle management with `strdup` and `free`.
- The `get_device_size` call in `e2ntropy_iter_init` and the missing `return` at its end. The constructor takes the capacity it would have queried.
- The `buf` and `buf_len` fields of `struct e2ntropy_iter`: the walk does not use them. `ctx` is used only to reach `ctx->fs`, which the class holds as `fs`.
- The prototype of `e2ntropy_iter_next` in include/libe2ntropy.h:60-61, which takes a batch request. Batch requests and BFD binning have no implementation in the library, so the model follows the definition in lib/libe2ntropy.c:82.
- src/e2ntropy.c, a superseded standalone program. The iterator covers the same walk.
- Entropy.Shannon: `log2` is a parameter, and double rounding is not modelled. Only zero skipping, the empty-table result, finiteness and two worked values are stated.
- Entropy.ChiSquare: the sum, quotient and difference are computed in exact reals. Each 64-bit square wraps modulo 2^64 as in the code, before it is added to the double sum, but double rounding is not modelled.
- Entropy.ChiSquareIsPearson: stated only for counters below 2^32, where the 64-bit squares cannot wrap.
- Unsigned 64-bit overflow of `total_bytes_read`, `offset` and the read-size sum in `process_file`: inputs are unbounded `nat`s.
- `main`, `getopt`, `usage` and `print_result` in src/entropy.c: command-line handling and output formatting. A report is the offset and result passed to `print_result`. What `print_result` then writes is not modelled: for BFD it prints the 256 table entries and no offset, and for a selector other than Shannon, chi-square and BFD it prints nothing and returns -1, which `process_file` ignores.
- `lseek`, `posix_fadvise`, `malloc`, `free` and `close` in `process_file`. The input is the byte sequence after the skip offset, and the skip offset only shifts the reported offsets.
- `sysconf(_SC_PAGESIZE)`: the page size is a parameter.
- `read()` returning -1: `read` is an oracle returning 0 up to the requested count.
- `strtoull`: an oracle in `ParseUll`, returning the value and how many characters it used.
- `libentropy_calculate` with three arguments, as the tool calls it: in `process_file` the calculation is an abstract metric from the table and count to a result and a status.
- E2ntropy.Iterator.Next: a failed block read leaves the buffer untouched in the model, and so do `WalkGroups` and `ScanGroup`. `io_channel_read_blk64` may have written part of the buffer before it fails, which the model does not capture.
- EntropyTool.BlockMode: stated only for reads that return 0 at the end of the input and nowhere else, and for a size limit of zero or at least a page. Otherwise a short read or an overshooting limit changes where the loop stops. `LimitOvershoot` shows one such case.
- EntropyTool.WholeInputMode: stated under the same two conditions as `BlockMode`. `WholeInputNeverFails` holds without them.
