# A verified model of the storage core

Dafny models of the parts of the array storage engine where a mistake loses data, with proofs for all
inputs, all schedules and all runs. `dafny verify dfyconfig.toml` checks the project.

- **The IO chain** (`IoChain`, `IoChainSafety`, `IoChainTheorems`, `IoChainSolo`): the ring of 33 locked slots through
  which the iterations of a parallel loop hand input and output pointers to each other. It is a step
  relation; a step is one lock operation or one access to a shared field by one thread, and a run is any
  schedule of any number of threads. Proved: the right pointers, no early reuse of a slot, no race, no
  deadlock, the exact number of steps.
- **The parallel loop** (`ParallelBlocks`, `BitshuffleParallel`): the same machine with the threads' stores
  into the shared output. Every schedule gives the serial result.
- **Bitshuffle** (`BitMatrix`, `BitshuffleSpec`, `Bitshuffle`, `BlockedRuns`, `BitshuffleBlocks`,
  `BitshuffleLaws`, `BitshuffleDriver`): the word macro, the scalar passes as methods on arrays, the blocked driver, where every
  bit goes, and the round trip. A byte is the sequence of its bits.
- **Vector code** (`Sse`, `SseGroups`, `ByteElemSse`, `BloscGroups`, `Blosc`): the unpack and shuffle
  instructions as moves of bytes between registers, whose numbers are written in binary digits, so that a
  network of instructions is a permutation of digits. Each kernel, the loops around it, and the tiled
  kernels are proved equal to the plain transposes, and so to the generic code.
- **Cells and tiles** (`MixedRadix`, `CellBox`, `DomainGrid`, `CellPositions`, `Offsets`: the numbering; `CellSteps`,
  `PositionLoops`, `CellNumbers`, `SubarrayPositions`, `Coordinates`, `DomainMethods`, `CellPlaces`, `GlobalOrders`, `CellSlabs`,
  `SlabOrders`, `TileNumbers`: the code): cell and tile positions, successors, comparators, slabs and strides in any number of dimensions.
- **Dimensions** (`DimensionTiles`, `RangeRounding`, `RangeCeilings`, `StringRanges`): splitting ranges, tile arithmetic, rounding
  ranges to tiles, extent checks.
- **Tile domains** (`TileSlices`: the geometry; `TileDomains`: the class), **MD5 streaming** (`Md5`) and **buffer lists**
  (`BufferLists`).
- Shared vocabulary: `Widths`, `Transposition`, `Regions`, `Values`.

Coordinates have an integer type of 8 to 64 bits, and the source keeps incremented coordinates, normalised coordinates,
tile numbers, ends of tiles and tile offsets in that type. `Widths.Store` is what a variable of the type holds after such a
store (`Widths.StoreIsModulo`: it differs by a multiple of the number of values), and `Widths.Promoted` the type in which C++
does the arithmetic (`Widths.PromotedIs`). The methods are proved against what they compute in these types, and theorems say exactly when that is what it should be, with an input for each way it is not.

Buffers that the source writes are arrays and objects it updates are classes; pure arithmetic is
functions. `Patched(a, o, t)` is the old buffer `a` with `t` written from `o` on (`Regions.PatchedAt`), so a contract that says
`out == Patched(old, o, t)` also says that nothing else changed.

Where the code does not do what its comments or assertions suggest, the model follows the code:

- Stepping through a box whose upper bound is the greatest value of the coordinate type never reports the end
  (`CellSteps.EndIsReportedIff`).
- Cell positions, slabs, overlaps, tile positions, `ceil_to_tile`, `expand_to_tile` and `splitting_value` are wrong where a value does
  not fit the coordinate type or a difference overflows, also for extents that `check_tile_extent` accepts (`CellPlaces.CellPosIff`,
  `SubarrayPositions.CellPosInIff`, `CellSlabs.SlabEndsAreRightIff`, `TileDomains.OverlapsAreRightIff`,
  `TileDomains.TilePositionsIff`, `RangeCeilings.CeilsAreRightIff`, `RangeRounding.ExpandsAreRightIff`,
  `DimensionTiles.SplittingValueIff`).
- `get_tile_pos` counts whole tiles only, and with cached offsets it takes the tile count of the wrong dimension
  (`TileNumbers.TilePosOneToOneIff`, `TileNumbers.CachedPositionsIff`).
- Every split of a string range loses strings: `"a"` to `"c"` is split into `"a"` to `"b"` and `"c"` to `"c"`, and
  `"ba"` is in neither (`StringRanges.LostIff`, `StringRanges.EverySplitLoses`).
- `expand_to_tile` divides toward zero, so a range that starts below the domain need not be contained in
  its expansion (`RangeRounding.ExpandContainsIff`).
- `check_tile_extent_upper_floor` compares in 64 bits, so for a narrower type it accepts extents whose
  expanded domain overflows (`DimensionTiles.NarrowTypeCounterexample`, `DimensionTiles.ExpandedFitsIff`); and for a signed 64-bit
  type it accepts domains in which ranges are not expanded to their tiles (`RangeRounding.AcceptedExpandsIff`).
- A short read of a buffer list moves the position back to the start of the last buffer
  (`BufferLists.AfterShortRead`).

In one place the model follows a comment: `UINT4` in `external/include/md5/md5.h` is an `unsigned long`, of 64 bits in common
builds, under a comment that says 32 bits. The model takes the 32 bits that the algorithm needs.

## Model

| member | source | states |
|---|---|---|
| IoChain.InitInv | external/src/bitshuffle/iochain.cc:22-33 | the chain as initialised, with any pointers in slots 1 to 32, meets the invariant of the protocol |
| IoChain.EqualBlocks | external/src/bitshuffle/iochain.cc:65-95 | with equal advances, the pointers that are due to iteration k are the starts plus k times the advances, input and output apart |
| IoChainSafety.LockAdvances | external/src/bitshuffle/iochain.cc:48-95 | a lock of the ring is free for a waiting iteration only when the iterations before it have gone far enough: k-1 has passed its input on, k-32 and all before are done with the chain, k-1 has passed its output on |
| IoChainSafety.StepInv | external/src/bitshuffle/iochain.cc:48-95 | every single step (one lock taken, one lock dropped, one access to a shared field) of every thread keeps the invariant: who holds which lock, which slot still holds a pointer that somebody needs, and what that pointer is |
| IoChainTheorems.RunInv | external/src/bitshuffle/iochain.cc:48-95 | the invariant holds after every schedule of every number of threads |
| IoChainTheorems.PointersAreDue | external/src/bitshuffle/iochain.cc:48-95 | in every reachable state the pointers that iteration k has been given are the start plus the advances of iterations 0 to k-1, and an iteration past a read has been given its pointer |
| IoChainTheorems.NoSlotIsOverwrittenEarly | external/src/bitshuffle/iochain.cc:65-95 | when a thread is about to write a slot, every other iteration that used that slot (numbers equal modulo 33) has finished with the chain |
| IoChainTheorems.FieldsAreLocked | external/src/bitshuffle/iochain.cc:48-95 | a thread about to touch the counter or a slot pointer holds the lock of that field |
| IoChainTheorems.CounterUntouched | external/src/bitshuffle/iochain.cc:48-62 | a step that is not said to touch the counter does the same with any other value in it, and leaves that value: it neither reads nor writes it |
| IoChainTheorems.InPtrUntouched | external/src/bitshuffle/iochain.cc:48-72 | the same for every input pointer of the ring |
| IoChainTheorems.OutPtrUntouched | external/src/bitshuffle/iochain.cc:74-95 | the same for every output pointer of the ring |
| IoChainTheorems.NoRace | external/src/bitshuffle/iochain.cc:48-95 | no two threads are ever about to touch the same shared field, in any reachable state |
| IoChainTheorems.LowestCanStep | external/src/bitshuffle/iochain.cc:48-95 | the lowest-numbered unfinished iteration is never blocked |
| IoChainTheorems.NoDeadlock | external/src/bitshuffle/iochain.cc:48-95 | until all iterations are finished some thread can step, with any number of threads, also more than there are slots |
| IoChainTheorems.EveryRunEnds | external/src/bitshuffle/iochain.cc:48-95 | steps taken plus steps left is 18 for each iteration in every run, and a run has taken them all exactly when it is complete |
| IoChainTheorems.RunConserves | external/src/bitshuffle/iochain.cc:48-62 | iterations not handed out, handed out but not numbered, and numbered always add up to the total: no number is given twice or skipped |
| IoChainTheorems.CompletedRun | external/src/bitshuffle/iochain.cc:48-95 | a complete run has served every iteration its two pointers, holds no lock, and leaves in the next slot the pointers behind all iterations |
| IoChainSolo.SerialTurnIsRun | external/src/bitshuffle/iochain.cc:48-95 | on any state with all locks free, the 18 steps of a thread that is alone give it the pointers of the next slot, move both on by its advance and leave every lock free |
| IoChainSolo.TurnAfterLoop | external/src/bitshuffle/bitshuffle_core.cc:1228-1243 | so they do after every complete run of the loop, with an advance of the caller's own |
| ParallelBlocks.PartsApart | external/src/bitshuffle/bitshuffle_core.cc:1254-1273 | the output regions of two iterations are disjoint |
| ParallelBlocks.OneByOneComputes | external/src/bitshuffle/bitshuffle_core.cc:1218-1226 | storing a block byte after byte is one of the jobs that the theorems about schedules cover, whatever the block function |
| ParallelBlocks.EveryWorldInv | external/src/bitshuffle/bitshuffle_core.cc:1218-1226 | after every turn of every schedule each output region holds what the stores made so far in its own block have made of it, and no other place has changed, even when stores of different blocks interleave |
| ParallelBlocks.EveryScheduleIsSerial | external/src/bitshuffle/bitshuffle_core.cc:1218-1226 | for every schedule the output of the finished parallel loop is block for block that of the serial loop, and the reduced count is the number of bytes of the full blocks |
| ParallelBlocks.EveryDriverIsSerial | external/src/bitshuffle/bitshuffle_core.cc:1196-1250 | with the shorter last block and the copied rest after the loop, both at the pointers that the chain gives them, the whole output is the serial one and the counts add up to all bytes |
| ParallelBlocks.NoStall | external/src/bitshuffle/bitshuffle_core.cc:1218-1226 | until the parallel loop is over some thread can take a turn, whether with the chain or with a store |
| ParallelBlocks.EveryScheduleEnds | external/src/bitshuffle/bitshuffle_core.cc:1218-1226 | for every schedule, turns taken and turns left add up to 18 steps and the stores of each iteration, and the loop is over exactly when all have been taken |
| BitshuffleParallel.EveryScheduleWraps | external/src/bitshuffle/bitshuffle_core.cc:1196-1298 | for every schedule the buffer ends as the bit-shuffled or bit-unshuffled input that the serial driver produces, with all pointers from the chain, and the returned count is size * elem_size |
| BitMatrix.MovesTranspose | external/src/bitshuffle/bitshuffle_core.cc:75-82 | the three exchanges of the macro, as moves of places, together change places between row and column |
| BitMatrix.TransAt | external/src/bitshuffle/bitshuffle_core.cc:75-82 | the shift-and-mask word computation is the 8 x 8 bit transpose: bit i of byte k of the result is bit k of byte i |
| BitMatrix.TransposedTwice | external/src/bitshuffle/bitshuffle_core.cc:75-82 | transposing eight bytes twice gives them back |
| BitMatrix.TransposeEight | external/src/bitshuffle/bitshuffle_core.cc:189-198 | loading eight bytes, the macro, and taking the word apart byte by byte compute the bit transpose |
| BitshuffleSpec.BitElemAt | external/src/bitshuffle/bitshuffle_core.cc:242-262 | the three passes compose to one bit-matrix transpose: bit b of byte r of the row for bit k of byte j is bit k of byte j of element 8r + b |
| BitshuffleSpec.UnBitElemAt | external/src/bitshuffle/bitshuffle_core.cc:335-353 | the two inverse passes compose to the transpose back |
| BitshuffleSpec.UnshuffleShuffle | external/src/bitshuffle/bitshuffle_core.cc:242-353 | the inverse passes undo the three passes |
| BitshuffleSpec.ShuffleUnshuffle | external/src/bitshuffle/bitshuffle_core.cc:242-353 | the three passes undo the inverse passes |
| Bitshuffle.TransByteElemRemainder | external/src/bitshuffle/bitshuffle_core.cc:129-156 | every element from start on is at its place of the byte transpose, every written byte is a byte of the transpose, and a start that is no multiple of eight is refused with nothing written |
| Bitshuffle.TransByteElemScal | external/src/bitshuffle/bitshuffle_core.cc:160-164 | the output is the transpose of the bytes within elements and nothing else changes |
| Bitshuffle.TransBitByteRemainder | external/src/bitshuffle/bitshuffle_core.cc:168-201 | from the start byte on, row k holds bit k of eight consecutive bytes; a size or start that is no multiple of eight is refused with nothing written |
| Bitshuffle.TransBitByteScal | external/src/bitshuffle/bitshuffle_core.cc:205-209 | the output is the input with bits of eight bytes gathered into eight rows, or -80 and nothing written |
| Bitshuffle.TransElem | external/src/bitshuffle/bitshuffle_core.cc:213-226 | the output is the transpose of a lda x ldb matrix of elements of any size |
| Bitshuffle.TransBitrowEight | external/src/bitshuffle/bitshuffle_core.cc:230-238 | the output is the transpose of the 8 x elem_size matrix of bit rows |
| Bitshuffle.TransBitElemScal | external/src/bitshuffle/bitshuffle_core.cc:242-262 | the output is the bit transpose of the input, or -80 and nothing written when size is no multiple of eight |
| Bitshuffle.TransByteBitrowScal | external/src/bitshuffle/bitshuffle_core.cc:267-290 | the output is the transpose of the 8 * elem_size bit rows |
| Bitshuffle.ShuffleBitEightelemScal | external/src/bitshuffle/bitshuffle_core.cc:294-331 | in every group of eight elements the bits of every byte are transposed back |
| Bitshuffle.UntransBitElemScal | external/src/bitshuffle/bitshuffle_core.cc:335-353 | the output is the bit transpose undone, or -80 and nothing written when size is no multiple of eight |
| BitshuffleBlocks.DefaultBlockSize | external/src/bitshuffle/bitshuffle_core.cc:1357-1365 | the default is a multiple of eight and at least 128, eight more elements are over 8192 bytes, and above 128 the block itself is not |
| BitshuffleBlocks.BlocksAreQuotient | external/src/bitshuffle/bitshuffle_core.cc:1222-1229 | the number of full blocks and the rest are the quotient and the remainder of the source |
| BitshuffleBlocks.WrappedBack | external/src/bitshuffle/bitshuffle_core.cc:1196-1381 | bitunshuffle undoes bitshuffle, and the other way round, for every size, element size and block size that is a multiple of eight |
| BitshuffleLaws.WrappedAt | external/src/bitshuffle/bitshuffle_core.cc:1196-1381 | bit by bit, in both directions: in every full block and in the shorter block, of n elements at byte o, bit k of byte j of element 8 r + i of the plain buffer is bit i of byte o + (8 j + k) n / 8 + r of the shuffled one |
| BitshuffleLaws.RestIsCopied | external/src/bitshuffle/bitshuffle_core.cc:1238-1247 | the bytes of the last size % 8 elements stay as they are |
| BitshuffleLaws.BlocksCover | external/src/bitshuffle/bitshuffle_core.cc:1218-1247 | every other byte is in one of the blocks |
| BitshuffleDriver.Chain.constructor | external/src/bitshuffle/iochain.cc:22-33 | the next iteration gets the two start pointers |
| BitshuffleDriver.Chain.GetIn | external/src/bitshuffle/iochain.cc:48-62 | the iteration gets the next number and the pointer of its slot; only the counter changes |
| BitshuffleDriver.Chain.SetNextIn | external/src/bitshuffle/iochain.cc:65-70 | only the slot of the next iteration gets the new input pointer |
| BitshuffleDriver.Chain.GetOut | external/src/bitshuffle/iochain.cc:73-83 | the iteration gets the output pointer of its slot |
| BitshuffleDriver.Chain.SetNextOut | external/src/bitshuffle/iochain.cc:86-95 | only the slot of the next iteration gets the new output pointer |
| BitshuffleDriver.RunBlock | external/src/bitshuffle/bitshuffle_core.cc:1254-1298 | a block call writes its block of the result at its output pointer, moves both pointers on by the block, and refuses a size that is no multiple of eight |
| BitshuffleDriver.BlockedWrapFun | external/src/bitshuffle/bitshuffle_core.cc:1196-1250 | the driver, with default block size, full blocks, shorter last block and copied rest, writes exactly the blocked bit transpose and returns the number of bytes; -81 and nothing written for a block size that is no multiple of eight |
| Sse.Trans16At | external/src/bitshuffle/bitshuffle_core.cc:368-396 | the unpack network for 2-byte elements moves the binary digits of register and byte number by one fixed permutation |
| Sse.Trans32At | external/src/bitshuffle/bitshuffle_core.cc:400-442 | the same for 4-byte elements |
| Sse.Trans64At | external/src/bitshuffle/bitshuffle_core.cc:446-511 | the same for 8-byte elements |
| Sse.Shuffle2At | external/src/blosc/shuffle-sse2.cc:41-75 | the shuffle network for 2-byte elements as a permutation of binary digits |
| Sse.Shuffle4At | external/src/blosc/shuffle-sse2.cc:79-114 | the same for 4-byte elements |
| Sse.Shuffle8At | external/src/blosc/shuffle-sse2.cc:118-156 | the same for 8-byte elements |
| Sse.Shuffle16At | external/src/blosc/shuffle-sse2.cc:160-202 | the same for 16-byte elements |
| Sse.Unshuffle2At | external/src/blosc/shuffle-sse2.cc:262-285 | the unshuffle network for 2-byte elements as a permutation of binary digits |
| Sse.Unshuffle4At | external/src/blosc/shuffle-sse2.cc:289-323 | the same for 4-byte elements |
| Sse.Unshuffle8At | external/src/blosc/shuffle-sse2.cc:327-372 | the same for 8-byte elements |
| Sse.Unshuffle16At | external/src/blosc/shuffle-sse2.cc:376-437 | the same for 16-byte elements, registers in bit-reversed order |
| SseGroups.Trans16Right | external/src/bitshuffle/bitshuffle_core.cc:368-396 | byte i of register k is byte k of element i, for sixteen elements of 2 bytes |
| SseGroups.Trans32Right | external/src/bitshuffle/bitshuffle_core.cc:400-442 | the same for 4 bytes |
| SseGroups.Trans64Right | external/src/bitshuffle/bitshuffle_core.cc:446-511 | the same for 8 bytes |
| SseGroups.Shuffle2Right | external/src/blosc/shuffle-sse2.cc:41-75 | byte i of register k is byte k of element i, for sixteen elements of 2 bytes |
| SseGroups.Shuffle4Right | external/src/blosc/shuffle-sse2.cc:79-114 | the same for 4 bytes |
| SseGroups.Shuffle8Right | external/src/blosc/shuffle-sse2.cc:118-156 | the same for 8 bytes |
| SseGroups.Shuffle16Right | external/src/blosc/shuffle-sse2.cc:160-202 | the same for 16 bytes, and for the 16-byte columns of the tiled kernel |
| SseGroups.UnshuffleRight | external/src/blosc/shuffle-sse2.cc:262-437 | the register stored as number d of a group holds, byte by byte, the elements 16d/ts onwards in their original byte order |
| ByteElemSse.TransByteElemGroups | external/src/bitshuffle/bitshuffle_core.cc:368-511 | the vector loop and its scalar remainder together compute the byte transpose, for every size |
| ByteElemSse.TransElemType | external/src/bitshuffle/bitshuffle_core.cc:96-113 | rows in groups of eight and the last ones singly compute the transpose of the element matrix |
| ByteElemSse.ThreePassesAt | external/src/bitshuffle/bitshuffle_core.cc:543-571 | where each byte goes through chunk transpose, byte transpose and row-group transpose |
| ByteElemSse.ThreePassesTranspose | external/src/bitshuffle/bitshuffle_core.cc:543-571 | the hierarchical path is the direct byte transpose, for every number of chunks and every chunk size |
| ByteElemSse.TransByThreePasses | external/src/bitshuffle/bitshuffle_core.cc:543-571 | the three passes through two buffers write the byte transpose |
| ByteElemSse.TransByteElem | external/src/bitshuffle/bitshuffle_core.cc:515-573 | whichever branch is taken for the element size, the output is the byte transpose and nothing else changes |
| BloscGroups.ShuffleSmall | external/src/blosc/shuffle-sse2.cc:41-202 | the 2-, 4-, 8- and 16-byte kernels put every byte of the first groups of sixteen elements at its place of the transpose |
| BloscGroups.ShuffleTiled | external/src/blosc/shuffle-sse2.cc:206-258 | the tiled kernel does so for every type size over 16; the overlapping first step, which writes rows again, writes the same bytes |
| BloscGroups.UnshuffleSmall | external/src/blosc/shuffle-sse2.cc:262-437 | the unshuffle kernels put every byte of the first groups of sixteen elements back |
| BloscGroups.UnshuffleTiled | external/src/blosc/shuffle-sse2.cc:441-511 | the tiled unshuffle kernel does so for every type size over 16 |
| Blosc.ShuffleGenericFrom | external/src/blosc/shuffle-generic.cc:15-35 | shuffling from any element on completes a block whose first elements are shuffled |
| Blosc.UnshuffleGenericFrom | external/src/blosc/shuffle-generic.cc:37-57 | unshuffling from any element on completes a block whose first elements are unshuffled |
| Blosc.ShuffleGeneric | external/src/blosc/shuffle-generic.cc:60-65 | the output is the transpose of the whole elements followed by the leftover bytes |
| Blosc.UnshuffleGeneric | external/src/blosc/shuffle-generic.cc:68-73 | the output is the transpose back followed by the leftover bytes |
| Blosc.ShuffleSse2 | external/src/blosc/shuffle-sse2.cc:515-568 | for every type size and block size the same output as the generic shuffle |
| Blosc.UnshuffleSse2 | external/src/blosc/shuffle-sse2.cc:572-626 | for every type size and block size the same output as the generic unshuffle |
| Blosc.UnshuffleShuffle | external/src/blosc/shuffle-generic.cc:15-57 | unshuffling restores what was shuffled, by either implementation |
| Blosc.ShuffleUnshuffle | external/src/blosc/shuffle-generic.cc:15-57 | shuffling restores what was unshuffled, by either implementation |
| Blosc.ShuffledAt | external/src/blosc/shuffle-generic.cc:14-57 | byte j of element i of q elements goes to place j q + i, and unshuffling takes it from there |
| Blosc.LeftOver | external/src/blosc/shuffle-generic.cc:14-57 | the bytes that are no whole element stay as they are |
| CellBox.RowNextIsNext | tiledb/sm/array_schema/domain.cc:1178-1190 | on unbounded coordinates, the row-major successor has the next row-major position |
| CellBox.ColNextIsNext | tiledb/sm/array_schema/domain.cc:1163-1176 | on unbounded coordinates, the column-major successor has the next column-major position |
| CellSteps.NextCoordsRow | tiledb/sm/array_schema/domain.cc:1178-1190 | the in-place carry loop, whose increments wrap in the coordinate type, computes the row-major step of that type and its report; the tile version is the same loop |
| CellSteps.NextCoordsCol | tiledb/sm/array_schema/domain.cc:1163-1176 | the same for the column-major step |
| CellSteps.StepsAreRightIff | tiledb/sm/array_schema/domain.cc:1163-1240 | every step in a box goes to the successor and reports a further cell exactly if there is one, if and only if no upper bound is the greatest value of the type, in either layout |
| CellSteps.VisitsIn | tiledb/sm/array_schema/domain.cc:1163-1240 | then k steps from the lowest corner are at the cell with position k, and a further cell is reported exactly before the last |
| CellSteps.VisitsEachOnceIn | tiledb/sm/array_schema/domain.cc:1163-1240 | then every cell is reached after exactly one number of steps, its position |
| CellSteps.EndIsReportedIff | tiledb/sm/array_schema/domain.cc:1163-1240 | a run from the lowest corner ever reports the end if and only if no upper bound is the greatest value of the type |
| CellSteps.WrapExample | tiledb/sm/array_schema/domain.cc:1178-1190 | from the last cell of [0, 255] in 8 bits the step goes to the first cell and reports it |
| CellSteps.NoCarryExample | tiledb/sm/array_schema/domain.cc:1163-1176 | a full 8-bit dimension does not carry into the next one |
| CellBox.PosInjective | tiledb/sm/array_schema/domain.cc:996-1161 | no two cells of a box have the same position, in either layout |
| CellBox.PosBound | tiledb/sm/array_schema/domain.cc:996-1161 | a position is below the number of cells of the box |
| PositionLoops.PosRowLoop | tiledb/sm/array_schema/domain.cc:1085-1103 | the loop that divides the running offset, in 64 bits: the sum of the digits times the offsets that it divides out of the wrapped product |
| PositionLoops.LoopOffsetIs | tiledb/sm/array_schema/domain.cc:1085-1103 | as long as the product has 64 bits, every division is exact and the offsets are those of the row-major order |
| PositionLoops.PosColLoop | tiledb/sm/array_schema/domain.cc:980-988 | the loop that multiplies the running offset, in 64 bits, computes the column-major number modulo 2^64 |
| PositionLoops.PosRow | tiledb/sm/array_schema/domain.cc:1111-1161 | in a subarray the formulas for one, two and three dimensions compute the row-major number modulo 2^64, and with more dimensions the position is that of the loop that divides |
| PositionLoops.PosCol | tiledb/sm/array_schema/domain.cc:996-1031 | in a subarray the formulas for one, two and three dimensions and the general loop compute the same column-major number modulo 2^64 |
| CellNumbers.CellNumberRow | tiledb/sm/array_schema/domain.cc:1044-1106 | the number that the unrolled forms, multiplying in the arithmetic type of the coordinates, or the general loop give to normalised coordinates |
| CellNumbers.CellNumberCol | tiledb/sm/array_schema/domain.cc:939-991 | the same in column-major order |
| CellNumbers.CellNumbersIff | tiledb/sm/array_schema/domain.cc:928-1109 | unrolled forms and loop number every cell of a tile alike if and only if the largest products of the unrolled forms fit the arithmetic type |
| CellNumbers.ProductExample | tiledb/sm/array_schema/domain.cc:1052-1064 | two cells of a tile of 65537 x 65537 cells with 32-bit coordinates get the same number |
| Coordinates.NormsIff | tiledb/sm/array_schema/domain.cc:943-944 | the coordinate in the tile, normalised in the coordinate type, is right for every coordinate of a dimension if and only if hi - lo fits the type, or the extent is 1, or only one multiple of the extent overflows |
| Coordinates.TilesIff | tiledb/sm/array_schema/domain.cc:372-379 | the tile number, stored in the coordinate type, is right for every coordinate of a dimension if and only if differences do not overflow and the last tile number fits the type |
| Coordinates.NarrowExample | tiledb/sm/array_schema/domain.cc:943-944 | wrong places and a wrong tile in [-100, 99] with 8-bit coordinates |
| DomainMethods.GetTileCoords | tiledb/sm/array_schema/domain.cc:372-379 | per dimension, the tile number as stored in the coordinate type, for any coordinates |
| DomainMethods.TileCoordsRight | tiledb/sm/array_schema/domain.cc:372-379 | where the tile numbers fit, it is the tile of the cell |
| DomainMethods.GetCellPos | tiledb/sm/array_schema/domain.cc:381-395 | the number, in the cell order, of the coordinates as normalised in the coordinate type |
| DomainMethods.CellPosRight | tiledb/sm/array_schema/domain.cc:928-1109 | where coordinates, products and the cells of a tile fit, it is the position of the cell in its tile |
| CellPlaces.CellPosIff | tiledb/sm/array_schema/domain.cc:928-1109 | in tiles of at most 2^63 cells that do not exceed the domain, every cell gets its position in its tile if and only if the coordinates counted from the lower bounds fit (as in NormsIff) and so do the products (as in CellNumbersIff) |
| SubarrayPositions.GetCellPosIn | tiledb/sm/array_schema/domain.cc:996-1161 | the position, in either layout and in 64 bits, from the coordinates in a subarray and its sizes as computed in the arithmetic type |
| SubarrayPositions.CellPosInIff | tiledb/sm/array_schema/domain.cc:996-1161 | every cell of a subarray of at most 2^63 cells gets its position if and only if all differences are kept (fit the arithmetic type, or it has 64 bits) and so is every size, except one that is multiplied with nothing and divides nothing |
| SubarrayPositions.CellPosInRight | tiledb/sm/array_schema/domain.cc:996-1161 | so with coordinates of 64 bits, and with those of up to 16, it always is |
| SubarrayPositions.WideSubarrayExample | tiledb/sm/array_schema/domain.cc:1121-1127 | with 32-bit coordinates, the second of two rows of 2^31 cells starts at 2^64 - 2^31; the check accepts the extent of that dimension |
| DomainMethods.GetTilePosCol | tiledb/sm/array_schema/domain.cc:1253-1278 | computed offsets and sum give the column-major number of a tile, modulo 2^64 |
| DomainMethods.GetTilePosRow | tiledb/sm/array_schema/domain.cc:1291-1322 | computed and reversed offsets and sum give the row-major number of a tile, modulo 2^64 |
| DomainMethods.GetTilePos | tiledb/sm/array_schema/domain.cc:469-476 | on any domain and for any tile coordinates of the type, the number in the tile order among the whole tiles, counted in the arithmetic type, modulo 2^64 |
| DomainMethods.TileNumsIff | tiledb/sm/array_schema/domain.cc:1259-1269 | the counts are the numbers of whole tiles if and only if the cells of every dimension fit the arithmetic type, or it has 64 bits and the tiles one cell |
| TileNumbers.TilePosOneToOneIff | tiledb/sm/array_schema/domain.cc:1253-1322 | get_tile_pos gives different tiles of a regular domain different positions if and only if every dimension inside one with more than one tile is a whole number of tiles |
| TileNumbers.PartialExample | tiledb/sm/array_schema/domain.cc:1291-1322 | two tiles of [0, 10] x [0, 10] with tiles of 4 x 4 that have position 2 |
| TileNumbers.CachedOffsetsCol | tiledb/sm/array_schema/domain.cc:904-912 | the cached column-major offsets: each times the tile count of its own dimension |
| TileNumbers.CachedOffsetsRow | tiledb/sm/array_schema/domain.cc:914-925 | the cached row-major offsets: each times the tile count of its own dimension |
| TileNumbers.CachedTilePos | tiledb/sm/array_schema/domain.cc:1242-1289 | the sum of tile coordinates times cached offsets |
| TileNumbers.CachedPositionsIff | tiledb/sm/array_schema/domain.cc:896-926 | cached positions are right on every tile if and only if each dimension has one tile or as many as the last one (row-major) or the first one (column-major) |
| TileNumbers.CachedExample | tiledb/sm/array_schema/domain.cc:914-925 | two of 2 x 3 tiles with the same cached position |
| DomainMethods.OrderCmp | tiledb/sm/array_schema/domain.cc:244-272 | the early-exit loop over the dimensions is lexicographic comparison, first or last dimension first |
| DomainMethods.CellOrderCmp | tiledb/sm/array_schema/domain.cc:244-272 | the sign of lexicographic comparison in the cell order |
| DomainMethods.TileOrderCmp | tiledb/sm/array_schema/domain.cc:660-722 | the sign of lexicographic comparison, in the tile order, of the tile numbers as computed in the arithmetic type |
| DomainMethods.TileKeysIff | tiledb/sm/array_schema/domain.cc:660-677 | those are the tiles of all cells if and only if no difference overflows, or the type has 64 bits and the tiles one cell |
| GlobalOrders.PositionsAgreeWithOrder | tiledb/sm/array_schema/domain.cc:197-272 | where everything kept in the coordinate type fits it and tile positions 64 bits, comparing tiles and then cells agrees with comparing computed tile position * cells per tile + computed cell position, for all four pairs of orders and any number of dimensions |
| GlobalOrders.PositionsAreOneToOne | tiledb/sm/array_schema/domain.cc:381-395 | then that number is below the number of cells, and different for different cells |
| GlobalOrders.PositionsAreOnto | tiledb/sm/array_schema/domain.cc:469-476 | then every number below the number of cells is that of a cell |
| GlobalOrders.NarrowPositions | tiledb/sm/array_schema/domain.cc:1033-1051 | with 8-bit coordinates in [-100, 99] and tiles of 50, cell 55 has position 2^64 - 1 in its tile and cell 56 position 0 |
| GlobalOrders.NarrowDomainExample | tiledb/sm/array_schema/domain.cc:1033-1051 | so positions and order of the two cells disagree |
| CellSlabs.GetEndOfCellSlab | tiledb/sm/array_schema/domain.cc:397-424 | the last cell of the slab for a layout, with the end of the tile as stored in the coordinate type; what that cell is for is said by the four rows of SlabOrders |
| SlabOrders.SlabFollowsOrder | tiledb/sm/array_schema/domain.cc:397-424 | for row-major and column-major layout: from every cell of the slab but its last, the successor in that layout of the subarray is the next cell of the slab, in the same tile and at the next computed position |
| SlabOrders.SlabFollowsGlobalOrder | tiledb/sm/array_schema/domain.cc:397-424 | for the global order: the next cell along the slab has the next computed global position |
| SlabOrders.SlabGoesToTheEnd | tiledb/sm/array_schema/domain.cc:397-424 | for the global order and the cell order the slab ends only at the end of the subarray or of the tile, and the stride is UINT64_MAX |
| SlabOrders.OtherOrderStrides | tiledb/sm/array_schema/domain.cc:559-575 | for the other layout a slab is one cell, and its successor in that layout, in the same row of the subarray and the same tile, is the computed stride further on |
| CellSlabs.SlabEndIff | tiledb/sm/array_schema/domain.cc:397-424 | for every integer type, the end of a slab is right if and only if the end of its tile fits the type or, when the distance of the start from the lower bound overflows, the end computed from the wrong remainder fits and either nothing is wrong with it or the subarray ends before the tile |
| CellSlabs.SlabEndsAreRightIff | tiledb/sm/array_schema/domain.cc:397-424 | all slabs along a dimension end where they should if and only if the expanded dimension fits the type or, when distances overflow, the tiles have one cell, or all cells whose distance overflows are in the last tile and its computed end fits |
| CellSlabs.NarrowSlabExample | tiledb/sm/array_schema/domain.cc:404-410 | in [0, 250] with 8-bit coordinates and tiles of 100, the slab from 200 ends at 43 |
| CellSlabs.WideSlabExample | tiledb/sm/array_schema/domain.cc:404-410 | with 32-bit coordinates from -2^31 to 2147483000 and tiles of 1000, which the check accepts, the slab from 0 ends at 1647, beyond its tile, which ends at 351 |
| CellSlabs.SlabIsContiguous | tiledb/sm/array_schema/domain.cc:397-424 | where the slab fits (exactly as in SlabEndIff) and the positions fit, the cells up to its computed end lie in one tile at consecutive computed positions |
| CellSlabs.SlabIsMaximal | tiledb/sm/array_schema/domain.cc:397-424 | where the slab fits, the computed end is in the subarray and the cell after it is outside or in another tile |
| CellSlabs.Stride | tiledb/sm/array_schema/domain.cc:559-575 | the stride for a layout, tied to successors in that layout by SlabGoesToTheEnd and OtherOrderStrides |
| CellSlabs.NeighboursAreAStrideApart | tiledb/sm/array_schema/domain.cc:559-575 | where the positions fit, two neighbours along the fastest dimension of the other layout are that stride apart in computed positions |
| DimensionTiles.SplittingValueSplits | tiledb/sm/array_schema/dimension.cc:874-885 | a range is unsplittable exactly when it is one point, and otherwise both parts are not empty |
| DimensionTiles.SplitsInHalves | tiledb/sm/array_schema/dimension.cc:874-885 | both parts have as many points, or the first has one more |
| DimensionTiles.SplitToTheEnd | tiledb/sm/array_schema/dimension.cc:811-885 | every range can be split at its splitting values until nothing can be split |
| DimensionTiles.RoundsAreDigits | tiledb/sm/array_schema/dimension.cc:811-885 | splitting a range at its splitting values until nothing can be split takes exactly as many rounds as its length has binary digits |
| DimensionTiles.SplittingValueIff | tiledb/sm/array_schema/dimension.cc:874-885 | computed in the coordinate type, the splitting value is the same if and only if no signed difference of 32 or 64 bits overflows, and whether the range can be split is always right |
| DimensionTiles.SplitOutsideExample | tiledb/sm/array_schema/dimension.cc:874-885 | a range of 32-bit coordinates for which the splitting value is -2^31, outside the range |
| DimensionTiles.SplittingEnds | tiledb/sm/array_schema/dimension.cc:811-885 | no tree of splits, in any order and at any values, has more splits than the range has gaps |
| DimensionTiles.LeavesArePoints | tiledb/sm/array_schema/dimension.cc:811-885 | splitting until nothing can be split leaves exactly the points of the range, each once, in order |
| DimensionTiles.TileNumCounts | tiledb/sm/array_schema/dimension.cc:902-916 | tile_num is the number of tiles that hold a point of the range |
| RangeCeilings.CeilIff | tiledb/sm/array_schema/dimension.cc:312-332 | for every integer type, ceil_to_tile(r, k), whose intermediate cell has the coordinate type, is the last cell of the k-th tile after the one where r starts if and only if that intermediate cell fits or, for signed types of 32 and 64 bits, its distance and the number of values are whole numbers of tiles |
| RangeCeilings.CeilsAreRightIff | tiledb/sm/array_schema/dimension.cc:312-332 | all of them are, over all ranges of a dimension, if and only if it is one tile, or has tiles of one cell, or the expanded dimension fits |
| RangeCeilings.CeilSplits | tiledb/sm/array_schema/dimension.cc:312-332 | whenever it is, splitting there leaves exactly k + 1 tiles on the left and the tile counts of the parts add up |
| RangeCeilings.NarrowCeilExample | tiledb/sm/array_schema/dimension.cc:312-332 | in [0, 250] with 8-bit coordinates and tiles of 100, ceil_to_tile([99, 250], 1) is 255 |
| RangeCeilings.SignedCeilExample | tiledb/sm/array_schema/dimension.cc:312-332 | with 32-bit coordinates up to 2147483646 and tiles of 1073741825, which the check accepts, ceil_to_tile gives -1073741826 for 1073741824 |
| DimensionTiles.CoincidesIs | tiledb/sm/array_schema/dimension.cc:353-366 | a range of whole tiles is one with both ends on tile boundaries |
| RangeRounding.CoincidesIff | tiledb/sm/array_schema/dimension.cc:353-366 | coincides_with_tiles, whose first distance is computed in the arithmetic type, holds exactly for those, if and only if that distance is kept in 64 bits, or the end is on no boundary, or the distance as it is taken is a number of whole tiles exactly when it should be |
| RangeRounding.ExpandedIsAligned | tiledb/sm/array_schema/dimension.cc:601-619 | whenever ExpandIff says so, the computed expansion is aligned, contains the range and meets the same tiles |
| RangeRounding.ExpandedIsLeast | tiledb/sm/array_schema/dimension.cc:601-619 | and every aligned range that contains the range contains it |
| RangeRounding.ExpandedIsFixed | tiledb/sm/array_schema/dimension.cc:601-619 | where the distances fit, computed expansion leaves alone exactly the ranges of whole tiles |
| RangeRounding.ExpandTwiceIff | tiledb/sm/array_schema/dimension.cc:601-619 | expanding a right expansion again changes nothing if and only if the distance of its end fits |
| RangeRounding.ExpandContainsIff | tiledb/sm/array_schema/dimension.cc:601-619 | for every integer type and every range of the type, also below the domain, exactly when the computed expansion contains the range, from the remainders of the distances |
| RangeRounding.ExpandContainsExactIff | tiledb/sm/array_schema/dimension.cc:601-619 | where differences do not overflow: if and only if the range does not start below the domain or starts on a tile boundary, and the end of the expansion fits the type or, below a domain smaller than a tile, wraps to beyond the range |
| RangeRounding.ExpandInIs | tiledb/sm/array_schema/dimension.cc:601-619 | the ends of the computed expansion, from the quotients in the arithmetic type, as stored in the coordinate type |
| RangeRounding.ExpandIff | tiledb/sm/array_schema/dimension.cc:601-619 | the computed expansion is from the first cell of the first tile to the last cell of the last tile if and only if the distances of both ends fit (or overflow without being rounded) and the last cell fits the type |
| RangeRounding.ExpandsAreRightIff | tiledb/sm/array_schema/dimension.cc:601-619 | it is for all ranges of a dimension if and only if all distances fit and so does the expanded dimension |
| RangeRounding.NarrowExpandExample | tiledb/sm/array_schema/dimension.cc:601-619 | in [0, 250] with 8-bit coordinates and tiles of 100, which the check accepts, [200, 250] is expanded to [200, 43] |
| RangeRounding.WideExpandExample | tiledb/sm/array_schema/dimension.cc:601-619 | with 64-bit coordinates, more than 2^63 cells and tiles of 3, which the check accepts, [0, 0] is expanded to [2, 4] |
| RangeRounding.UnsignedBelowExample | tiledb/sm/array_schema/dimension.cc:601-619 | below the domain a 64-bit unsigned difference wraps, and the expansion contains the range after all |
| RangeRounding.ExpandBelowDomain | tiledb/sm/array_schema/dimension.cc:601-619 | a range below the domain that its expansion does not contain |
| DimensionTiles.ExpandedMaxIsMax | tiledb/sm/array_schema/dimension.cc:601-619 | no range of the domain expands further than the domain itself |
| DimensionTiles.ExpandedFitsIff | tiledb/sm/array_schema/dimension.cc:1253-1326 | exactly when the expanded domain is representable in the type of the dimension |
| DimensionTiles.CheckWideIff | tiledb/sm/array_schema/dimension.cc:1253-1326 | for 64-bit types, exactly which extents are accepted (positive, at most the number of cells, and the expanded domain fits) and which of the three refusals another one gets |
| DimensionTiles.CheckNarrowIff | tiledb/sm/array_schema/dimension.cc:1253-1326 | for types of at most 32 bits, exactly the positive extents up to the number of cells are accepted, whether the expanded domain fits or not, unless the domain fills a 32-bit type |
| RangeRounding.AcceptedFits | tiledb/sm/array_schema/dimension.cc:1253-1326 | for 64-bit types an accepted extent keeps the expanded dimension in the type |
| RangeRounding.AcceptedExpandsIff | tiledb/sm/array_schema/dimension.cc:1253-1326 | and then the computed expansion of every range of the dimension is right if and only if the distances fit: for a signed type, no more than 2^63 cells, or tiles of one cell, or one cell more that starts a tile |
| DimensionTiles.NarrowTypeCounterexample | tiledb/sm/array_schema/dimension.cc:1253-1326 | for an 8-bit type the check accepts an extent whose expanded domain does not fit |
| DimensionTiles.FullTypeExample | tiledb/sm/array_schema/dimension.cc:1276-1282 | for a domain that fills a 32-bit type the check refuses every extent |
| StringRanges.CommonPrefixSize | tiledb/sm/misc/utils.cc:353-361 | the length of the longest common prefix |
| StringRanges.UnsplittableIff | tiledb/sm/array_schema/dimension.cc:839-871 | exactly which ranges are unsplittable: one string, or an end that continues the start with the character zero |
| StringRanges.SplitsInTheMiddle | tiledb/sm/array_schema/dimension.cc:839-871 | the splitting value continues the common prefix with a character in the middle between those of start and end |
| StringRanges.SplitIsProper | tiledb/sm/array_schema/dimension.cc:788-871 | both parts are not empty, lie inside the range, keep its ends, and the first ends before the second starts |
| StringRanges.SplitShrinks | tiledb/sm/array_schema/dimension.cc:788-871 | each part has a shorter remaining end than the range, or as long a one and a smaller character gap |
| StringRanges.SplitAllEnds | tiledb/sm/array_schema/dimension.cc:788-871 | splitting every part as long as possible ends, in unsplittable, disjoint ranges in order inside the range |
| StringRanges.LostIff | tiledb/sm/array_schema/dimension.cc:788-808 | exactly which strings of the range a split puts in neither part |
| StringRanges.LostExample | tiledb/sm/array_schema/dimension.cc:788-808 | a split that loses a string |
| StringRanges.EverySplitLoses | tiledb/sm/array_schema/dimension.cc:788-808 | every split loses a string of the range, the splitting value with the character zero appended |
| StringRanges.LeavesCoverIff | tiledb/sm/array_schema/dimension.cc:788-871 | the leaves of repeated splitting cover the range if and only if it was not split at all |
| TileDomains.TileDomain.constructor | tiledb/sm/array_schema/tile_domain.h:79-97 | the object holds the tile domain and the offsets of its slice, as stored in the coordinate type |
| TileDomains.TileDomainOf | tiledb/sm/array_schema/tile_domain.h:300-314 | the tile numbers of the two corners of the slice, as stored in the coordinate type |
| TileDomains.TileDomainIff | tiledb/sm/array_schema/tile_domain.h:300-314 | they are the tiles of the corners if and only if no difference overflows and the tile numbers fit the type |
| TileDomains.TileDomain.InTileDomain | tiledb/sm/array_schema/tile_domain.h:148-156 | whether a tile lies between those corners |
| TileDomains.TileDomain.TileOverlap | tiledb/sm/array_schema/tile_domain.h:182-199 | none exactly for a tile outside the computed tile domain, and otherwise the corners of the part of the slice in the tile, from tile bounds stored in the coordinate type |
| TileDomains.OverlapsAreRightIff | tiledb/sm/array_schema/tile_domain.h:162-199 | tile_overlap gives the part of the slice for every tile that the slice meets, and then also nothing for every other one, if and only if the tile numbers of the slice and the ends of its last tiles fit the type |
| TileDomains.ExpandedEndsFit | tiledb/sm/array_schema/tile_domain.h:162-174 | the ends fit if the expanded domain does |
| TileDomains.ComputedOverlapsPartition | tiledb/sm/array_schema/tile_domain.h:182-199 | where both fit, no computed overlap is empty and they partition the slice: a cell is in that of exactly one tile, its own |
| TileDomains.NoOverlapExample | tiledb/sm/array_schema/tile_domain.h:182-199 | in [-100, 99] with 8-bit coordinates and tiles of one cell, which the check accepts, all ends fit and every overlap is empty |
| TileDomains.NarrowOverlapExample | tiledb/sm/array_schema/tile_domain.h:162-199 | in [0, 250] with 8-bit coordinates and tiles of 100, the overlap with tile 2 is from 200 to 43 |
| TileDomains.TileDomain.CoversOther | tiledb/sm/array_schema/tile_domain.h:205-221 | whether the computed overlap of the other slice lies inside this one's |
| TileDomains.ComputedCoversIff | tiledb/sm/array_schema/tile_domain.h:205-221 | where tile numbers and ends fit, that holds exactly when every cell of the other slice in that tile is a cell of this one |
| TileDomains.ComputedCoversTransitive | tiledb/sm/array_schema/tile_domain.h:205-221 | covering by computed overlaps is transitive, for every type |
| TileDomains.TileOffsetsCol | tiledb/sm/array_schema/tile_domain.h:320-330 | each offset is the one before times the number of tiles there, stored in the coordinate type |
| TileDomains.TileOffsetsRow | tiledb/sm/array_schema/tile_domain.h:336-352 | the same from the last dimension back |
| TileDomains.PosLoop | tiledb/sm/array_schema/tile_domain.h:235-245 | the sum of products in the arithmetic type, or UINT64_MAX at the first coordinate outside |
| TileDomains.TileDomain.TilePos | tiledb/sm/array_schema/tile_domain.h:235-245 | that sum with the offsets of the object |
| TileDomains.TilePositionsIff | tiledb/sm/array_schema/tile_domain.h:235-352 | with offsets stored in the coordinate type, every tile of n tiles has its number if and only if, in each dimension with more than one tile, the offset fits the type and its largest multiple the arithmetic type |
| TileDomains.TileDomain.TilePosIff | tiledb/sm/array_schema/tile_domain.h:235-245 | tile_pos is the number of the tile, on every tile of a tile domain, if and only if the positions fit |
| TileDomains.TileDomain.TilePosOneToOne | tiledb/sm/array_schema/tile_domain.h:235-245 | then tile_pos is below the tile count exactly on the tile domain and UINT64_MAX exactly outside, and no two tiles share a position |
| TileDomains.TileDomain.TilePosOnto | tiledb/sm/array_schema/tile_domain.h:235-245 | then every number below the tile count is the position of a tile, in either layout |
| TileDomains.CollisionExample | tiledb/sm/array_schema/tile_domain.h:336-352 | with 20 x 20 x 20 tiles and 8-bit coordinates, tiles (1, 0, 0) and (0, 7, 4) both have position 144 |
| Md5.AddBits | external/src/md5/md5.cc:104-108 | the two-word count with its carries stays the number of bits modulo 2^64 |
| Md5.Pending | external/src/md5/md5.cc:101-102 | bits 3 to 8 of the count are the number of bytes in the input buffer |
| Md5.LoadWords | external/src/md5/md5.cc:116-120 | byte j of word i, counted from the low-order one, is byte 4 i + j of the buffer |
| Md5.WordAt | external/src/md5/md5.cc:116-120 | the four bytes of a word by quotients and remainders, the low-order byte first |
| Md5.InitialBytes | external/src/md5/md5.cc:90-93 | the initial state is 01 23 45 67 89 ab cd ef fe dc ba 98 76 54 32 10, as section 3.3 of RFC 1321 lists it |
| Md5.StoreDigest | external/src/md5/md5.cc:151-160 | byte 4 i + j of the digest is byte j of word i, counted from the low-order one |
| Md5.BytesAt | external/src/md5/md5.cc:151-160 | a word is taken apart low-order byte first |
| Md5.WordOfBytes | external/src/md5/md5.cc:133-135 | the count words appended directly are the words of the length bytes of the padded message |
| Md5.Context.constructor | external/src/md5/md5.cc:86-94 | a new context has absorbed the empty message |
| Md5.Context.Update | external/src/md5/md5.cc:96-125 | a context that has absorbed a message has absorbed message + input afterwards: state folded over the complete blocks, the rest buffered, bits counted |
| Md5.Context.Final | external/src/md5/md5.cc:127-161 | the digest is that of the padded message of RFC 1321, for every length |
| Md5.LastBlock | external/src/md5/md5.cc:133-149 | padding and count complete the last block or the last two blocks exactly as the padded message has them |
| Md5.PaddedAt | external/src/md5/md5.cc:133-149 | after the message come 0x80, fewer than 64 zero bytes and the number of its bits in eight bytes, the low-order byte first, and together they fill blocks |
| Md5.DigestAt | external/src/md5/md5.cc:151-160 | the digest is the state after all blocks of the padded message, word by word, low-order byte first |
| Md5.HashChunks | external/src/md5/md5.cc:86-161 | however a message is cut into calls, empty ones included, the digest is that of the whole message |
| BufferLists.Buffer.Read | tiledb/sm/buffer/buffer.cc:153-161 | a read copies the next bytes and moves on, or refuses to read beyond the end and changes nothing |
| BufferLists.BufferList.AddBuffer | tiledb/sm/buffer/buffer_list.cc:46-49 | the contents grow at the end, the position stays |
| BufferLists.BufferList.ReadAtMost | tiledb/sm/buffer/buffer_list.cc:77-115 | never an error; the bytes that one contiguous buffer would give, wherever boundaries and empty buffers are; a short read goes back to the start of the last buffer |
| BufferLists.BufferList.Read | tiledb/sm/buffer/buffer_list.cc:66-75 | succeeds exactly when enough bytes are left |
| BufferLists.BufferList.ResetOffset | tiledb/sm/buffer/buffer_list.cc:117-121 | the position is the start of the contents |
| BufferLists.BufferList.TotalSize | tiledb/sm/buffer/buffer_list.cc:123-128 | the length of the contents |
| BufferLists.SatisfiedReadsAreConsecutive | tiledb/sm/buffer/buffer_list.cc:82-115 | the outputs of any run of satisfied reads, joined, are one slice of the contents |
| BufferLists.EachReadIsItsSlice | tiledb/sm/buffer/buffer_list.cc:82-115 | each output is the slice where the sizes before it end |
| BufferLists.FirstShortReadDrains | tiledb/sm/buffer/buffer_list.cc:82-115 | the first short read gives exactly the bytes that are left |
| BufferLists.AfterShortRead | tiledb/sm/buffer/buffer_list.cc:102-108 | a read after a short one finds nothing exactly when the last buffer is empty; otherwise bytes of the last buffer come again |
| BufferLists.RereadExample | tiledb/sm/buffer/buffer_list.cc:82-115 | a list of one buffer gives its byte again after a short read |

## Left out

- The AVX2 code, and the SSE paths that gather bits with a movemask instruction: the same claims with other lane moves.
- Choosing an implementation by processor, and the branches for big-endian machines.
- Failing memory allocation, which the scalar passes report with -1; scratch buffers are always available here.
- Wrap-around of 64-bit sizes, of cached tile offsets and of the iteration counter: they are unbounded integers. Positions are taken modulo 2^64, and theorems on them are for tiles and subarrays of at most 2^63 cells, tile domains of at most 2^63 tiles and domains of at most 2^64 tiles.
- Signed overflow, which C++ leaves undefined: stored values wrap as on two's complement machines.
- The memory model below locks: a lock has at most one holder and an access under a lock sees the last write.
- The order in which a compiler arranges the stores of one block: a block is any sequence of stores that computes its result.
- The 2-byte branch of the hierarchical byte transpose, which no element size reaches because the scalar code takes those sizes; ThreePassesTranspose covers it all the same.
- The round function of MD5, a parameter of the model, and every cryptographic claim.
- Floating-point dimensions, `overlap_ratio` and `nextafter`.
- Comparators for string dimensions and for dimensions without a tile extent.
- `Domain` set-up, range expansion and cropping, serialization, printing and the tables that select a function by datatype.
- Arrays, fragments, REST and storage managers, filters and all input and output.
- EveryScheduleWraps: says nothing about runs in which a block call fails; with block sizes that are multiples of eight none does.
- AcceptedFits: only for types as wide as the 64-bit comparison of the check; for narrower types the exact condition is ExpandedFitsIff.
- UnsplittableIff: string ranges with an empty start are not modelled; for those the range class takes the bytes for two halves and reads the end of the range from the middle of it on, past the last byte (tiledb/sm/misc/types.h:140-167).
- GetCellPosIn: with more than three dimensions in row-major order, not for sizes that are taken for 0, by which the source divides; they are those of dimensions for which the check refuses every extent.
- TileNumCounts: the quotients of tile_num pass through a double, which is exact up to 2^53; what happens beyond is not modelled, nor are signed differences that overflow, because converting a negative double to an unsigned integer is undefined.
