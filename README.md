# SnowRabbit runtime core in Dafny

This project models the runtime memory layer of the SnowRabbit script virtual
machine and the stateful tables around it:

- **Value cell.** `SrValue` is a 64-bit primitive overlaid by every integer
  view, plus an object reference. See `SrValue.dfy`.
- **Memory windows.** `MemoryBlock` is a non-owning window over a shared pool
  of cells. See `MemoryBlock.dfy`.
- **Allocator utility.** The byte-size and cell-count arithmetic, and the
  request check shared by every allocator. See `AllocatorUtility.dfy`.
- **Standard allocator.** `StandardMemoryAllocator` carves a pool into runs:
  - each run has a head record (count, kind) and a tail record (size, next free run);
  - allocation is first-fit over a singly linked free list, splitting the run found;
  - freeing merges with the previous run, or appends the run to the free list.

  `PoolLayout.dfy` states the layout invariant and the pure transitions.
  `StandardAllocator.dfy` is the class over the array, proved against them.
- **Dynamic allocator.** `DynamicManagedMemoryAllocator` gives every request a
  fresh zeroed array. See `DynamicAllocator.dfy`.
- **Virtual memory.** `SrVirtualMemory` is the four-segment address space
  (program, global, heap, stack). See `VirtualMemory.dfy`.
- **Process.** `SrProcess` covers construction and the dispose pattern. See
  `Process.dfy`.
- **Machine.** `SrvmMachine` covers part creation, guarded access and dispose
  ordering. See `Machine.dfy`.
- **Peripheral.** `SrvmPeripheral` is the function-registration table. See
  `Peripheral.dfy`.
- **Endianness control.** `StreamEndiannessControl` reads and writes integers
  and length-prefixed strings in the control's byte order. Its reads decode in
  that order on every host. Its integer writes as written follow the host's
  order instead, and its string write overwrites the start of the text (rows 3
  and 4 of Findings). The model's class writes the corrected form, and the
  as-written forms are kept beside it (see the Left out line "The class writes
  through the corrected `Pack` and `WriteString`"). See `Endianness.dfy`.
- **Assembler coder.** `CarrotBinaryCoder` holds the assembler's symbol tables,
  instruction generation and operand pattern checks. See `Coder.dfy`.

Exceptions become `Result`/`Outcome` values carrying an `Error` (`Wrappers.dfy`).
C# `int` is the subset type `int32`, and unchecked wrap-around is written out
with `Wrap32`.

Each stateful class is specified the same way:

- a pure function of its state, such as `Tables`, `Lifecycle`, `MachineState`,
  `CoderState`, or the pool's cell sequence;
- every mutating method ensures that the new state equals a pure transition
  (`Add`, `AfterDispose`, `AfterGenerateCode`, `Divide`, `Release`, …) of the
  old state;
- the lemmas prove what those transitions preserve and promise.

## Model

| member | source | states |
|---|---|---|
| `AllocatorUtility.ByteSizeToElementCount` | Projects/SnowRabbit/VirtualMachine/Runtime/MemoryAllocator.cs:32-46 | the cell count is the least number of 8-byte cells holding `size` bytes (ceiling division), and positive for a positive size |
| `AllocatorUtility.ByteSizeToElementCountAsWritten` | Projects/SnowRabbit/VirtualMachine/Runtime/MemoryAllocator.cs:32-46 | the mask-and-shift expression as written: every size above 0x7FFFFFF8 gives the negative count -0x10000000 (its agreement with the ceiling below that is `AsWrittenIsCeilingBelowOverflow`) |
| `AllocatorUtility.AsWrittenIsCeilingBelowOverflow` | Projects/SnowRabbit/VirtualMachine/Runtime/MemoryAllocator.cs:32-46 | the mask-and-shift expression as written equals the ceiling for every size up to 0x7FFFFFF8 |
| `AllocatorUtility.AsWrittenOverflowsNearIntMax` | Projects/SnowRabbit/VirtualMachine/Runtime/MemoryAllocator.cs:32-46 | for size 0x7FFFFFFF the expression as written yields -0x10000000 cells, where the ceiling is 0x10000000 |
| `AllocatorUtility.ElementCountToByteSize` | Projects/SnowRabbit/VirtualMachine/Runtime/MemoryAllocator.cs:48-52 | below 2^28 cells the byte size is exactly 8 bytes per cell |
| `AllocatorUtility.CellsHoldTheBytes` | Projects/SnowRabbit/VirtualMachine/Runtime/MemoryAllocator.cs:32-52 | converting bytes to cells and back never loses a byte and pads by less than one cell |
| `AllocatorUtility.CheckRequest` | Projects/SnowRabbit/VirtualMachine/Runtime/MemoryAllocator.cs:116-132 | a request passes iff its size is positive and its kind is not Free; a non-positive size is ArgumentOutOfRange (checked first), a Free kind is InvalidArgument |
| `AllocatorUtility.Wrap32` | Projects/SnowRabbit/VirtualMachine/Runtime/MemoryAllocator.cs:32-46 | the 32-bit result is congruent to the exact value mod 2^32 and equal to it when it fits |
| `MemoryBlocks.NewMemoryBlock` | Projects/SnowRabbit/VirtualMachine/Runtime/MemoryBlock.cs:81-101 | a null pool is ArgumentNull; a block exists iff start and length are non-negative and the window ends inside the pool (else ArgumentOutOfRange); the pool is shared, not copied |
| `MemoryBlocks.CheckedIndex` | Projects/SnowRabbit/VirtualMachine/Runtime/MemoryBlock.cs:52-68 | the checked indexer succeeds iff 0 <= index < Length and designates pool cell Offset + index, else ArgumentOutOfRange |
| `MemoryBlocks.UncheckedIndex` | Projects/SnowRabbit/VirtualMachine/Runtime/MemoryBlock.cs:52-68 | without the window check only the pool's own bounds apply (IndexOutOfRange) |
| `MemoryBlocks.CheckedAgreesWithUnchecked` | Projects/SnowRabbit/VirtualMachine/Runtime/MemoryBlock.cs:52-68 | wherever the checked build succeeds, both builds designate the same cell |
| `MemoryBlocks.UncheckedReachesBeforeTheWindow` | Projects/SnowRabbit/VirtualMachine/Runtime/MemoryBlock.cs:52-68 | without the check, index -1 of a window not at the pool's start reaches the cell before the window |
| `MemoryBlocks.Read` | Projects/SnowRabbit/VirtualMachine/Runtime/MemoryBlock.cs:52-68 | reading index i gives the pool cell Offset + i exactly when i is inside the window |
| `MemoryBlocks.Write` | Projects/SnowRabbit/VirtualMachine/Runtime/MemoryBlock.cs:52-68 | a write through the reference changes exactly pool cell Offset + i; out of the window it fails and changes nothing |
| `MemoryBlocks.WindowsAlias` | Projects/SnowRabbit/VirtualMachine/Runtime/MemoryBlock.cs:27-43 | two windows over one pool read the same value at the same pool cell |
| `PoolLayout.WithInfo` | Projects/SnowRabbit/VirtualMachine/Runtime/MemoryAllocator.cs:223-233 | writing a run's information sets its head record and its tail record (size, next index) and no other cell |
| `PoolLayout.InfoRoundTrip` | Projects/SnowRabbit/VirtualMachine/Runtime/MemoryAllocator.cs:223-252 | reading back the information just written gives it unchanged, and the run ends where its size says |
| `PoolLayout.InitialInv` | Projects/SnowRabbit/VirtualMachine/Runtime/MemoryAllocator.cs:201-211 | a freshly initialised pool is one free run that is the whole free list, with no live blocks, and satisfies the layout invariant |
| `PoolLayout.RunsIncrease` | Projects/SnowRabbit/VirtualMachine/Runtime/MemoryAllocator.cs:260-282 | runs tile the pool in increasing order: each earlier run ends at or before each later run's head |
| `PoolLayout.PreviousIndex` | Projects/SnowRabbit/VirtualMachine/Runtime/MemoryAllocator.cs:260-282 | the first cell has no previous run; a found index is non-negative and lies exactly the previous tail's total count before the head (`PreviousIsNeighbour` shows it is the neighbouring run) |
| `PoolLayout.PreviousIsNeighbour` | Projects/SnowRabbit/VirtualMachine/Runtime/MemoryAllocator.cs:260-282 | the previous-run lookup through the tail record before a head finds exactly the neighbouring run, or -1 for the first run |
| `PoolLayout.FirstFitFrom` | Projects/SnowRabbit/VirtualMachine/Runtime/MemoryAllocator.cs:400-431 | the chosen free-list node is large enough and every node before it is too small; -1 means no node fits |
| `PoolLayout.FirstFit` | Projects/SnowRabbit/VirtualMachine/Runtime/MemoryAllocator.cs:400-431 | the search from the free-list head: the chosen node is large enough and every earlier node too small; -1 means no node fits |
| `PoolLayout.DivideShape` | Projects/SnowRabbit/VirtualMachine/Runtime/MemoryAllocator.cs:441-467 | a run too small to split is taken whole with its cells unchanged (still marked free) and its successor becomes the head; otherwise the run becomes a used run of the requested size followed by a free remainder that inherits the old next link, and nothing outside the run changes |
| `PoolLayout.Divide` | Projects/SnowRabbit/VirtualMachine/Runtime/MemoryAllocator.cs:441-467 | the pool keeps its size and the returned head is either the chosen run's old successor or the remainder just past the requested cells (`DivideShape` gives the full shape, `DivideKeepsInv` the invariant) |
| `PoolLayout.DivideKeepsTiles` | Projects/SnowRabbit/VirtualMachine/Runtime/MemoryAllocator.cs:441-467 | after a division the runs still tile the pool |
| `PoolLayout.DivideKeepsFreeList` | Projects/SnowRabbit/VirtualMachine/Runtime/MemoryAllocator.cs:441-467 | after a division the returned head starts a well-formed, duplicate-free free list of free runs |
| `PoolLayout.DivideKeepsLiveBlocks` | Projects/SnowRabbit/VirtualMachine/Runtime/MemoryAllocator.cs:326-348 | the blocks handed out stay disjoint from the free list and inside their runs, the new block included |
| `PoolLayout.DivideKeepsInv` | Projects/SnowRabbit/VirtualMachine/Runtime/MemoryAllocator.cs:326-348 | allocation from any free-list node preserves the whole layout invariant |
| `PoolLayout.DivideDropsEarlierNodes` | Projects/SnowRabbit/VirtualMachine/Runtime/MemoryAllocator.cs:441-467 | the head is reset to the chosen node's successor, so free nodes before the chosen one leave the free list while still free |
| `PoolLayout.MergeShape` | Projects/SnowRabbit/VirtualMachine/Runtime/MemoryAllocator.cs:476-486 | merging a run into its predecessor gives one run whose size is both sizes plus one pair of records, keeping the predecessor's kind and link |
| `PoolLayout.Merge` | Projects/SnowRabbit/VirtualMachine/Runtime/MemoryAllocator.cs:476-486 | the pool keeps its size and the predecessor's head record covers both runs plus one freed pair of records, keeping its kind (`MergeKeepsTiles` keeps the tiling) |
| `PoolLayout.MergeKeepsTiles` | Projects/SnowRabbit/VirtualMachine/Runtime/MemoryAllocator.cs:476-486 | after a merge the remaining runs still tile the pool |
| `PoolLayout.ReleaseMergeKeepsInv` | Projects/SnowRabbit/VirtualMachine/Runtime/MemoryAllocator.cs:355-390 | returning a block whose previous run is free preserves the invariant, with the free list unchanged |
| `PoolLayout.ReleaseAppendKeepsInv` | Projects/SnowRabbit/VirtualMachine/Runtime/MemoryAllocator.cs:355-390 | otherwise the returned run is marked free and appended at the tail of the free list, preserving the invariant |
| `PoolLayout.StartListKeepsInv` | Projects/SnowRabbit/VirtualMachine/Runtime/MemoryAllocator.cs:377-383 | releasing onto an empty free list leaves a one-node list and keeps the invariant |
| `PoolLayout.LinkLastKeepsInv` | Projects/SnowRabbit/VirtualMachine/Runtime/MemoryAllocator.cs:386-389 | releasing onto a non-empty free list extends it by the returned run and keeps the invariant |
| `PoolLayout.ReleaseKeepsInv` | Projects/SnowRabbit/VirtualMachine/Runtime/MemoryAllocator.cs:355-390 | freeing any live block preserves the layout invariant and removes it from the live blocks |
| `PoolLayout.ReleaseCases` | Projects/SnowRabbit/VirtualMachine/Runtime/MemoryAllocator.cs:355-390 | freeing merges backward iff the previous run is free; otherwise it either starts an empty free list with the returned run or links the last free node to it |
| `PoolLayout.ReleaseAsWritten` | Projects/SnowRabbit/VirtualMachine/Runtime/MemoryAllocator.cs:355-390 | Deallocate as written, recording the block's length (line 374): the pool keeps its size and the free-list head changes only from empty to the returned run; `ShortReleaseLosesCells` shows it breaks the tiling |
| `PoolLayout.Release` | Projects/SnowRabbit/VirtualMachine/Runtime/MemoryAllocator.cs:355-390 | Deallocate recording the run's own count: the pool keeps its size and the head changes only from empty to the returned run; `ReleaseKeepsInv` proves it keeps the invariant |
| `PoolLayout.FreeListHasRecords` | Projects/SnowRabbit/VirtualMachine/Runtime/MemoryAllocator.cs:289-312 | every free-list node is a run with readable records, and the head is negative iff the free list is empty |
| `PoolLayout.LiveWindowInPool` | Projects/SnowRabbit/VirtualMachine/Runtime/MemoryAllocator.cs:326-348 | a handed-out block lies inside the pool and inside its run, past the run's head record |
| `PoolLayout.LiveWindowsApart` | Projects/SnowRabbit/VirtualMachine/Runtime/MemoryAllocator.cs:326-348 | two handed-out blocks never overlap |
| `PoolLayout.LiveWindowOffFreeList` | Projects/SnowRabbit/VirtualMachine/Runtime/MemoryAllocator.cs:326-348 | a handed-out block never overlaps a free-list run |
| `PoolLayout.ShortReleaseLosesCells` | Projects/SnowRabbit/VirtualMachine/Runtime/MemoryAllocator.cs:355-390 | in an 8-cell pool, a 4-cell block taken from a 6-cell run and returned with its own length breaks the tiling and a later 6-cell request fails; the corrected release restores the pool |
| `PoolLayout.NoForwardMerge` | Projects/SnowRabbit/VirtualMachine/Runtime/MemoryAllocator.cs:355-390 | freeing a block whose following run is free does not coalesce them, so a request the pool could hold in one piece fails |
| `StandardAllocator.StandardMemoryAllocator.Initialize` | Projects/SnowRabbit/VirtualMachine/Runtime/MemoryAllocator.cs:201-211 | the pool becomes one free run with head 0, the invariant holds, and only the first and last cells are written |
| `StandardAllocator.StandardMemoryAllocator.FromPool` | Projects/SnowRabbit/VirtualMachine/Runtime/MemoryAllocator.cs:188-192 | a null pool is ArgumentNull, a pool under three cells is ArgumentOutOfRange and is left untouched; otherwise the allocator is initialised over that pool |
| `StandardAllocator.StandardMemoryAllocator.FromSize` | Projects/SnowRabbit/VirtualMachine/Runtime/MemoryAllocator.cs:174-186 | a size under 24 bytes is ArgumentOutOfRange; otherwise a fresh pool of the cell count for that size, initialised |
| `StandardAllocator.StandardMemoryAllocator.SetAllocationInfo` | Projects/SnowRabbit/VirtualMachine/Runtime/MemoryAllocator.cs:223-233 | the pool becomes the information-writing transition of the old pool |
| `StandardAllocator.StandardMemoryAllocator.GetAllocationInfo` | Projects/SnowRabbit/VirtualMachine/Runtime/MemoryAllocator.cs:243-252 | reads back the count, kind and next index of a run |
| `StandardAllocator.StandardMemoryAllocator.GetPreviousAllocationInfoIndex` | Projects/SnowRabbit/VirtualMachine/Runtime/MemoryAllocator.cs:260-282 | the previous-run lookup, which finds the neighbouring run |
| `StandardAllocator.StandardMemoryAllocator.GetLastFreeMemoryInfoIndex` | Projects/SnowRabbit/VirtualMachine/Runtime/MemoryAllocator.cs:289-312 | walking the free list from its head returns its last node, or -1 when the list is empty |
| `StandardAllocator.StandardMemoryAllocator.FindFirstFreeBlock` | Projects/SnowRabbit/VirtualMachine/Runtime/MemoryAllocator.cs:400-431 | the loop returns the first free-list node large enough for the request, or -1 |
| `StandardAllocator.StandardMemoryAllocator.DivideFreeMemoryBlock` | Projects/SnowRabbit/VirtualMachine/Runtime/MemoryAllocator.cs:441-467 | the pool and the returned head are the division transition of the old pool |
| `StandardAllocator.StandardMemoryAllocator.MergeMemoryBlock` | Projects/SnowRabbit/VirtualMachine/Runtime/MemoryAllocator.cs:476-486 | the pool is the merge transition of the old pool |
| `StandardAllocator.StandardMemoryAllocator.Allocate` | Projects/SnowRabbit/VirtualMachine/Runtime/MemoryAllocator.cs:326-348 | an invalid request fails with its error; no fitting node is OutOfMemory; each failure leaves the state unchanged; otherwise the block starts one cell past the first-fit run, has the requested cell count, and the invariant holds |
| `StandardAllocator.StandardMemoryAllocator.Deallocate` | Projects/SnowRabbit/VirtualMachine/Runtime/MemoryAllocator.cs:355-390 | returning a handed-out block applies the corrected release, keeps the invariant and drops the block from the live set |
| `StandardAllocator.StandardMemoryAllocator.MergeReturned` | Projects/SnowRabbit/VirtualMachine/Runtime/MemoryAllocator.cs:359-368 | when the run before the returned one is free, the two become one free run and the free list is unchanged |
| `StandardAllocator.StandardMemoryAllocator.MarkFree` | Projects/SnowRabbit/VirtualMachine/Runtime/MemoryAllocator.cs:373-374 | the returned run is tagged free with no successor, keeping its recorded size |
| `StandardAllocator.StandardMemoryAllocator.AppendReturned` | Projects/SnowRabbit/VirtualMachine/Runtime/MemoryAllocator.cs:372-389 | without a free predecessor the returned run becomes the last node of the free list |
| `StandardAllocator.StandardMemoryAllocator.StartFreeList` | Projects/SnowRabbit/VirtualMachine/Runtime/MemoryAllocator.cs:378-383 | on an empty free list the returned run becomes its head and only node |
| `StandardAllocator.StandardMemoryAllocator.LinkAfterLast` | Projects/SnowRabbit/VirtualMachine/Runtime/MemoryAllocator.cs:387-389 | the old last node keeps its size and now links to the returned run |
| `DynamicAllocator.DynamicManagedMemoryAllocator.Allocate` | Projects/SnowRabbit/VirtualMachine/Runtime/Memory/DynamicMemoryAllocator.cs:35-41 | succeeds iff the request check passes (else its error); the block covers a fresh zeroed array of exactly the cell count |
| `DynamicAllocator.DynamicManagedMemoryAllocator.Deallocate` | Projects/SnowRabbit/VirtualMachine/Runtime/Memory/DynamicMemoryAllocator.cs:48-51 | returning a block changes nothing |
| `SrValues.Signed` | Runtime/RuntimeEngine/SrValue.cs:21-32 | reinterpreting an unsigned bit pattern as two's complement: in range, unchanged below half, and shifted by the width above |
| `SrValues.FromSbyte` | Runtime/RuntimeEngine/SrValue.cs:40-46 | storing an sbyte fills the low byte with its two's-complement pattern and clears the object |
| `SrValues.FromByte` | Runtime/RuntimeEngine/SrValue.cs:53-59 | storing a byte reads back through the byte view and, zero-extended, through the ulong view, and carries no string |
| `SrValues.FromShort` | Runtime/RuntimeEngine/SrValue.cs:66-72 | storing a short fills the low 16 bits with its pattern |
| `SrValues.FromUshort` | Runtime/RuntimeEngine/SrValue.cs:79-85 | storing a ushort reads back through the ushort view and the char view (one 16-bit pattern) and, zero-extended, through the ulong view, and carries no string |
| `SrValues.FromChar` | Runtime/RuntimeEngine/SrValue.cs:92-98 | storing a char reads back through the char view and the ushort view and, zero-extended, through the ulong view, and carries no string |
| `SrValues.FromInt` | Runtime/RuntimeEngine/SrValue.cs:105-111 | storing an int fills the low 32 bits with its pattern |
| `SrValues.FromUint` | Runtime/RuntimeEngine/SrValue.cs:118-124 | storing a uint reads back through the uint view, as its two's-complement reading through the int view, zero-extended through the ulong view, and carries no string |
| `SrValues.FromLong` | Runtime/RuntimeEngine/SrValue.cs:131-137 | storing a long puts its 64-bit pattern in the primitive |
| `SrValues.FromUlong` | Runtime/RuntimeEngine/SrValue.cs:144-150 | storing a ulong reads back through the ulong view and as its two's-complement reading through the long view, and carries no string |
| `SrValues.FromString` | Runtime/RuntimeEngine/SrValue.cs:183-189 | storing a string clears the primitive and holds the string as the object; null stores no object |
| `SrValues.FromInstruction` | Runtime/RuntimeEngine/SrValue.cs:196-202 | storing an instruction reads back through the instruction view, its bits through the ulong view, and carries no string |
| `SrValues.ToString` | Runtime/RuntimeEngine/SrValue.cs:330-334 | the string view is the object when it is a string, else null |
| `SrValues.ToSbyte` | Runtime/RuntimeEngine/SrValue.cs:209-213 | the sbyte view is congruent to the stored pattern modulo 2^8 |
| `SrValues.ToByte` | Runtime/RuntimeEngine/SrValue.cs:220-224 | the byte view is congruent to the stored pattern modulo 2^8 |
| `SrValues.ToShort` | Runtime/RuntimeEngine/SrValue.cs:231-235 | the short view is congruent to the stored pattern modulo 2^16 |
| `SrValues.ToUshort` | Runtime/RuntimeEngine/SrValue.cs:242-246 | the ushort view is congruent to the stored pattern modulo 2^16 |
| `SrValues.ToChar` | Runtime/RuntimeEngine/SrValue.cs:253-257 | the char view is congruent to the stored pattern modulo 2^16 |
| `SrValues.ToInt` | Runtime/RuntimeEngine/SrValue.cs:264-268 | the int view is congruent to the stored pattern modulo 2^32 |
| `SrValues.ToUint` | Runtime/RuntimeEngine/SrValue.cs:275-279 | the uint view is congruent to the stored pattern modulo 2^32 |
| `SrValues.ToLong` | Runtime/RuntimeEngine/SrValue.cs:286-290 | the long view is the stored 64-bit pattern read as two's complement |
| `SrValues.ToUlong` | Runtime/RuntimeEngine/SrValue.cs:297-301 | the ulong view is the stored 64-bit pattern |
| `SrValues.ToInstruction` | Runtime/RuntimeEngine/SrValue.cs:341-345 | the instruction view carries the same 64 bits as the ulong view |
| `SrValues.RoundTrips` | Runtime/RuntimeEngine/SrValue.cs:40-345 | every conversion into a value and back out through the same view returns the original |
| `SrValues.NarrowerViewsTruncate` | Runtime/RuntimeEngine/SrValue.cs:131-268 | reading a narrower view of a wider value keeps only the low bits |
| `SrValues.WiderViewsZeroExtend` | Runtime/RuntimeEngine/SrValue.cs:40-290 | reading a wider view of a narrower negative value does not sign-extend |
| `SrValues.MembersExclusive` | Runtime/RuntimeEngine/SrValue.cs:105-334 | a number carries no string and a string carries a zero primitive |
| `VirtualMemory.DecodeEncode` | Packages/SnowRabbit/.NativeTest/SrVirtualMemoryTest.cs:43-63 | an address built from a segment selector and an offset decodes to them |
| `VirtualMemory.EncodeDecode` | Packages/SnowRabbit/.NativeTest/SrVirtualMemoryTest.cs:43-63 | every address is its selector and offset recombined |
| `VirtualMemory.SrVirtualMemory.constructor` | Packages/SnowRabbit/.NativeTest/SrVirtualMemoryTest.cs:34-39 | the four blocks become the program, global, heap and stack segments |
| `VirtualMemory.SrVirtualMemory.Segment` | Packages/SnowRabbit/.NativeTest/SrVirtualMemoryTest.cs:43-63 | selectors 0..3 name the program, global, heap and stack segments |
| `VirtualMemory.SrVirtualMemory.Get` | Packages/SnowRabbit/.NativeTest/SrVirtualMemoryTest.cs:43-63 | reading an address reads its segment's block at the address's offset, when the offset is inside the block |
| `VirtualMemory.SrVirtualMemory.Set` | Packages/SnowRabbit/.NativeTest/SrVirtualMemoryTest.cs:43-63 | writing an address changes exactly the raw pool cell under its segment block's offset |
| `VirtualMemory.VirtualAddressAccessTest` | Packages/SnowRabbit/.NativeTest/SrVirtualMemoryTest.cs:31-64 | writes through addresses 0x4, 0x100005, 0x200009 and 0x300004 land at raw cells 4, 15, 29 and 34 and read back through the blocks |
| `Process.AfterDispose` | Packages/SnowRabbit/Runtime/RuntimeEngine/SrProcess.cs:92-105 | disposing marks the process disposed; a second dispose changes nothing; a managed dispose stops the process, a finaliser dispose keeps its state |
| `Process.DisposeIsIdempotent` | Packages/SnowRabbit/Runtime/RuntimeEngine/SrProcess.cs:92-105 | disposing twice is the same as disposing once |
| `Process.FinalizedProcessIsNeverStopped` | Packages/SnowRabbit/Runtime/RuntimeEngine/SrProcess.cs:92-105 | after a finaliser dispose a later managed dispose no longer stops the process |
| `Process.SrProcess.constructor` | Packages/SnowRabbit/Runtime/RuntimeEngine/SrProcess.cs:79-89 | a new process is Ready with the default loop threshold 1000, its ID and context, and a fresh virtual memory over its four blocks |
| `Process.SrProcess.DisposeWith` | Packages/SnowRabbit/Runtime/RuntimeEngine/SrProcess.cs:92-105 | the lifecycle becomes the dispose transition |
| `Process.SrProcess.Dispose` | Packages/SnowRabbit/Runtime/SrDisposable.cs:38-43 | the public Dispose is the managed dispose transition |
| `Machine.FirstMissingAt` | Packages/SnowRabbit/Runtime/RuntimeEngine/VirtualMachine/SrvmMachine.cs:62-65 | every part before the first missing one is present and the first missing one is null |
| `Machine.CreationCalls` | Packages/SnowRabbit/Runtime/RuntimeEngine/VirtualMachine/SrvmMachine.cs:54-65 | factory calls follow the creation order and stop at the first missing part; a null factory calls nothing |
| `Machine.CreationError` | Packages/SnowRabbit/Runtime/RuntimeEngine/VirtualMachine/SrvmMachine.cs:54-65 | a null factory is ArgumentNull; creation fails iff some part is missing, naming the first missing part, which is the last one asked for |
| `Machine.MissingPartStopsCreation` | Packages/SnowRabbit/Runtime/RuntimeEngine/VirtualMachine/SrvmMachine.cs:62-65 | every part never asked for comes after the missing part in the creation order |
| `Machine.AfterDispose` | Packages/SnowRabbit/Runtime/RuntimeEngine/VirtualMachine/SrvmMachine.cs:73-93 | disposing marks the machine disposed; a managed dispose disposes storage, firmware, memory and processor in that order; a second dispose does nothing |
| `Machine.Guard` | Packages/SnowRabbit/Runtime/RuntimeEngine/VirtualMachine/SrvmMachine.cs:114-122 | access passes iff the machine is not disposed, else ObjectDisposed |
| `Machine.DisposeIsIdempotent` | Packages/SnowRabbit/Runtime/RuntimeEngine/VirtualMachine/SrvmMachine.cs:73-93 | disposing twice is the same as disposing once |
| `Machine.GuardRefusesAfterDispose` | Packages/SnowRabbit/Runtime/RuntimeEngine/VirtualMachine/SrvmMachine.cs:73-122 | every guarded operation fails after any dispose |
| `Machine.DisposalReversesCreation` | Packages/SnowRabbit/Runtime/RuntimeEngine/VirtualMachine/SrvmMachine.cs:62-82 | a managed dispose of a machine built whole appends to the disposal log exactly the parts the constructor created, in the reverse order |
| `Machine.SrvmMachine.Create` | Packages/SnowRabbit/Runtime/RuntimeEngine/VirtualMachine/SrvmMachine.cs:51-66 | creation fails exactly with the creation error after exactly the creation calls; on success the machine holds the factory's parts, each attached part points back to it, and it is not disposed |
| `Machine.SrvmMachine.DisposeWith` | Packages/SnowRabbit/Runtime/RuntimeEngine/VirtualMachine/SrvmMachine.cs:73-93 | the machine state becomes the dispose transition |
| `Machine.SrvmMachine.Dispose` | Packages/SnowRabbit/Runtime/SrDisposable.cs:38-43 | the public Dispose is the managed dispose transition |
| `Machine.SrvmMachine.CreateProcess` | Packages/SnowRabbit/Runtime/RuntimeEngine/VirtualMachine/SrvmMachine.cs:96-100 | refused with ObjectDisposed after dispose; otherwise delegated to the memory part |
| `Machine.SrvmMachine.GetPeripheral` | Packages/SnowRabbit/Runtime/RuntimeEngine/VirtualMachine/SrvmMachine.cs:103-107 | refused with ObjectDisposed after dispose; otherwise the firmware's instance when it has the requested type, else null |
| `Peripheral.Add` | Projects/SnowRabbit/VirtualMachine/Machine/AbstractMachine/SrvmPeripheral.cs:85-90 | each registration consumes one new ID and keeps the tables consistent |
| `Peripheral.AddAll` | Projects/SnowRabbit/VirtualMachine/Machine/AbstractMachine/SrvmPeripheral.cs:56-60 | registering n functions consumes n IDs and keeps the tables consistent |
| `Peripheral.IdOf` | Projects/SnowRabbit/VirtualMachine/Machine/AbstractMachine/SrvmPeripheral.cs:73-76 | the ID lookup is -1 iff the name was never registered; otherwise it is an issued ID with a callback |
| `Peripheral.FunctionOf` | Projects/SnowRabbit/VirtualMachine/Machine/AbstractMachine/SrvmPeripheral.cs:79-82 | the callback lookup finds a function iff the ID is in the table |
| `Peripheral.AddThenLookUp` | Projects/SnowRabbit/VirtualMachine/Machine/AbstractMachine/SrvmPeripheral.cs:73-90 | a name just registered looks up to the next ID and that ID to its callback |
| `Peripheral.ReRegisterKeepsOldCallback` | Projects/SnowRabbit/VirtualMachine/Machine/AbstractMachine/SrvmPeripheral.cs:85-90 | re-registering a name gives it a new ID, while the old ID still reaches the old callback |
| `Peripheral.IdsFollowRegistrationOrder` | Projects/SnowRabbit/VirtualMachine/Machine/AbstractMachine/SrvmPeripheral.cs:56-60 | the i-th registration's callback sits at the starting ID plus i |
| `Peripheral.CallbackKept` | Projects/SnowRabbit/VirtualMachine/Machine/AbstractMachine/SrvmPeripheral.cs:56-60 | registration never overwrites a callback under an ID issued earlier |
| `Peripheral.LastRegistrationWins` | Projects/SnowRabbit/VirtualMachine/Machine/AbstractMachine/SrvmPeripheral.cs:56-60 | a name maps to the ID of its last registration |
| `Peripheral.NameKept` | Projects/SnowRabbit/VirtualMachine/Machine/AbstractMachine/SrvmPeripheral.cs:56-60 | a name not registered again keeps its ID |
| `Peripheral.Cleared` | Projects/SnowRabbit/VirtualMachine/Machine/AbstractMachine/SrvmPeripheral.cs:66-70 | unregistering everything keeps the ID counter and leaves consistent tables |
| `Peripheral.ClearDoesNotReuseIds` | Projects/SnowRabbit/VirtualMachine/Machine/AbstractMachine/SrvmPeripheral.cs:66-90 | a registration after clearing gets an ID above every ID issued before |
| `Peripheral.SrvmPeripheral.constructor` | Projects/SnowRabbit/VirtualMachine/Machine/AbstractMachine/SrvmPeripheral.cs:44-50 | a new peripheral starts with ID 0 and empty tables |
| `Peripheral.SrvmPeripheral.InitializeFunctionTable` | Projects/SnowRabbit/VirtualMachine/Machine/AbstractMachine/SrvmPeripheral.cs:56-60 | the loop over the setup registrations leaves the tables equal to registering them all in order |
| `Peripheral.SrvmPeripheral.UnregisterFunctionAll` | Projects/SnowRabbit/VirtualMachine/Machine/AbstractMachine/SrvmPeripheral.cs:66-70 | the tables become the cleared tables |
| `Peripheral.SrvmPeripheral.GetFunctionID` | Projects/SnowRabbit/VirtualMachine/Machine/AbstractMachine/SrvmPeripheral.cs:73-76 | -1 exactly for an unregistered name; otherwise an ID already issued that has a callback |
| `Peripheral.SrvmPeripheral.GetFunction` | Projects/SnowRabbit/VirtualMachine/Machine/AbstractMachine/SrvmPeripheral.cs:79-82 | a callback exactly for a registered ID, and it is the one registered under that ID |
| `Peripheral.SrvmPeripheral.AddFunction` | Projects/SnowRabbit/VirtualMachine/Machine/AbstractMachine/SrvmPeripheral.cs:85-90 | the tables become one registration of the old tables |
| `Endianness.Reversed` | Projects/SnowRabbit/VirtualMachine/Runtime/Misc/StreamEndiannessControl.cs:278-283 | reversing a span puts element k at position n-1-k |
| `Endianness.ReversedTwice` | Projects/SnowRabbit/VirtualMachine/Runtime/Misc/StreamEndiannessControl.cs:278-283 | reversing twice restores the span |
| `Endianness.LittleBytes` | Projects/SnowRabbit/VirtualMachine/Runtime/Misc/StreamEndiannessControl.cs:712-735 | the little-endian encoding of n bytes has n bytes, and byte k is the value shifted right by 8k, masked to a byte |
| `Endianness.FromLittleBound` | Projects/SnowRabbit/VirtualMachine/Runtime/Misc/StreamEndiannessControl.cs:532-536 | decoding n bytes gives a value below 256^n |
| `Endianness.FromLittleBytes` | Projects/SnowRabbit/VirtualMachine/Runtime/Misc/StreamEndiannessControl.cs:532-536 | decoding the little-endian encoding of a value that fits returns it |
| `Endianness.LittleBytesFrom` | Projects/SnowRabbit/VirtualMachine/Runtime/Misc/StreamEndiannessControl.cs:532-536 | encoding a decoded byte sequence returns the bytes |
| `Endianness.Pack` | Projects/SnowRabbit/VirtualMachine/Runtime/Misc/StreamEndiannessControl.cs:674-1085 | the control's write of n bytes is exactly n bytes long (`PackAt` gives each byte; `UnpackPack` and `PackUnpack` make it the inverse of `Unpack`) |
| `Endianness.Unpack` | Projects/SnowRabbit/VirtualMachine/Runtime/Misc/StreamEndiannessControl.cs:508-909 | the control's read of n bytes lies below 256^n (`UnpackPack` and `PackUnpack` make it the inverse of `Pack`) |
| `Endianness.PackAt` | Projects/SnowRabbit/VirtualMachine/Runtime/Misc/StreamEndiannessControl.cs:686-1085 | in little-endian order byte k carries bits 8k..8k+7, in big-endian order the bytes are reversed |
| `Endianness.UnpackPack` | Projects/SnowRabbit/VirtualMachine/Runtime/Misc/StreamEndiannessControl.cs:508-1085 | reading back a written value in the same byte order returns it |
| `Endianness.PackUnpack` | Projects/SnowRabbit/VirtualMachine/Runtime/Misc/StreamEndiannessControl.cs:508-1085 | writing back a read value reproduces the bytes read |
| `Endianness.AsWrittenPacksOnLittleEndianHost` | Projects/SnowRabbit/VirtualMachine/Runtime/Misc/StreamEndiannessControl.cs:686-1085 | on a little-endian host the integer writes as written produce the control's byte order |
| `Endianness.PackAsWritten` | Projects/SnowRabbit/VirtualMachine/Runtime/Misc/StreamEndiannessControl.cs:712-735 | the integer write as written emits n bytes (`AsWrittenPacksOnLittleEndianHost` and `AsWrittenMisordersOnBigEndianHost` compare it with `Pack`) |
| `Endianness.AsWrittenMisordersOnBigEndianHost` | Projects/SnowRabbit/VirtualMachine/Runtime/Misc/StreamEndiannessControl.cs:712-735 | on a big-endian host the little-endian control writes uint 1 as 00 00 00 01, which reads back as 0x01000000; the big-endian control likewise |
| `Endianness.ReadDecodesInControlOrder` | Projects/SnowRabbit/VirtualMachine/Runtime/Misc/StreamEndiannessControl.cs:520-909 | the read path (reverse when the host order differs, then decode in host order) decodes in the control's byte order on every host |
| `Endianness.ReadReverses` | Projects/SnowRabbit/VirtualMachine/Runtime/Misc/StreamEndiannessControl.cs:520-909 | a read reverses its bytes exactly when the control's order differs from the host's |
| `Endianness.HostDecode` | Projects/SnowRabbit/VirtualMachine/Runtime/Misc/StreamEndiannessControl.cs:520-909 | BitConverter's host-order decode of n bytes lies below 256^n (`ReadDecodesInControlOrder` shows the read path decodes in the control's order) |
| `Endianness.Unsigned` | Projects/SnowRabbit/VirtualMachine/Runtime/Misc/StreamEndiannessControl.cs:630-667 | the unsigned cast of a signed value lies in the type's range |
| `Endianness.SignedOf` | Projects/SnowRabbit/VirtualMachine/Runtime/Misc/StreamEndiannessControl.cs:508-547 | the two's-complement reading of a pattern lies in the signed range |
| `Endianness.SignedRoundTrip` | Projects/SnowRabbit/VirtualMachine/Runtime/Misc/StreamEndiannessControl.cs:508-667 | a signed value written through its unsigned cast and read back signed returns it |
| `Endianness.ParseFrame` | Projects/SnowRabbit/VirtualMachine/Runtime/Misc/StreamEndiannessControl.cs:230-259 | a parsed string payload never reaches past the input |
| `Endianness.StringFrameRoundTrip` | Projects/SnowRabbit/VirtualMachine/Runtime/Misc/StreamEndiannessControl.cs:230-259 | a correctly framed string (4-byte count, then the bytes) parses back to its bytes, whatever follows it |
| `Endianness.StringFrame` | Projects/SnowRabbit/VirtualMachine/Runtime/Misc/StreamEndiannessControl.cs:467-482 | the intended string frame is four count bytes followed by the text's bytes unchanged (`StringFrameRoundTrip` parses it back) |
| `Endianness.StringFrameAsWrittenLosesText` | Projects/SnowRabbit/VirtualMachine/Runtime/Misc/StreamEndiannessControl.cs:467-482 | the string write as written turns "abcd" into 04 00 00 00 04 00 00 00, which reads back as the wrong text |
| `Endianness.StringFrameAsWritten` | Projects/SnowRabbit/VirtualMachine/Runtime/Misc/StreamEndiannessControl.cs:478-481 | the string frame as written has the intended length and starts with the packed count (`StringFrameAsWrittenLosesText` shows the text is lost) |
| `Endianness.Fetched` | Projects/SnowRabbit/VirtualMachine/Runtime/Misc/StreamEndiannessControl.cs:267-284 | a read of n bytes from a stream holding at least n bytes fills the buffer with those bytes |
| `Endianness.ReversePrefix` | Projects/SnowRabbit/VirtualMachine/Runtime/Misc/StreamEndiannessControl.cs:278-283 | the in-place loop reverses exactly the first size bytes of the buffer |
| `Endianness.StreamEndiannessControl.constructor` | Projects/SnowRabbit/VirtualMachine/Runtime/Misc/StreamEndiannessControl.cs:212-218 | a new control has a 4096-byte stream buffer, a 2048-char buffer and the given stream |
| `Endianness.StreamEndiannessControl.Open` | Projects/SnowRabbit/VirtualMachine/Runtime/Misc/StreamEndiannessControl.cs:212-218 | a null stream is ArgumentNull; otherwise a control over that stream |
| `Endianness.StreamEndiannessControl.GrowBuffer` | Projects/SnowRabbit/VirtualMachine/Runtime/Misc/StreamEndiannessControl.cs:269-273 | a buffer shorter than the size is replaced by a fresh zeroed one of that size; a long enough buffer is kept |
| `Endianness.StreamEndiannessControl.FetchFromStream` | Projects/SnowRabbit/VirtualMachine/Runtime/Misc/StreamEndiannessControl.cs:277 | the buffer front takes the stream's next bytes, at most size of them, and exactly those bytes leave the input |
| `Endianness.StreamEndiannessControl.CopyToBuffer` | Projects/SnowRabbit/VirtualMachine/Runtime/Misc/StreamEndiannessControl.cs:479 | the encoded bytes fill the buffer front and the rest of the buffer is unchanged |
| `Endianness.StreamEndiannessControl.EncodeIntoBuffer` | Projects/SnowRabbit/VirtualMachine/Runtime/Misc/StreamEndiannessControl.cs:470-479 | after growing, the buffer holds the encoded bytes at its front and the output is unchanged |
| `Endianness.StreamEndiannessControl.ReadToBuffer` | Projects/SnowRabbit/VirtualMachine/Runtime/Misc/StreamEndiannessControl.cs:267-284 | the buffer grows to the size when too small, takes the next bytes of the stream and is reversed when asked |
| `Endianness.StreamEndiannessControl.WriteFromBuffer` | Projects/SnowRabbit/VirtualMachine/Runtime/Misc/StreamEndiannessControl.cs:292-304 | the first size buffer bytes, reversed when asked, are appended to the stream |
| `Endianness.StreamEndiannessControl.PackIntoBuffer` | Projects/SnowRabbit/VirtualMachine/Runtime/Misc/StreamEndiannessControl.cs:674-1085 | the buffer front holds the value's bytes in the control's order and the rest of the buffer is unchanged |
| `Endianness.StreamEndiannessControl.WriteUnsigned` | Projects/SnowRabbit/VirtualMachine/Runtime/Misc/StreamEndiannessControl.cs:674-1085 | writing an unsigned integer appends its encoding in the control's byte order |
| `Endianness.StreamEndiannessControl.WriteSigned` | Projects/SnowRabbit/VirtualMachine/Runtime/Misc/StreamEndiannessControl.cs:630-667 | writing a signed integer appends the encoding of its unsigned cast |
| `Endianness.StreamEndiannessControl.ReadUnsigned` | Projects/SnowRabbit/VirtualMachine/Runtime/Misc/StreamEndiannessControl.cs:520-909 | reading an unsigned integer consumes its bytes and decodes them in the control's byte order |
| `Endianness.StreamEndiannessControl.ReadSigned` | Projects/SnowRabbit/VirtualMachine/Runtime/Misc/StreamEndiannessControl.cs:508-547 | reading a signed integer decodes the two's-complement value in range |
| `Endianness.StreamEndiannessControl.WriteStringAsWritten` | Projects/SnowRabbit/VirtualMachine/Runtime/Misc/StreamEndiannessControl.cs:467-482 | the string write as written appends the count and then the buffer whose first four bytes the count overwrote |
| `Endianness.StreamEndiannessControl.WriteString` | Projects/SnowRabbit/VirtualMachine/Runtime/Misc/StreamEndiannessControl.cs:467-482 | the corrected string write appends a frame that the string read parses back |
| `Endianness.StreamEndiannessControl.ReadChars` | Projects/SnowRabbit/VirtualMachine/Runtime/Misc/StreamEndiannessControl.cs:230-259 | a negative count is ArgumentOutOfRange; a whole frame yields its payload and consumes the frame |
| `Coder.InitialConsistent` | Projects/CarrotAssemblerLib/Coder.cs:42-51 | the coder starts with consistent symbol tables |
| `Coder.AfterRegisterConstString` | Projects/CarrotAssemblerLib/Coder.cs:60-73 | a constant string is registered iff its index is new; a duplicate changes nothing |
| `Coder.AfterRegisterGlobalVariable` | Projects/CarrotAssemblerLib/Coder.cs:81-95 | a name already used by a variable or label returns 0 with no change; a new name takes the next index and the counter moves down by one |
| `Coder.AfterRegisterLabel` | Projects/CarrotAssemblerLib/Coder.cs:103-116 | a used name returns -1 with no change; a new label records the current instruction count |
| `Coder.RegisterGlobalKeepsConsistent` | Projects/CarrotAssemblerLib/Coder.cs:81-95 | registering a variable keeps the tables consistent: negative, distinct indices and disjoint names |
| `Coder.NewGlobalIdIsFresh` | Projects/CarrotAssemblerLib/Coder.cs:81-95 | a new variable's index is negative and differs from every registered index |
| `Coder.GlobalIdsDescend` | Projects/CarrotAssemblerLib/Coder.cs:81-95 | successive new variables receive successively smaller indices |
| `Coder.RegisterLabelKeepsConsistent` | Projects/CarrotAssemblerLib/Coder.cs:103-116 | registering a label keeps the tables consistent, with every label inside the instruction list |
| `Coder.AfterGenerateCode` | Projects/CarrotAssemblerLib/Coder.cs:170-245 | generation fails iff a halt has operands, changing nothing; otherwise it appends one instruction and clears the operands |
| `Coder.CodeFor` | Projects/CarrotAssemblerLib/Coder.cs:178-205 | the instruction is Halt exactly for the halt kind, Mov exactly for the mov kind, and Unset otherwise |
| `Coder.GenerateCodeKeepsConsistent` | Projects/CarrotAssemblerLib/Coder.cs:170-245 | generating code keeps the tables consistent |
| `Coder.MovWithOneOperandIsAccepted` | Projects/CarrotAssemblerLib/Coder.cs:196-203 | a mov with one operand still produces an instruction with no message |
| `Coder.CarrotBinaryCoder.constructor` | Projects/CarrotAssemblerLib/Coder.cs:42-51 | a new coder has empty tables and the global index counter at -1 |
| `Coder.CarrotBinaryCoder.RegisterConstString` | Projects/CarrotAssemblerLib/Coder.cs:60-73 | the result and new state are the constant-string transition |
| `Coder.CarrotBinaryCoder.RegisterGlobalVariable` | Projects/CarrotAssemblerLib/Coder.cs:81-95 | the result and new state are the variable transition |
| `Coder.CarrotBinaryCoder.RegisterLabel` | Projects/CarrotAssemblerLib/Coder.cs:103-116 | the result and new state are the label transition |
| `Coder.CarrotBinaryCoder.ContainGlobalVariable` | Projects/CarrotAssemblerLib/Coder.cs:124-128 | true iff the name is a registered variable, which makes it known |
| `Coder.CarrotBinaryCoder.ContainLabel` | Projects/CarrotAssemblerLib/Coder.cs:136-140 | true iff the name is a registered label, which makes it known |
| `Coder.CarrotBinaryCoder.SetOpCodeTokenKind` | Projects/CarrotAssemblerLib/Coder.cs:147-151 | only the current opcode kind changes |
| `Coder.CarrotBinaryCoder.AddArgumentToken` | Projects/CarrotAssemblerLib/Coder.cs:158-162 | only the operand list changes, gaining the token at its end |
| `Coder.CarrotBinaryCoder.GenerateCode` | Projects/CarrotAssemblerLib/Coder.cs:170-245 | the result, message and new state are the generation transition |
| `Coder.TestOperandType` | Projects/CarrotAssemblerLib/Coder.cs:416-428 | an expected type of -1 accepts any register name; any other accepts exactly that token kind |
| `Coder.TestOperandPattern0` | Projects/CarrotAssemblerLib/Coder.cs:291-305 | the zero-operand check only accepts or rejects the count |
| `Coder.TestOperandPattern1` | Projects/CarrotAssemblerLib/Coder.cs:315-338 | the one-operand check never faults |
| `Coder.TestOperandPattern2` | Projects/CarrotAssemblerLib/Coder.cs:349-372 | the two-operand check never faults |
| `Coder.PatternsAcceptExactlyMatches` | Projects/CarrotAssemblerLib/Coder.cs:291-372 | the 0-, 1- and 2-operand checks accept exactly the operand lists whose count and every type match; a wrong count is reported as such |
| `Coder.Pattern3AsWrittenNeverAccepts` | Projects/CarrotAssemblerLib/Coder.cs:384-407 | the three-operand check as written accepts nothing: three matching operands fail the count, two matching ones index past the list |
| `Coder.TestOperandPattern3AsWritten` | Projects/CarrotAssemblerLib/Coder.cs:384-407 | the three-operand check as written never accepts and reports a wrong count exactly when the list does not hold two operands |
| `Coder.TestOperandPattern3` | Projects/CarrotAssemblerLib/Coder.cs:384-407 | the corrected three-operand check never faults |
| `Coder.Pattern3AcceptsExactlyMatches` | Projects/CarrotAssemblerLib/Coder.cs:384-407 | the corrected three-operand check accepts exactly the matching three-operand lists |
| `Coder.TokenKindToRegisterNumber` | Projects/CarrotAssemblerLib/Coder.cs:436-440 | the register number is the token kind's distance from the register keyword offset, truncated to a byte |
| `Coder.RegisterNumbersFromOffset` | Projects/CarrotAssemblerLib/Coder.cs:436-440 | the 256 token kinds from the offset map to registers 0 to 255 |

## Left out

- The float and double conversions of `SrValue` and the float and double reads and writes of the stream control are left out: the model has no floating point.
- UTF-8 encoding is left out. Strings reach the stream control as their encoded bytes, and `ReadChars` returns the payload bytes instead of decoding into the char buffer, whose growth is not modelled.
- The `Stream` is two byte sequences, `input` and `output`. Seeking and I/O errors are not modelled.
- Endianness.StreamEndiannessControl.ReadChars: states nothing for a stream shorter than its frame. The source then reads stale buffer bytes.
- Endianness.StreamEndiannessControl.ReadUnsigned: for a short stream, states only that the result decodes the buffer, not which stale bytes the buffer holds.
- The class writes through the corrected `Pack` and `WriteString`. The as-written versions are kept beside them (see Findings).
- `SrValue`'s overlay of the views on one 64-bit field is modelled as the layout on a little-endian host, where each view reads the low bytes. The big-endian overlay is not modelled.
- `SrVirtualMemory` is not part of this model's sources. Its address decoding is taken from its test: the selector is the address divided by 0x100000, and the offset is the remainder.
- `SrProcessStatus` is not part of this model's sources. Its three members (`Ready`, `Running`, `Stopped`) are those the process uses.
- SrProcess: `Run`, the `Stopwatch`-based `RunningTime` and the machine back-reference are left out. They depend on the clock and on code outside this model.
- The bodies of the machine parts (processor, memory, firmware, storage) are not part of this model's sources. Each part is an opaque object with a back-reference, and part disposal is recorded in a log.
- Machine.SrvmMachine.CreateProcess: the memory part's `CreateProcess` is outside the model. The result is the part the call is delegated to.
- Machine.SrvmMachine.GetPeripheral: the firmware's peripheral lookup is a function parameter that always returns an instance, and the type test `as T` is a membership test on the instance's types. When the firmware finds no peripheral by that name, the source reads `TargetInstance` of a null result and throws a NullReferenceException (SrvmMachine.cs:106); the model cannot express that case.
- The parameterless `SrvmMachine()` constructor with its default factory is left out. The default factory is not part of this model's sources.
- StandardAllocator.StandardMemoryAllocator.Deallocate: records the run's own count where the source records `memoryBlock.Length` (MemoryAllocator.cs:374, row 2 of Findings). The two differ for a block taken from a run too small to split, where the source breaks the tiling and the model does not. The as-written release is `PoolLayout.ReleaseAsWritten`.
- StandardAllocator.StandardMemoryAllocator.MarkFree: relabels the returned run with its recorded count, not with `memoryBlock.Length` as MemoryAllocator.cs:374 does (row 2 of Findings).
- StandardAllocator.StandardMemoryAllocator.AppendReturned: ensures the corrected `PoolLayout.Release`, not the as-written `PoolLayout.ReleaseAsWritten`; they differ on a block from an unsplit run (row 2 of Findings).
- StandardAllocator.StandardMemoryAllocator.Deallocate: requires a block this allocator handed out and has not taken back. The source does not check its argument, and its behaviour on any other block is undefined.
- StandardAllocator.StandardMemoryAllocator.FromSize: uses the corrected cell count. For a size above 0x7FFFFFF8 the source's count is negative (row 1 of Findings) and `new SrValue[count]` throws an OverflowException; the model creates a pool of the ceiling's size instead.
- StandardAllocator.StandardMemoryAllocator.Allocate: uses the corrected cell count. For a size above 0x7FFFFFF8 the source's negative count passes the first-fit test at the free-list head, and the division writes it into that run's head record and then faults writing a tail record before the start of the pool (row 1 of Findings); the model allocates the ceiling's count or reports OutOfMemory.
- DynamicAllocator.DynamicManagedMemoryAllocator.Allocate: uses the corrected cell count. For a size above 0x7FFFFFF8 the source's count is negative and `new SrValue[count]` throws an OverflowException; the model allocates the ceiling's count.
- Pool indices are unbounded integers. The source's 32-bit index arithmetic could overflow only for a pool within a few cells of int.MaxValue, and that overflow is not modelled.
- Coder.RegisterGlobalKeepsConsistent: holds only while the index counter is above int.MinValue. At int.MinValue the source's counter wraps to int.MaxValue.
- The assembler's token-kind constants are parameters (`TokenKinds`): `CarrotAsmTokenKind` is not part of this model's sources.
- The `OpCoder*` encoders beyond the operand checks, `OutputExecuteCode` and the assembler's parser are left out. They emit the binary format and are outside the modelled core.
- Coder.AfterGenerateCode: the message of a mov with the wrong operand count is overwritten by the final empty message, as in the source. The model reports `NoMessage` there.
- Function names and strings are never null in the model, because a Dafny string cannot be null. The ArgumentNullException the source's dictionary throws for a null function name (SrvmPeripheral.cs:73-90) and the one the encoder throws for a null text in the string write (StreamEndiannessControl.cs:467-482) are not modelled.
- Peripheral: `nextFunctionID` is unbounded. The source's 32-bit counter would wrap only after 2^31 registrations.
- `SetupFunction` is abstract. Its callback calls are given as the sequence of (name, callback) registrations.
- The exception messages are left out. Only the exception kinds are modelled.

## Findings

| source | as written | input that shows it | evidently intended | confidence | as-written member | corrected member |
|---|---|---|---|---|---|---|
| Projects/SnowRabbit/VirtualMachine/Runtime/MemoryAllocator.cs:32-46 | `(size + ((8 - (size & 7)) & 7)) >> 3` overflows in 32-bit arithmetic | size 0x7FFFFFFF gives -0x10000000 cells, which passes Allocate's size check | the ceiling of size / 8, which is 0x10000000 | high; not executed | `AllocatorUtility.AsWrittenOverflowsNearIntMax` | `AllocatorUtility.ByteSizeToElementCount` |
| Projects/SnowRabbit/VirtualMachine/Runtime/MemoryAllocator.cs:374 | Deallocate rewrites the run's records with `memoryBlock.Length`, the requested count, not the run's real size | 8-cell pool: allocate 32 bytes (4 cells from a 6-cell run that is too small to split), free it; the tail record is written in the middle of the run, breaking the tiling, and a 6-cell request fails | keep the run's recorded size when marking it free | high; not executed | `PoolLayout.ShortReleaseLosesCells` | `PoolLayout.ReleaseKeepsInv` |
| Projects/SnowRabbit/VirtualMachine/Runtime/Misc/StreamEndiannessControl.cs:467-482 | the string is encoded into the stream buffer, then `Write(encodeSize)` writes the count through the same buffer, overwriting the first four bytes of the text | "abcd" is written as 04 00 00 00 04 00 00 00 and reads back as the bytes 04 00 00 00 | write the count, then the encoded bytes | high; not executed | `Endianness.StringFrameAsWrittenLosesText` | `Endianness.StringFrameRoundTrip` |
| Projects/SnowRabbit/VirtualMachine/Runtime/Misc/StreamEndiannessControl.cs:712-735 | the integer writes choose the byte order by the host's order instead of the control's, while the reads correct for the host | on a big-endian host the little-endian control writes uint 1 as 00 00 00 01, which its own read decodes as 0x01000000 | write in the control's order on every host, as the reads do | medium; not executed | `Endianness.AsWrittenMisordersOnBigEndianHost` | `Endianness.UnpackPack` |
| Projects/CarrotAssemblerLib/Coder.cs:384-407 | the three-operand check rejects every count but 2, then tests operand [2] | three matching operands are rejected for their count; two matching operands index past the list | accept exactly three operands of the three expected types | high; not executed | `Coder.Pattern3AsWrittenNeverAccepts` | `Coder.Pattern3AcceptsExactlyMatches` |
