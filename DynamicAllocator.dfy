/** DynamicManagedMemoryAllocator: every block is a new array of its own, and
    returning a block does nothing (the runtime's collector reclaims it). */
module DynamicAllocator {
  import opened Wrappers
  import opened AllocatorUtility
  import opened MemoryBlocks
  import opened PoolLayout

  class DynamicManagedMemoryAllocator {
    constructor () {
    }

    /** Allocate: the request is checked as for every allocator, then a zeroed
        array of exactly the element count is created and covered whole. */
    method Allocate(size: int32, kind: AllocationType) returns (r: Result<MemoryBlock<Cell>>)
      ensures r.Success? <==> CheckRequest(size, kind) == Pass
      ensures r.Failure? ==> r.error == CheckRequest(size, kind).error
      ensures r.Success? ==> fresh(r.value.pool) && r.value.Valid()
      ensures r.Success? ==> r.value.offset == 0 && r.value.length == r.value.pool.Length == ByteSizeToElementCount(size)
      ensures r.Success? ==> forall i :: 0 <= i < r.value.pool.Length ==> r.value.pool[i] == Cell(0, 0)
    {
      var check := CheckRequest(size, kind);
      if check.Fail? {
        return Failure(check.error);
      }
      var allocateBlock := ByteSizeToElementCount(size);
      var pool := new Cell[allocateBlock](_ => Cell(0, 0));
      r := Success(MemoryBlock(pool, 0, allocateBlock));
    }

    /** Deallocate: nothing is written, not even the block's own cells. */
    method Deallocate(memoryBlock: MemoryBlock<Cell>)
      ensures unchanged(memoryBlock.pool)
    {
    }
  }
}
