/** StandardMemoryAllocator: the boundary-tag allocator over one array of
    cells. Every step writes the array in place and is specified by the value
    function of PoolLayout that describes it; the ghost fields record the
    runs, the free list and the blocks handed out, which the layout's
    invariant relates to the cells. */
module StandardAllocator {
  import opened Wrappers
  import opened AllocatorUtility
  import opened MemoryBlocks
  import opened PoolLayout

  class StandardMemoryAllocator {
    var memoryPool: array<Cell>
    var freePoolHeadIndex: int
    /** Run heads in pool order. */
    ghost var runs: seq<int>
    /** The free list, from freePoolHeadIndex on. */
    ghost var chain: seq<int>
    /** Head index of each block handed out and not yet returned, to its length. */
    ghost var live: map<int, int>

    ghost predicate Valid()
      reads this, memoryPool
    {
      && Inv(memoryPool[..], freePoolHeadIndex, runs, chain, live)
      && NodesHaveRecords(memoryPool[..], chain)
      && NodesAreRuns(runs, chain)
    }

    /** Initialize, for a pool that passed ThrowExceptionIfInvalidMemoryPool:
        one Free run over the whole pool, which is the whole free list. */
    constructor Initialize(pool: array<Cell>)
      requires pool.Length >= RequireMinimumPoolCount
      modifies pool
      ensures Valid() && memoryPool == pool && freePoolHeadIndex == 0
      ensures runs == [0] && chain == [0] && live == map[]
      ensures InitialLayout(pool[..])
      ensures forall p :: 0 < p < pool.Length - 1 ==> pool[p] == old(pool[p])
    {
      memoryPool := pool;
      freePoolHeadIndex := 0;
      runs := [0];
      chain := [0];
      live := map[];
      new;
      SetAllocationInfo(0, pool.Length - (RequireMinimumPoolCount - 1), FreeCode, IndexNotFound);
      InitialInv(memoryPool[..]);
      FreeListHasRecords(memoryPool[..], 0, runs, chain);
    }

    /** The constructor taking a pool: a null pool or one shorter than
        RequireMinimumPoolCount cells is refused. */
    static method FromPool(pool: array?<Cell>) returns (r: Result<StandardMemoryAllocator>)
      modifies pool
      ensures pool == null ==> r == Failure(ArgumentNull)
      ensures pool != null && pool.Length < RequireMinimumPoolCount ==> r == Failure(ArgumentOutOfRange)
      ensures r.Success? <==> pool != null && pool.Length >= RequireMinimumPoolCount
      ensures r.Failure? && pool != null ==> unchanged(pool)
      ensures r.Success? ==> fresh(r.value) && r.value.Valid() && r.value.memoryPool == pool
      ensures r.Success? ==> InitialLayout(pool[..]) && r.value.freePoolHeadIndex == 0 && r.value.live == map[]
    {
      if pool == null {
        return Failure(ArgumentNull);
      }
      if pool.Length < RequireMinimumPoolCount {
        return Failure(ArgumentOutOfRange);
      }
      var a := new StandardMemoryAllocator.Initialize(pool);
      r := Success(a);
    }

    /** The constructor taking a byte size: sizes below RequireMinimumPoolSize
        are refused; otherwise a zeroed pool of the element count that holds
        the size is created and initialized. */
    static method FromSize(memoryPoolSize: int32) returns (r: Result<StandardMemoryAllocator>)
      ensures r.Success? <==> memoryPoolSize >= RequireMinimumPoolSize
      ensures r.Failure? ==> r.error == ArgumentOutOfRange
      ensures r.Success? ==> fresh(r.value) && fresh(r.value.memoryPool) && r.value.Valid()
      ensures r.Success? ==> r.value.memoryPool.Length == ByteSizeToElementCount(memoryPoolSize)
      ensures r.Success? ==> InitialLayout(r.value.memoryPool[..]) && r.value.live == map[]
    {
      if memoryPoolSize < RequireMinimumPoolSize {
        return Failure(ArgumentOutOfRange);
      }
      var pool := new Cell[ByteSizeToElementCount(memoryPoolSize)](_ => Cell(0, 0));
      var a := new StandardMemoryAllocator.Initialize(pool);
      r := Success(a);
    }

    /** SetAllocationInfo, in place. */
    method SetAllocationInfo(poolIndex: int, allocatedCount: int, typeCode: int, nextIndex: int)
      requires 0 <= poolIndex && 0 <= allocatedCount && poolIndex + HeadMemoryInfoCount + allocatedCount < memoryPool.Length
      modifies memoryPool
      ensures memoryPool[..] == WithInfo(old(memoryPool[..]), poolIndex, allocatedCount, typeCode, nextIndex)
    {
      var tailInfoIndex := poolIndex + HeadMemoryInfoCount + allocatedCount;
      memoryPool[poolIndex] := Cell(allocatedCount, typeCode);
      memoryPool[tailInfoIndex] := Cell(allocatedCount + RequireMemoryInfoCount, nextIndex);
    }

    /** GetAllocationInfo, read from the array. */
    function GetAllocationInfo(poolIndex: int): (r: Info)
      requires HasRecords(memoryPool[..], poolIndex)
      reads this, memoryPool
      ensures r == InfoAt(memoryPool[..], poolIndex)
    {
      var allocatedCount := memoryPool[poolIndex].int0;
      Info(allocatedCount, memoryPool[poolIndex].int1, memoryPool[poolIndex + HeadMemoryInfoCount + allocatedCount].int1)
    }

    /** GetPreviousAllocationInfoIndex, read from the array. */
    function GetPreviousAllocationInfoIndex(poolIndex: int): (r: int)
      requires 0 <= poolIndex <= memoryPool.Length
      reads this, memoryPool
      ensures r == PreviousIndex(memoryPool[..], poolIndex)
    {
      if poolIndex <= 0 then IndexNotFound
      else
        var totalAllocatedCount := memoryPool[poolIndex - 1].int0;
        var previousMemoryInfoIndex := poolIndex - totalAllocatedCount;
        if previousMemoryInfoIndex < 0 then IndexNotFound else previousMemoryInfoIndex
    }

    /** GetLastFreeMemoryInfoIndex: walks the next links from the head to the
        node whose link is IndexNotFound. */
    method GetLastFreeMemoryInfoIndex() returns (r: int)
      requires Valid()
      ensures r == if chain == [] then IndexNotFound else chain[|chain| - 1]
    {
      FreeListHasRecords(memoryPool[..], freePoolHeadIndex, runs, chain);
      if freePoolHeadIndex < 0 {
        return IndexNotFound;
      }
      var hitIndex := freePoolHeadIndex;
      assert ChainAt(memoryPool[..], runs, chain, 0);
      var nextFreePoolIndex := GetAllocationInfo(hitIndex).nextIndex;
      ghost var k := 0;
      while nextFreePoolIndex != IndexNotFound
        invariant 0 <= k < |chain| && hitIndex == chain[k]
        invariant nextFreePoolIndex == if k + 1 < |chain| then chain[k + 1] else IndexNotFound
        decreases |chain| - k
      {
        k := k + 1;
        assert ChainAt(memoryPool[..], runs, chain, k);
        hitIndex := nextFreePoolIndex;
        nextFreePoolIndex := GetAllocationInfo(hitIndex).nextIndex;
      }
      return hitIndex;
    }

    /** FindFirstFreeBlock: the first node of the free list whose count is at
        least `count`, or IndexNotFound. */
    method FindFirstFreeBlock(count: int) returns (r: int)
      requires Valid()
      ensures var k := FirstFit(memoryPool[..], chain, count);
        r == if k < 0 then IndexNotFound else chain[k]
    {
      FreeListHasRecords(memoryPool[..], freePoolHeadIndex, runs, chain);
      if freePoolHeadIndex < 0 {
        return IndexNotFound;
      }
      var hitIndex := freePoolHeadIndex;
      assert ChainAt(memoryPool[..], runs, chain, 0);
      var info := GetAllocationInfo(hitIndex);
      ghost var k := 0;
      while info.allocatedCount < count
        invariant 0 <= k < |chain| && hitIndex == chain[k] && ChainAt(memoryPool[..], runs, chain, k)
        invariant info == InfoAt(memoryPool[..], hitIndex)
        invariant FirstFit(memoryPool[..], chain, count) == FirstFitFrom(memoryPool[..], chain, count, k)
        decreases |chain| - k
      {
        if info.nextIndex == IndexNotFound {
          return IndexNotFound;
        }
        k := k + 1;
        assert ChainAt(memoryPool[..], runs, chain, k);
        hitIndex := info.nextIndex;
        info := GetAllocationInfo(hitIndex);
      }
      return hitIndex;
    }

    /** DivideFreeMemoryBlock, in place. */
    method DivideFreeMemoryBlock(poolIndex: int, count: int, typeCode: int) returns (next: int)
      requires HasRecords(memoryPool[..], poolIndex) && 0 <= count <= memoryPool[poolIndex].int0
      modifies memoryPool
      ensures (memoryPool[..], next) == Divide(old(memoryPool[..]), poolIndex, count, typeCode)
    {
      var info := GetAllocationInfo(poolIndex);
      var freeCount := info.allocatedCount;
      var nextFreeIndex := info.nextIndex;
      if freeCount - RequireMinimumPoolCount < count || freeCount == count {
        return nextFreeIndex;
      }
      SetAllocationInfo(poolIndex, count, typeCode, IndexNotFound);
      var newNextFreeIndex := poolIndex + RequireMemoryInfoCount + count;
      var newFreeCount := freeCount - (RequireMemoryInfoCount + count);
      SetAllocationInfo(newNextFreeIndex, newFreeCount, FreeCode, nextFreeIndex);
      return newNextFreeIndex;
    }

    /** MergeMemoryBlock, in place. */
    method MergeMemoryBlock(previousPoolIndex: int, currentPoolIndex: int)
      requires HasRecords(memoryPool[..], previousPoolIndex) && HasRecords(memoryPool[..], currentPoolIndex)
      requires currentPoolIndex == EndOf(memoryPool[..], previousPoolIndex)
      modifies memoryPool
      ensures memoryPool[..] == Merge(old(memoryPool[..]), previousPoolIndex, currentPoolIndex)
    {
      var prev := GetAllocationInfo(previousPoolIndex);
      var curr := GetAllocationInfo(currentPoolIndex);
      var totalAllocCount := prev.allocatedCount + curr.allocatedCount + RequireMemoryInfoCount * 2;
      SetAllocationInfo(previousPoolIndex, totalAllocCount - RequireMemoryInfoCount, prev.typeCode, prev.nextIndex);
    }

    /** Allocate: refuse a bad request, find the first free run that holds the
        cells, divide it and hand out the cells after its head record. The
        free-list head becomes whatever the division returns. */
    method Allocate(size: int32, kind: AllocationType) returns (r: Result<MemoryBlock<Cell>>)
      requires Valid()
      modifies this, memoryPool
      ensures Valid() && memoryPool == old(memoryPool)
      ensures r.Failure? ==> unchanged(this) && unchanged(memoryPool)
      ensures CheckRequest(size, kind).Fail? ==> r == Failure(CheckRequest(size, kind).error)
      ensures CheckRequest(size, kind) == Pass ==>
        var count := ByteSizeToElementCount(size);
        var k := FirstFit(old(memoryPool[..]), old(chain), count);
        && (k < 0 ==> r == Failure(OutOfMemory))
        && (0 <= k ==>
              var idx := old(chain)[k];
              && r == Success(MemoryBlock(memoryPool, idx + HeadMemoryInfoCount, count))
              && (memoryPool[..], freePoolHeadIndex) == Divide(old(memoryPool[..]), idx, count, kind.Code())
              && runs == RunsAfterDivide(old(memoryPool[..]), old(runs), idx, count)
              && chain == ChainAfterDivide(old(memoryPool[..]), old(chain), k, count)
              && live == old(live)[idx := count])
      ensures r.Success? ==> r.value.Valid() && r.value.pool == memoryPool && r.value.offset - HeadMemoryInfoCount in live
    {
      var check := CheckRequest(size, kind);
      if check.Fail? {
        return Failure(check.error);
      }
      var requestCount := ByteSizeToElementCount(size);
      var freeIndex := FindFirstFreeBlock(requestCount);
      if freeIndex == IndexNotFound {
        return Failure(OutOfMemory);
      }
      ghost var cells := memoryPool[..];
      ghost var k := FirstFit(cells, chain, requestCount);
      assert ChainAt(cells, runs, chain, k);
      DivideKeepsInv(cells, freePoolHeadIndex, runs, chain, live, k, requestCount, kind.Code());
      freePoolHeadIndex := DivideFreeMemoryBlock(freeIndex, requestCount, kind.Code());
      runs := RunsAfterDivide(cells, runs, freeIndex, requestCount);
      chain := ChainAfterDivide(cells, chain, k, requestCount);
      live := live[freeIndex := requestCount];
      FreeListHasRecords(memoryPool[..], freePoolHeadIndex, runs, chain);
      LiveWindowInPool(memoryPool[..], freePoolHeadIndex, runs, chain, live, freeIndex);
      r := Success(MemoryBlock(memoryPool, freeIndex + HeadMemoryInfoCount, requestCount));
    }

    /** Deallocate of a block this allocator handed out: merge it into a Free
        predecessor, or mark its run Free and link it after the last node of
        the free list. The run is recorded with its own count (see Release). */
    method Deallocate(memoryBlock: MemoryBlock<Cell>)
      requires Valid() && memoryBlock.pool == memoryPool && memoryBlock.offset - HeadMemoryInfoCount in live
      modifies this, memoryPool
      ensures Valid() && memoryPool == old(memoryPool)
      ensures var returned := memoryBlock.offset - HeadMemoryInfoCount;
        && (memoryPool[..], freePoolHeadIndex) == Release(old(memoryPool[..]), old(freePoolHeadIndex), old(runs), old(chain), old(live), returned)
        && runs == RunsAfterRelease(old(memoryPool[..]), old(runs), returned)
        && chain == ChainAfterRelease(old(memoryPool[..]), old(runs), old(chain), returned)
        && live == old(live) - {returned}
    {
      var returnedPoolIndex := memoryBlock.offset - HeadMemoryInfoCount;
      ReleaseCases(memoryPool[..], freePoolHeadIndex, runs, chain, live, returnedPoolIndex);
      var previousPoolIndex := GetPreviousAllocationInfoIndex(returnedPoolIndex);
      if previousPoolIndex != IndexNotFound {
        var info := GetAllocationInfo(previousPoolIndex);
        if info.typeCode == FreeCode {
          MergeReturned(returnedPoolIndex, previousPoolIndex);
          return;
        }
      }
      AppendReturned(returnedPoolIndex);
    }

    /** The merging branch of Deallocate: the returned run joins its Free
        predecessor, and the free list is untouched. */
    method MergeReturned(returnedPoolIndex: int, previousPoolIndex: int)
      requires Valid() && returnedPoolIndex in live
      requires MergesBackward(memoryPool[..], runs, returnedPoolIndex)
      requires previousPoolIndex == PreviousIndex(memoryPool[..], returnedPoolIndex)
      modifies this, memoryPool
      ensures Valid() && memoryPool == old(memoryPool)
      ensures && (memoryPool[..], freePoolHeadIndex) == Release(old(memoryPool[..]), old(freePoolHeadIndex), old(runs), old(chain), old(live), returnedPoolIndex)
        && runs == RunsAfterRelease(old(memoryPool[..]), old(runs), returnedPoolIndex)
        && chain == ChainAfterRelease(old(memoryPool[..]), old(runs), old(chain), returnedPoolIndex)
        && live == old(live) - {returnedPoolIndex}
    {
      ghost var cells := memoryPool[..];
      ReleaseKeepsInv(cells, freePoolHeadIndex, runs, chain, live, returnedPoolIndex);
      ReleaseCases(cells, freePoolHeadIndex, runs, chain, live, returnedPoolIndex);
      ghost var runs' := RunsAfterRelease(cells, runs, returnedPoolIndex);
      ghost var live' := live - {returnedPoolIndex};
      MergeMemoryBlock(previousPoolIndex, returnedPoolIndex);
      runs, live := runs', live';
      FreeListHasRecords(memoryPool[..], freePoolHeadIndex, runs, chain);
    }

    /** The other branch of Deallocate: the returned run is marked Free with
        no successor and becomes the head of an empty free list, or is linked
        after the free list's last node. */
    method AppendReturned(returnedPoolIndex: int)
      requires Valid() && returnedPoolIndex in live
      requires !MergesBackward(memoryPool[..], runs, returnedPoolIndex)
      modifies this, memoryPool
      ensures Valid() && memoryPool == old(memoryPool)
      ensures && (memoryPool[..], freePoolHeadIndex) == Release(old(memoryPool[..]), old(freePoolHeadIndex), old(runs), old(chain), old(live), returnedPoolIndex)
        && runs == RunsAfterRelease(old(memoryPool[..]), old(runs), returnedPoolIndex)
        && chain == ChainAfterRelease(old(memoryPool[..]), old(runs), old(chain), returnedPoolIndex)
        && live == old(live) - {returnedPoolIndex}
    {
      ghost var cells, head := memoryPool[..], freePoolHeadIndex;
      MarkFree(returnedPoolIndex);
      var lastFreePoolIndex := GetLastFreeMemoryInfoIndex();
      if lastFreePoolIndex != IndexNotFound {
        LinkAfterLast(returnedPoolIndex, lastFreePoolIndex, cells, head);
      } else {
        StartFreeList(returnedPoolIndex, cells, head);
      }
    }

    /** Deallocate's tail when the free list is empty: the relabelled run
        becomes the whole free list. */
    method StartFreeList(returnedPoolIndex: int, ghost cells: seq<Cell>, ghost head: int)
      requires Valid() && chain == [] && returnedPoolIndex in live
      requires Inv(cells, head, runs, chain, live) && !MergesBackward(cells, runs, returnedPoolIndex)
      requires memoryPool[..] == WithInfo(cells, returnedPoolIndex, cells[returnedPoolIndex].int0, FreeCode, IndexNotFound)
      modifies this
      ensures Valid() && memoryPool == old(memoryPool)
      ensures && (memoryPool[..], freePoolHeadIndex) == Release(cells, head, old(runs), old(chain), old(live), returnedPoolIndex)
        && runs == RunsAfterRelease(cells, old(runs), returnedPoolIndex)
        && chain == ChainAfterRelease(cells, old(runs), old(chain), returnedPoolIndex)
        && live == old(live) - {returnedPoolIndex}
    {
      ReleaseCases(cells, head, runs, chain, live, returnedPoolIndex);
      ReleaseKeepsInv(cells, head, runs, chain, live, returnedPoolIndex);
      runs, chain, live := RunsAfterRelease(cells, runs, returnedPoolIndex),
        ChainAfterRelease(cells, runs, chain, returnedPoolIndex), live - {returnedPoolIndex};
      freePoolHeadIndex := returnedPoolIndex;
      FreeListHasRecords(memoryPool[..], freePoolHeadIndex, runs, chain);
    }

    /** Deallocate's tail when the free list is not empty: the last node's
        tail record is rewritten to point at the relabelled run. */
    method LinkAfterLast(returnedPoolIndex: int, lastFreePoolIndex: int, ghost cells: seq<Cell>, ghost head: int)
      requires Valid() && chain != [] && lastFreePoolIndex == chain[|chain| - 1] && returnedPoolIndex in live
      requires Inv(cells, head, runs, chain, live) && !MergesBackward(cells, runs, returnedPoolIndex)
      requires head == freePoolHeadIndex
      requires memoryPool[..] == WithInfo(cells, returnedPoolIndex, cells[returnedPoolIndex].int0, FreeCode, IndexNotFound)
      modifies this, memoryPool
      ensures Valid() && memoryPool == old(memoryPool)
      ensures && (memoryPool[..], freePoolHeadIndex) == Release(cells, head, old(runs), old(chain), old(live), returnedPoolIndex)
        && runs == RunsAfterRelease(cells, old(runs), returnedPoolIndex)
        && chain == ChainAfterRelease(cells, old(runs), old(chain), returnedPoolIndex)
        && live == old(live) - {returnedPoolIndex}
    {
      ReleaseCases(cells, head, runs, chain, live, returnedPoolIndex);
      ReleaseKeepsInv(cells, head, runs, chain, live, returnedPoolIndex);
      var lastInfo := GetAllocationInfo(lastFreePoolIndex);
      SetAllocationInfo(lastFreePoolIndex, lastInfo.allocatedCount, FreeCode, returnedPoolIndex);
      runs, chain, live := RunsAfterRelease(cells, runs, returnedPoolIndex),
        ChainAfterRelease(cells, runs, chain, returnedPoolIndex), live - {returnedPoolIndex};
      FreeListHasRecords(memoryPool[..], freePoolHeadIndex, runs, chain);
    }

    /** SetAllocationInfo(returned, its count, Free, IndexNotFound): the
        returned run is relabelled Free in place; the layout is unchanged. */
    method MarkFree(returnedPoolIndex: int)
      requires Valid() && returnedPoolIndex in live
      modifies memoryPool
      ensures Valid()
      ensures memoryPool[..] == WithInfo(old(memoryPool[..]), returnedPoolIndex, old(memoryPool[returnedPoolIndex].int0), FreeCode, IndexNotFound)
    {
      ghost var cells := memoryPool[..];
      RelabelLiveKeepsInv(cells, freePoolHeadIndex, runs, chain, live, returnedPoolIndex);
      var returnedCount := GetAllocationInfo(returnedPoolIndex).allocatedCount;
      SetAllocationInfo(returnedPoolIndex, returnedCount, FreeCode, IndexNotFound);
      FreeListHasRecords(memoryPool[..], freePoolHeadIndex, runs, chain);
    }
  }
}
