/** The layout StandardMemoryAllocator keeps inside its pool, as values: the
    cells of the pool as a sequence, the head and tail records of a run, the
    free list threaded through the tail records, and the effect of each step
    of Allocate and Deallocate on the cells. The class in StandardAllocator.dfy
    performs these steps in place on its array and is specified by them. */
module PoolLayout {
  import opened AllocatorUtility

  /** The two 32-bit halves `Value.Int[0]` and `Value.Int[1]` of a pool cell:
      all the allocator ever reads or writes of an SrValue. */
  datatype Cell = Cell(int0: int, int1: int)

  const HeadMemoryInfoCount := 1
  const TailMemoryInfoCount := 1
  const RequireMemoryInfoCount := HeadMemoryInfoCount + TailMemoryInfoCount
  const RequireMinimumPoolCount := RequireMemoryInfoCount + 1
  const RequireMinimumPoolSize := RequireMinimumPoolCount * 8
  const IndexNotFound := -1
  const FreeCode := AllocationType.Free.Code()

  /** What GetAllocationInfo reports for a run: the head's count and kind, and
      the next-free index stored in the tail. */
  datatype Info = Info(allocatedCount: int, typeCode: int, nextIndex: int)

  /** Index of the tail record of the run whose head is at i. */
  function TailOf(cells: seq<Cell>, i: int): int
    requires 0 <= i < |cells|
  {
    i + HeadMemoryInfoCount + cells[i].int0
  }

  /** First index after the run whose head is at i (head + cells + tail). */
  function EndOf(cells: seq<Cell>, i: int): int
    requires 0 <= i < |cells|
  {
    i + cells[i].int0 + RequireMemoryInfoCount
  }

  /** The head at i has a non-negative count and its tail lies inside the pool. */
  predicate HasRecords(cells: seq<Cell>, i: int) {
    0 <= i < |cells| && 0 <= cells[i].int0 && TailOf(cells, i) < |cells|
  }

  /** GetAllocationInfo. */
  function InfoAt(cells: seq<Cell>, i: int): Info
    requires HasRecords(cells, i)
  {
    Info(cells[i].int0, cells[i].int1, cells[TailOf(cells, i)].int1)
  }

  /** SetAllocationInfo(i, n, t, next): the head at i becomes (n, t), the tail
      at i + 1 + n becomes (n + 2, next), and no other cell changes. */
  function WithInfo(cells: seq<Cell>, i: int, n: int, t: int, next: int): (r: seq<Cell>)
    requires 0 <= i && 0 <= n && i + HeadMemoryInfoCount + n < |cells|
    ensures |r| == |cells|
    ensures r[i] == Cell(n, t) && r[i + HeadMemoryInfoCount + n] == Cell(n + RequireMemoryInfoCount, next)
    ensures forall j :: 0 <= j < |cells| && j != i && j != i + HeadMemoryInfoCount + n ==> r[j] == cells[j]
  {
    cells[i := Cell(n, t)][i + HeadMemoryInfoCount + n := Cell(n + RequireMemoryInfoCount, next)]
  }

  /** Reading back the records just written gives what was written: the tail
      is found from the head, and its total count is the head's count plus 2. */
  lemma InfoRoundTrip(cells: seq<Cell>, i: int, n: int, t: int, next: int)
    requires 0 <= i && 0 <= n && i + HeadMemoryInfoCount + n < |cells|
    ensures HasRecords(WithInfo(cells, i, n, t, next), i)
    ensures InfoAt(WithInfo(cells, i, n, t, next), i) == Info(n, t, next)
    ensures EndOf(WithInfo(cells, i, n, t, next), i) == i + n + RequireMemoryInfoCount
  {
  }

  // ---------------------------------------------------------------------------
  // The invariant: runs tile the pool, the free list is a chain of free runs,
  // and every block handed out is a run off the free list.
  // ---------------------------------------------------------------------------

  /** Run number k of `runs` (head indices in pool order) has consistent
      records: its tail's total count is its count plus 2, and it ends where
      the next run starts (the last one ends at the end of the pool). */
  ghost predicate RunAt(cells: seq<Cell>, runs: seq<int>, k: int)
    requires 0 <= k < |runs|
  {
    && HasRecords(cells, runs[k])
    && cells[TailOf(cells, runs[k])].int0 == cells[runs[k]].int0 + RequireMemoryInfoCount
    && EndOf(cells, runs[k]) == (if k + 1 < |runs| then runs[k + 1] else |cells|)
  }

  /** The runs cut the whole pool into consecutive pieces starting at 0. */
  ghost predicate Tiles(cells: seq<Cell>, runs: seq<int>) {
    && |runs| > 0 && runs[0] == 0
    && forall k :: 0 <= k < |runs| ==> RunAt(cells, runs, k)
  }

  /** Node k of the free list is a run tagged Free whose tail links to node k + 1
      (the last one to IndexNotFound). */
  ghost predicate ChainAt(cells: seq<Cell>, runs: seq<int>, chain: seq<int>, k: int)
    requires 0 <= k < |chain|
  {
    && chain[k] in runs
    && HasRecords(cells, chain[k])
    && cells[chain[k]].int1 == FreeCode
    && InfoAt(cells, chain[k]).nextIndex == (if k + 1 < |chain| then chain[k + 1] else IndexNotFound)
  }

  /** Following next pointers from `head` visits exactly `chain`, then stops. */
  ghost predicate FreeList(cells: seq<Cell>, head: int, runs: seq<int>, chain: seq<int>) {
    && (if chain == [] then head == IndexNotFound else head == chain[0])
    && (forall k :: 0 <= k < |chain| ==> ChainAt(cells, runs, chain, k))
    && (forall i, j :: 0 <= i < j < |chain| ==> chain[i] != chain[j])
  }

  /** Every block handed out and not yet returned (head index to requested
      length) is a run that is not on the free list and is at least as large
      as the request. */
  ghost predicate LiveBlocks(cells: seq<Cell>, runs: seq<int>, chain: seq<int>, live: map<int, int>) {
    forall x :: x in live ==>
      && x in runs && x !in chain
      && HasRecords(cells, x)
      && 0 < live[x] <= cells[x].int0
  }

  ghost predicate Inv(cells: seq<Cell>, head: int, runs: seq<int>, chain: seq<int>, live: map<int, int>) {
    && Tiles(cells, runs)
    && FreeList(cells, head, runs, chain)
    && LiveBlocks(cells, runs, chain, live)
  }

  /** The cells Initialize leaves: one Free run over the whole pool. */
  predicate InitialLayout(cells: seq<Cell>) {
    && |cells| >= RequireMinimumPoolCount
    && cells[0] == Cell(|cells| - RequireMemoryInfoCount, FreeCode)
    && cells[|cells| - 1] == Cell(|cells|, IndexNotFound)
  }

  /** The initial layout satisfies the invariant with one run, on the free list. */
  lemma InitialInv(cells: seq<Cell>)
    requires InitialLayout(cells)
    ensures Inv(cells, 0, [0], [0], map[])
  {
    assert RunAt(cells, [0], 0);
    assert ChainAt(cells, [0], [0], 0);
  }

  // ---------------------------------------------------------------------------
  // Facts about tilings.
  // ---------------------------------------------------------------------------

  /** Runs are in pool order and do not overlap. */
  lemma {:induction false} RunsIncrease(cells: seq<Cell>, runs: seq<int>, a: int, b: int)
    requires Tiles(cells, runs) && 0 <= a < b < |runs|
    ensures RunAt(cells, runs, a) && EndOf(cells, runs[a]) <= runs[b]
    decreases b - a
  {
    assert RunAt(cells, runs, a);
    if a + 1 < b {
      assert RunAt(cells, runs, a + 1);
      RunsIncrease(cells, runs, a + 1, b);
    }
  }

  /** A run other than the runs a..b lies wholly before run a or wholly after run b. */
  lemma RunOutsideRange(cells: seq<Cell>, runs: seq<int>, a: int, b: int, k: int)
    requires Tiles(cells, runs) && 0 <= a <= b < |runs| && 0 <= k < |runs| && (k < a || b < k)
    ensures RunAt(cells, runs, k) && RunAt(cells, runs, a) && RunAt(cells, runs, b)
    ensures EndOf(cells, runs[k]) <= runs[a] || EndOf(cells, runs[b]) <= runs[k]
  {
    if k < a {
      RunsIncrease(cells, runs, k, a);
    } else {
      RunsIncrease(cells, runs, b, k);
    }
  }

  /** The position of a run head in `runs`. */
  ghost function IndexIn(runs: seq<int>, x: int): (j: int)
    requires x in runs
    ensures 0 <= j < |runs| && runs[j] == x
  {
    var j :| 0 <= j < |runs| && runs[j] == x; j
  }

  /** Cells outside [lo, hi) are the same in both sequences. */
  ghost predicate SameOutside(cells: seq<Cell>, cells': seq<Cell>, lo: int, hi: int) {
    && |cells'| == |cells|
    && forall p :: 0 <= p < |cells| && !(lo <= p < hi) ==> cells'[p] == cells[p]
  }

  /** A run outside the changed range keeps its records and its place in the list. */
  lemma KeepsRecords(cells: seq<Cell>, cells': seq<Cell>, x: int, lo: int, hi: int)
    requires HasRecords(cells, x) && SameOutside(cells, cells', lo, hi)
    requires EndOf(cells, x) <= lo || hi <= x
    ensures HasRecords(cells', x) && cells'[x] == cells[x]
    ensures TailOf(cells', x) == TailOf(cells, x) && cells'[TailOf(cells, x)] == cells[TailOf(cells, x)]
    ensures InfoAt(cells', x) == InfoAt(cells, x) && EndOf(cells', x) == EndOf(cells, x)
  {
    assert cells'[x] == cells[x];
  }

  /** Walking back from a run head over the previous tail's total count
      (GetPreviousAllocationInfoIndex) finds the previous run's head; the first
      run has none. */
  function PreviousIndex(cells: seq<Cell>, i: int): (r: int)
    requires 0 <= i <= |cells|
    ensures i == 0 ==> r == IndexNotFound
    ensures r != IndexNotFound ==> 0 <= r && r + cells[i - 1].int0 == i
  {
    if i <= 0 then IndexNotFound
    else
      var previous := i - cells[i - 1].int0;
      if previous < 0 then IndexNotFound else previous
  }

  lemma PreviousIsNeighbour(cells: seq<Cell>, runs: seq<int>, j: int)
    requires Tiles(cells, runs) && 0 <= j < |runs|
    ensures RunAt(cells, runs, j) && (j > 0 ==> RunAt(cells, runs, j - 1))
    ensures PreviousIndex(cells, runs[j]) == if j == 0 then IndexNotFound else runs[j - 1]
  {
    assert RunAt(cells, runs, j);
    if j > 0 {
      assert RunAt(cells, runs, j - 1);
      RunsIncrease(cells, runs, 0, j);
    }
  }

  // ---------------------------------------------------------------------------
  // Allocate: first fit along the free list, then DivideFreeMemoryBlock.
  // ---------------------------------------------------------------------------

  /** Every node of the chain has its records inside the pool. */
  ghost predicate NodesHaveRecords(cells: seq<Cell>, chain: seq<int>) {
    forall k :: 0 <= k < |chain| ==> HasRecords(cells, chain[k])
  }

  /** Every node of the chain is a run. */
  ghost predicate NodesAreRuns(runs: seq<int>, chain: seq<int>) {
    forall k :: 0 <= k < |chain| ==> chain[k] in runs
  }

  /** Position in `chain`, from p on, of the first node whose count is at least
      `count` (FindFirstFreeBlock), or -1 when there is none. */
  ghost function FirstFitFrom(cells: seq<Cell>, chain: seq<int>, count: int, p: int): (k: int)
    requires NodesHaveRecords(cells, chain) && 0 <= p <= |chain|
    ensures k == -1 || p <= k < |chain|
    ensures 0 <= k ==> count <= cells[chain[k]].int0
    ensures 0 <= k ==> forall j :: p <= j < k ==> cells[chain[j]].int0 < count
    ensures k == -1 ==> forall j :: p <= j < |chain| ==> cells[chain[j]].int0 < count
    decreases |chain| - p
  {
    if p == |chain| then -1
    else if count <= cells[chain[p]].int0 then p
    else FirstFitFrom(cells, chain, count, p + 1)
  }

  ghost function FirstFit(cells: seq<Cell>, chain: seq<int>, count: int): (k: int)
    requires NodesHaveRecords(cells, chain)
    ensures k == -1 || 0 <= k < |chain|
    ensures 0 <= k ==> count <= cells[chain[k]].int0 && forall j :: 0 <= j < k ==> cells[chain[j]].int0 < count
    ensures k == -1 ==> forall j :: 0 <= j < |chain| ==> cells[chain[j]].int0 < count
  {
    FirstFitFrom(cells, chain, count, 0)
  }

  /** DivideFreeMemoryBlock leaves the run whole when the rest would be smaller
      than a minimal run (RequireMinimumPoolCount cells) or fits exactly. */
  predicate NoSplit(freeCount: int, count: int) {
    freeCount - RequireMinimumPoolCount < count || freeCount == count
  }

  /** DivideFreeMemoryBlock(idx, count, type): the new cells and the index it
      returns (which Allocate stores as the free-list head). */
  function Divide(cells: seq<Cell>, idx: int, count: int, typeCode: int): (r: (seq<Cell>, int))
    requires HasRecords(cells, idx) && 0 <= count <= cells[idx].int0
    ensures |r.0| == |cells|
    ensures r.1 == InfoAt(cells, idx).nextIndex || r.1 == idx + RequireMemoryInfoCount + count
  {
    var freeCount := cells[idx].int0;
    var nextFree := InfoAt(cells, idx).nextIndex;
    if NoSplit(freeCount, count) then (cells, nextFree)
    else
      var rest := idx + RequireMemoryInfoCount + count;
      var restCount := freeCount - (RequireMemoryInfoCount + count);
      (WithInfo(WithInfo(cells, idx, count, typeCode, IndexNotFound), rest, restCount, FreeCode, nextFree), rest)
  }

  /** A split run becomes the requested run (typed, unlinked) followed by a
      Free run over the remainder that takes over the old next link and ends at
      the old tail; the rest of the pool is unchanged. Without a split the
      cells are unchanged (the run stays tagged Free) and the old next link is
      returned. */
  lemma DivideShape(cells: seq<Cell>, idx: int, count: int, typeCode: int)
    requires HasRecords(cells, idx) && 0 <= count <= cells[idx].int0
    ensures var (cells', next) := Divide(cells, idx, count, typeCode);
      && SameOutside(cells, cells', idx, EndOf(cells, idx))
      && (NoSplit(cells[idx].int0, count) ==> cells' == cells && next == InfoAt(cells, idx).nextIndex)
      && (!NoSplit(cells[idx].int0, count) ==>
            && next == idx + count + RequireMemoryInfoCount
            && HasRecords(cells', idx) && HasRecords(cells', next)
            && InfoAt(cells', idx) == Info(count, typeCode, IndexNotFound)
            && InfoAt(cells', next) == Info(cells[idx].int0 - count - RequireMemoryInfoCount, FreeCode, InfoAt(cells, idx).nextIndex)
            && EndOf(cells', idx) == next
            && EndOf(cells', next) == EndOf(cells, idx)
            && cells'[TailOf(cells', idx)].int0 == count + RequireMemoryInfoCount
            && cells'[TailOf(cells', next)].int0 == cells'[next].int0 + RequireMemoryInfoCount)
  {
  }

  /** The runs after Divide: the remainder is a new run right after idx. */
  ghost function RunsAfterDivide(cells: seq<Cell>, runs: seq<int>, idx: int, count: int): seq<int>
    requires idx in runs && HasRecords(cells, idx)
  {
    if NoSplit(cells[idx].int0, count) then runs
    else
      var j := IndexIn(runs, idx);
      runs[..j + 1] + [idx + RequireMemoryInfoCount + count] + runs[j + 1..]
  }

  /** The free list after Allocate takes node k: the head becomes what Divide
      returns, so the nodes before k are no longer on the list. */
  ghost function ChainAfterDivide(cells: seq<Cell>, chain: seq<int>, k: int, count: int): seq<int>
    requires 0 <= k < |chain| && HasRecords(cells, chain[k])
  {
    if NoSplit(cells[chain[k]].int0, count) then chain[k + 1..]
    else [chain[k] + RequireMemoryInfoCount + count] + chain[k + 1..]
  }

  lemma DivideKeepsTiles(cells: seq<Cell>, runs: seq<int>, idx: int, count: int, typeCode: int)
    requires Tiles(cells, runs) && idx in runs && HasRecords(cells, idx) && 0 <= count <= cells[idx].int0
    ensures Tiles(Divide(cells, idx, count, typeCode).0, RunsAfterDivide(cells, runs, idx, count))
  {
    if !NoSplit(cells[idx].int0, count) {
      var cells' := Divide(cells, idx, count, typeCode).0;
      var runs' := RunsAfterDivide(cells, runs, idx, count);
      forall k | 0 <= k < |runs'|
        ensures RunAt(cells', runs', k)
      {
        DivideKeepsRun(cells, runs, idx, count, typeCode, cells', runs', k);
      }
    }
  }

  /** One run of the pool after a split: the two halves of the divided run,
      or an untouched run shifted by one place. */
  lemma DivideKeepsRun(cells: seq<Cell>, runs: seq<int>, idx: int, count: int, typeCode: int,
                       cells': seq<Cell>, runs': seq<int>, k: int)
    requires Tiles(cells, runs) && idx in runs && HasRecords(cells, idx) && 0 <= count <= cells[idx].int0
    requires !NoSplit(cells[idx].int0, count)
    requires cells' == Divide(cells, idx, count, typeCode).0
    requires runs' == RunsAfterDivide(cells, runs, idx, count)
    requires 0 <= k < |runs'|
    ensures RunAt(cells', runs', k)
  {
    var j := IndexIn(runs, idx);
    var rest := idx + RequireMemoryInfoCount + count;
    assert runs' == runs[..j + 1] + [rest] + runs[j + 1..];
    DivideShape(cells, idx, count, typeCode);
    assert RunAt(cells, runs, j);
    if k < j || k > j + 1 {
      OuterRunKept(cells, runs, j, rest, cells', runs', k);
    } else if k == j + 1 {
      assert runs'[k] == rest;
      assert j + 2 < |runs'| ==> runs'[j + 2] == runs[j + 1];
    } else {
      assert runs'[k] == idx && runs'[k + 1] == rest;
    }
  }

  /** A run other than the divided one keeps its records; it moves one place
      up in the list when it lies after the new remainder run. */
  lemma OuterRunKept(cells: seq<Cell>, runs: seq<int>, j: int, rest: int, cells': seq<Cell>, runs': seq<int>, k: int)
    requires Tiles(cells, runs) && 0 <= j < |runs| && HasRecords(cells, runs[j])
    requires SameOutside(cells, cells', runs[j], EndOf(cells, runs[j]))
    requires runs' == runs[..j + 1] + [rest] + runs[j + 1..]
    requires 0 <= k < |runs'| && (k < j || k > j + 1)
    ensures RunAt(cells', runs', k)
  {
    if k < j {
      RunOutsideRange(cells, runs, j, j, k);
      KeepsRecords(cells, cells', runs[k], runs[j], EndOf(cells, runs[j]));
      assert runs'[k] == runs[k] && runs'[k + 1] == runs[k + 1];
    } else {
      RunOutsideRange(cells, runs, j, j, k - 1);
      KeepsRecords(cells, cells', runs[k - 1], runs[j], EndOf(cells, runs[j]));
      assert runs'[k] == runs[k - 1];
      assert k + 1 < |runs'| ==> runs'[k + 1] == runs[k];
    }
  }

  /** A run other than idx is still a run after Divide, and so is the remainder. */
  lemma RunsAfterDivideMembers(cells: seq<Cell>, runs: seq<int>, idx: int, count: int, x: int)
    requires idx in runs && HasRecords(cells, idx)
    ensures x in runs ==> x in RunsAfterDivide(cells, runs, idx, count)
    ensures !NoSplit(cells[idx].int0, count) ==> idx + RequireMemoryInfoCount + count in RunsAfterDivide(cells, runs, idx, count)
  {
    if !NoSplit(cells[idx].int0, count) {
      var j := IndexIn(runs, idx);
      var runs' := runs[..j + 1] + [idx + RequireMemoryInfoCount + count] + runs[j + 1..];
      assert runs'[j + 1] == idx + RequireMemoryInfoCount + count;
      if x in runs {
        var jx := IndexIn(runs, x);
        if jx <= j {
          assert runs'[jx] == x;
        } else {
          assert runs'[jx + 1] == x;
        }
      }
    }
  }

  /** A node after k keeps its records and its link, now at position i - k - 1
      (or one further on when the remainder was put in front). */
  lemma DivideKeepsLaterNode(cells: seq<Cell>, head: int, runs: seq<int>, chain: seq<int>, k: int, count: int, typeCode: int, i: int,
                              cells': seq<Cell>, runs': seq<int>, chain': seq<int>, d: int)
    requires Tiles(cells, runs) && FreeList(cells, head, runs, chain)
    requires 0 <= k < i < |chain| && ChainAt(cells, runs, chain, k) && 0 <= count <= cells[chain[k]].int0
    requires cells' == Divide(cells, chain[k], count, typeCode).0
    requires runs' == RunsAfterDivide(cells, runs, chain[k], count)
    requires chain' == ChainAfterDivide(cells, chain, k, count)
    requires d == if NoSplit(cells[chain[k]].int0, count) then 0 else 1
    ensures 0 <= i - k - 1 + d < |chain'| && ChainAt(cells', runs', chain', i - k - 1 + d)
  {
    var idx := chain[k];
    assert ChainAt(cells, runs, chain, i);
    var j := IndexIn(runs, idx);
    var ji := IndexIn(runs, chain[i]);
    assert ji != j;
    RunOutsideRange(cells, runs, j, j, ji);
    DivideShape(cells, idx, count, typeCode);
    KeepsRecords(cells, cells', chain[i], idx, EndOf(cells, idx));
    RunsAfterDivideMembers(cells, runs, idx, count, chain[i]);
    var p := i - k - 1 + d;
    assert chain'[p] == chain[i];
    assert InfoAt(cells', chain[i]) == InfoAt(cells, chain[i]);
    if i + 1 < |chain| {
      assert chain'[p + 1] == chain[i + 1];
    } else {
      assert p + 1 == |chain'|;
    }
  }

  lemma DivideKeepsFreeList(cells: seq<Cell>, head: int, runs: seq<int>, chain: seq<int>, k: int, count: int, typeCode: int)
    requires Tiles(cells, runs) && FreeList(cells, head, runs, chain)
    requires 0 <= k < |chain| && ChainAt(cells, runs, chain, k) && 0 <= count <= cells[chain[k]].int0
    ensures var (cells', head') := Divide(cells, chain[k], count, typeCode);
      FreeList(cells', head', RunsAfterDivide(cells, runs, chain[k], count), ChainAfterDivide(cells, chain, k, count))
  {
    var idx := chain[k];
    var (cells', head') := Divide(cells, idx, count, typeCode);
    var runs' := RunsAfterDivide(cells, runs, idx, count);
    var chain' := ChainAfterDivide(cells, chain, k, count);
    var d := if NoSplit(cells[idx].int0, count) then 0 else 1;
    assert forall t :: d <= t < |chain'| ==> chain'[t] == chain[t - d + k + 1];
    forall t | d <= t < |chain'|
      ensures ChainAt(cells', runs', chain', t)
    {
      DivideKeepsLaterNode(cells, head, runs, chain, k, count, typeCode, t - d + k + 1, cells', runs', chain', d);
    }
    if d == 1 {
      DivideShape(cells, idx, count, typeCode);
      RunsAfterDivideMembers(cells, runs, idx, count, idx);
      assert ChainAt(cells', runs', chain', 0);
      forall t | 1 <= t < |chain'|
        ensures chain'[t] != chain'[0]
      {
        assert chain'[t] == chain[t + k] && ChainAt(cells, runs, chain, t + k);
        var ji := IndexIn(runs, chain'[t]);
        var j := IndexIn(runs, idx);
        RunOutsideRange(cells, runs, j, j, ji);
        assert RunAt(cells, runs, j);
      }
    } else {
      assert chain'[..] == chain[k + 1..];
    }
    assert forall t :: 0 <= t < |chain'| ==> ChainAt(cells', runs', chain', t);
  }

  lemma DivideKeepsLiveBlocks(cells: seq<Cell>, head: int, runs: seq<int>, chain: seq<int>, live: map<int, int>, k: int, count: int, typeCode: int)
    requires Inv(cells, head, runs, chain, live)
    requires 0 <= k < |chain| && ChainAt(cells, runs, chain, k) && 0 < count <= cells[chain[k]].int0
    ensures LiveBlocks(Divide(cells, chain[k], count, typeCode).0, RunsAfterDivide(cells, runs, chain[k], count),
                       ChainAfterDivide(cells, chain, k, count), live[chain[k] := count])
  {
    assert ChainAt(cells, runs, chain, k);
    var idx := chain[k];
    var cells' := Divide(cells, idx, count, typeCode).0;
    var runs' := RunsAfterDivide(cells, runs, idx, count);
    var chain' := ChainAfterDivide(cells, chain, k, count);
    var live' := live[idx := count];
    var j := IndexIn(runs, idx);
    assert RunAt(cells, runs, j);
    DivideShape(cells, idx, count, typeCode);
    var d := if NoSplit(cells[idx].int0, count) then 0 else 1;
    assert chain'[d..] == chain[k + 1..];
    assert idx !in chain[k + 1..];
    if d == 1 {
      assert runs'[j] == idx;
    }
    forall x | x in live'
      ensures x in runs' && x !in chain' && HasRecords(cells', x) && 0 < live'[x] <= cells'[x].int0
    {
      if x != idx {
        var jx := IndexIn(runs, x);
        RunOutsideRange(cells, runs, j, j, jx);
        KeepsRecords(cells, cells', x, idx, EndOf(cells, idx));
        assert x !in chain[k + 1..];
        if d == 1 {
          if jx <= j {
            assert runs'[jx] == runs[jx];
          } else {
            assert runs'[jx + 1] == runs[jx];
          }
        }
      }
    }
  }

  /** Allocating `count` cells from node k of the free list keeps the
      invariant; the run at that node becomes live with `count` cells. */
  lemma DivideKeepsInv(cells: seq<Cell>, head: int, runs: seq<int>, chain: seq<int>, live: map<int, int>, k: int, count: int, typeCode: int)
    requires Inv(cells, head, runs, chain, live)
    requires 0 <= k < |chain| && ChainAt(cells, runs, chain, k) && 0 < count <= cells[chain[k]].int0
    ensures var (cells', head') := Divide(cells, chain[k], count, typeCode);
      Inv(cells', head', RunsAfterDivide(cells, runs, chain[k], count), ChainAfterDivide(cells, chain, k, count), live[chain[k] := count])
  {
    assert ChainAt(cells, runs, chain, k);
    DivideKeepsTiles(cells, runs, chain[k], count, typeCode);
    DivideKeepsFreeList(cells, head, runs, chain, k, count, typeCode);
    DivideKeepsLiveBlocks(cells, head, runs, chain, live, k, count, typeCode);
  }

  /** The free runs the list passed over before node k are tagged Free but are
      neither on the list nor handed out after Allocate takes node k. */
  lemma DivideDropsEarlierNodes(cells: seq<Cell>, head: int, runs: seq<int>, chain: seq<int>, live: map<int, int>, k: int, count: int, typeCode: int, i: int)
    requires Inv(cells, head, runs, chain, live)
    requires 0 <= i < k < |chain| && ChainAt(cells, runs, chain, k) && 0 < count <= cells[chain[k]].int0
    ensures var cells' := Divide(cells, chain[k], count, typeCode).0;
      && chain[i] !in ChainAfterDivide(cells, chain, k, count)
      && chain[i] !in live[chain[k] := count]
      && HasRecords(cells', chain[i]) && cells'[chain[i]].int1 == FreeCode
  {
    var idx := chain[k];
    var cells' := Divide(cells, idx, count, typeCode).0;
    assert ChainAt(cells, runs, chain, i);
    var j := IndexIn(runs, idx);
    var ji := IndexIn(runs, chain[i]);
    RunOutsideRange(cells, runs, j, j, ji);
    DivideShape(cells, idx, count, typeCode);
    KeepsRecords(cells, cells', chain[i], idx, EndOf(cells, idx));
    assert chain[i] !in chain[k + 1..];
    assert RunAt(cells, runs, j);
  }

  // ---------------------------------------------------------------------------
  // Deallocate: merge into a free predecessor, or append to the free list.
  // ---------------------------------------------------------------------------

  /** MergeMemoryBlock(prev, curr): prev's head and a new tail at curr's tail
      describe one run over both; prev keeps its kind and its next link. */
  function Merge(cells: seq<Cell>, prev: int, curr: int): (r: seq<Cell>)
    requires HasRecords(cells, prev) && HasRecords(cells, curr) && curr == EndOf(cells, prev)
    ensures |r| == |cells|
    ensures r[prev] == Cell(cells[prev].int0 + cells[curr].int0 + RequireMemoryInfoCount, cells[prev].int1)
  {
    var p := InfoAt(cells, prev);
    var c := InfoAt(cells, curr);
    var totalAllocCount := p.allocatedCount + c.allocatedCount + RequireMemoryInfoCount * 2;
    WithInfo(cells, prev, totalAllocCount - RequireMemoryInfoCount, p.typeCode, p.nextIndex)
  }

  /** The run before the returned run exists and is tagged Free, so Deallocate
      merges into it. */
  ghost predicate MergesBackward(cells: seq<Cell>, runs: seq<int>, returned: int)
    requires Tiles(cells, runs) && returned in runs
  {
    PreviousIsNeighbour(cells, runs, IndexIn(runs, returned));
    var prev := PreviousIndex(cells, returned);
    prev != IndexNotFound && cells[prev].int1 == FreeCode
  }

  /** The last node of the free list lies outside every live run. */
  lemma NodeOutsideLiveRun(cells: seq<Cell>, head: int, runs: seq<int>, chain: seq<int>, live: map<int, int>, returned: int, i: int)
    requires Inv(cells, head, runs, chain, live) && returned in live && 0 <= i < |chain|
    ensures ChainAt(cells, runs, chain, i) && HasRecords(cells, returned) && chain[i] != returned
    ensures EndOf(cells, chain[i]) <= returned || EndOf(cells, returned) <= chain[i]
  {
    assert ChainAt(cells, runs, chain, i);
    RunOutsideRange(cells, runs, IndexIn(runs, returned), IndexIn(runs, returned), IndexIn(runs, chain[i]));
  }

  /** Deallocate of the live run at `returned`, with `length` the count it
      records for the freed run: merge into a Free predecessor, or record the
      run as Free and link it after the last node of the free list (or make it
      the head when the list is empty). */
  ghost function ReleaseWith(cells: seq<Cell>, head: int, runs: seq<int>, chain: seq<int>, live: map<int, int>, returned: int, length: int): (r: (seq<Cell>, int))
    requires Inv(cells, head, runs, chain, live) && returned in live
    requires 0 <= length <= cells[returned].int0
    ensures |r.0| == |cells|
    ensures r.1 == head || (head < 0 && r.1 == returned)
  {
    var j := IndexIn(runs, returned);
    PreviousIsNeighbour(cells, runs, j);
    var prev := PreviousIndex(cells, returned);
    if prev != IndexNotFound && cells[prev].int1 == FreeCode then
      (Merge(cells, prev, returned), head)
    else
      var freed := WithInfo(cells, returned, length, FreeCode, IndexNotFound);
      if head < 0 then (freed, returned)
      else
        var last := chain[|chain| - 1];
        NodeOutsideLiveRun(cells, head, runs, chain, live, returned, |chain| - 1);
        KeepsRecords(cells, freed, last, returned, EndOf(cells, returned));
        (WithInfo(freed, last, freed[last].int0, FreeCode, returned), head)
  }

  /** Deallocate as the source writes it: the freed run is recorded with the
      block's length, which is less than the run's count when Allocate did not
      split the run. */
  ghost function ReleaseAsWritten(cells: seq<Cell>, head: int, runs: seq<int>, chain: seq<int>, live: map<int, int>, returned: int): (r: (seq<Cell>, int))
    requires Inv(cells, head, runs, chain, live) && returned in live
    ensures |r.0| == |cells| && (r.1 == head || (head < 0 && r.1 == returned))
  {
    ReleaseWith(cells, head, runs, chain, live, returned, live[returned])
  }

  /** Deallocate recording the run's own count, so the whole run is freed. */
  ghost function Release(cells: seq<Cell>, head: int, runs: seq<int>, chain: seq<int>, live: map<int, int>, returned: int): (r: (seq<Cell>, int))
    requires Inv(cells, head, runs, chain, live) && returned in live
    ensures |r.0| == |cells| && (r.1 == head || (head < 0 && r.1 == returned))
  {
    ReleaseWith(cells, head, runs, chain, live, returned, cells[returned].int0)
  }

  ghost function RunsAfterRelease(cells: seq<Cell>, runs: seq<int>, returned: int): seq<int>
    requires Tiles(cells, runs) && returned in runs
  {
    if MergesBackward(cells, runs, returned) then
      var j := IndexIn(runs, returned);
      runs[..j] + runs[j + 1..]
    else runs
  }

  ghost function ChainAfterRelease(cells: seq<Cell>, runs: seq<int>, chain: seq<int>, returned: int): seq<int>
    requires Tiles(cells, runs) && returned in runs
  {
    if MergesBackward(cells, runs, returned) then chain else chain + [returned]
  }

  /** Two different runs do not overlap. */
  lemma RunsApart(cells: seq<Cell>, runs: seq<int>, x: int, y: int)
    requires Tiles(cells, runs) && x in runs && y in runs && x != y
    ensures HasRecords(cells, x) && HasRecords(cells, y)
    ensures EndOf(cells, x) <= y || EndOf(cells, y) <= x
  {
    var jx := IndexIn(runs, x);
    RunOutsideRange(cells, runs, IndexIn(runs, y), IndexIn(runs, y), jx);
  }

  /** Merging run j into run j - 1: one run from the start of j - 1 to the end
      of j, whose count is both counts plus the two records the merge frees;
      the first run's kind and next link are kept. */
  lemma MergeShape(cells: seq<Cell>, runs: seq<int>, j: int)
    requires Tiles(cells, runs) && 0 < j < |runs|
    ensures RunAt(cells, runs, j - 1) && RunAt(cells, runs, j)
    ensures var cells' := Merge(cells, runs[j - 1], runs[j]);
      && SameOutside(cells, cells', runs[j - 1], EndOf(cells, runs[j]))
      && HasRecords(cells', runs[j - 1])
      && InfoAt(cells', runs[j - 1]) == Info(cells[runs[j - 1]].int0 + cells[runs[j]].int0 + RequireMemoryInfoCount,
                                             cells[runs[j - 1]].int1, InfoAt(cells, runs[j - 1]).nextIndex)
      && EndOf(cells', runs[j - 1]) == EndOf(cells, runs[j])
      && cells'[TailOf(cells', runs[j - 1])].int0 == cells'[runs[j - 1]].int0 + RequireMemoryInfoCount
  {
    assert RunAt(cells, runs, j - 1) && RunAt(cells, runs, j);
  }

  ghost function RemoveAt(runs: seq<int>, j: int): seq<int>
    requires 0 <= j < |runs|
  {
    runs[..j] + runs[j + 1..]
  }

  /** A run other than the two merged ones keeps its records and stays a run. */
  lemma MergeKeepsOtherRun(cells: seq<Cell>, runs: seq<int>, j: int, x: int)
    requires Tiles(cells, runs) && 0 < j < |runs| && x in runs && x != runs[j - 1] && x != runs[j]
    ensures RunAt(cells, runs, j - 1) && RunAt(cells, runs, j)
    ensures var cells' := Merge(cells, runs[j - 1], runs[j]);
      && x in RemoveAt(runs, j)
      && HasRecords(cells, x) && HasRecords(cells', x) && cells'[x] == cells[x] && InfoAt(cells', x) == InfoAt(cells, x)
      && EndOf(cells', x) == EndOf(cells, x) && cells'[TailOf(cells', x)] == cells[TailOf(cells, x)]
  {
    MergeShape(cells, runs, j);
    var jx := IndexIn(runs, x);
    RunOutsideRange(cells, runs, j - 1, j, jx);
    KeepsRecords(cells, Merge(cells, runs[j - 1], runs[j]), x, runs[j - 1], EndOf(cells, runs[j]));
    if jx < j {
      assert RemoveAt(runs, j)[jx] == x;
    } else {
      assert RemoveAt(runs, j)[jx - 1] == x;
    }
  }

  lemma MergeKeepsTiles(cells: seq<Cell>, runs: seq<int>, j: int)
    requires Tiles(cells, runs) && 0 < j < |runs|
    ensures RunAt(cells, runs, j - 1) && RunAt(cells, runs, j)
    ensures Tiles(Merge(cells, runs[j - 1], runs[j]), RemoveAt(runs, j))
  {
    MergeShape(cells, runs, j);
    var cells' := Merge(cells, runs[j - 1], runs[j]);
    var runs' := RemoveAt(runs, j);
    forall k | 0 <= k < |runs'|
      ensures RunAt(cells', runs', k)
    {
      if k < j - 1 {
        assert runs'[k] == runs[k] && runs'[k + 1] == runs[k + 1] && RunAt(cells, runs, k);
        RunsIncrease(cells, runs, k, j - 1);
        MergeKeepsOtherRun(cells, runs, j, runs[k]);
      } else if k == j - 1 {
        assert runs'[k] == runs[j - 1];
        assert k + 1 < |runs'| ==> runs'[k + 1] == runs[j + 1];
      } else {
        assert runs'[k] == runs[k + 1] && RunAt(cells, runs, k + 1);
        assert k + 1 < |runs'| ==> runs'[k + 1] == runs[k + 2];
        RunsIncrease(cells, runs, j, k + 1);
        MergeKeepsOtherRun(cells, runs, j, runs[k + 1]);
      }
    }
    assert runs'[0] == runs[0];
  }

  lemma ReleaseMergeKeepsInv(cells: seq<Cell>, head: int, runs: seq<int>, chain: seq<int>, live: map<int, int>, returned: int, length: int)
    requires Inv(cells, head, runs, chain, live) && returned in live && 0 <= length <= cells[returned].int0
    requires MergesBackward(cells, runs, returned)
    ensures var (cells', head') := ReleaseWith(cells, head, runs, chain, live, returned, length);
      Inv(cells', head', RunsAfterRelease(cells, runs, returned), chain, live - {returned})
  {
    var j := IndexIn(runs, returned);
    PreviousIsNeighbour(cells, runs, j);
    var prev := runs[j - 1];
    var (cells', head') := ReleaseWith(cells, head, runs, chain, live, returned, length);
    assert cells' == Merge(cells, prev, returned) && head' == head;
    var runs' := RemoveAt(runs, j);
    assert runs' == RunsAfterRelease(cells, runs, returned);
    MergeShape(cells, runs, j);
    MergeKeepsTiles(cells, runs, j);
    assert prev in runs' by { assert runs'[j - 1] == prev; }
    forall k | 0 <= k < |chain|
      ensures ChainAt(cells', runs', chain, k)
    {
      assert ChainAt(cells, runs, chain, k);
      if chain[k] != prev {
        MergeKeepsOtherRun(cells, runs, j, chain[k]);
      }
    }
    forall x | x in live && x != returned
      ensures x in runs' && HasRecords(cells', x) && live[x] <= cells'[x].int0
    {
      if x != prev {
        MergeKeepsOtherRun(cells, runs, j, x);
      }
    }
  }

  /** The tiling only depends on the counts. */
  lemma TilesFromCounts(cells: seq<Cell>, cells': seq<Cell>, runs: seq<int>)
    requires Tiles(cells, runs) && |cells'| == |cells|
    requires forall p :: 0 <= p < |cells| ==> cells'[p].int0 == cells[p].int0
    ensures Tiles(cells', runs)
  {
    forall k | 0 <= k < |runs|
      ensures RunAt(cells', runs, k)
    {
      assert RunAt(cells, runs, k);
    }
  }

  /** Rewriting the records of run x with its own count and a new kind and
      link changes no count and nothing outside the run. */
  lemma RelabelShape(cells: seq<Cell>, runs: seq<int>, x: int, t: int, next: int)
    requires Tiles(cells, runs) && x in runs
    ensures HasRecords(cells, x)
    ensures var cells' := WithInfo(cells, x, cells[x].int0, t, next);
      && SameOutside(cells, cells', x, EndOf(cells, x))
      && (forall p :: 0 <= p < |cells| ==> cells'[p].int0 == cells[p].int0)
      && Tiles(cells', runs)
      && HasRecords(cells', x) && InfoAt(cells', x) == Info(cells[x].int0, t, next)
  {
    assert RunAt(cells, runs, IndexIn(runs, x));
    TilesFromCounts(cells, WithInfo(cells, x, cells[x].int0, t, next), runs);
  }

  /** A run other than x keeps its records when x is relabelled. */
  lemma RelabelKeepsOtherRun(cells: seq<Cell>, runs: seq<int>, x: int, t: int, next: int, y: int)
    requires Tiles(cells, runs) && x in runs && y in runs && x != y
    ensures HasRecords(cells, x) && HasRecords(cells, y)
    ensures var cells' := WithInfo(cells, x, cells[x].int0, t, next);
      HasRecords(cells', y) && cells'[y] == cells[y] && InfoAt(cells', y) == InfoAt(cells, y)
  {
    RelabelShape(cells, runs, x, t, next);
    RunsApart(cells, runs, x, y);
    KeepsRecords(cells, WithInfo(cells, x, cells[x].int0, t, next), y, x, EndOf(cells, x));
  }

  lemma ReleaseAppendKeepsInv(cells: seq<Cell>, head: int, runs: seq<int>, chain: seq<int>, live: map<int, int>, returned: int)
    requires Inv(cells, head, runs, chain, live) && returned in live
    requires !MergesBackward(cells, runs, returned)
    ensures var (cells', head') := Release(cells, head, runs, chain, live, returned);
      Inv(cells', head', runs, chain + [returned], live - {returned})
  {
    var (cells', head') := Release(cells, head, runs, chain, live, returned);
    if head < 0 {
      StartListKeepsInv(cells, head, runs, chain, live, returned, cells', head');
    } else {
      LinkLastKeepsInv(cells, head, runs, chain, live, returned, cells', head');
    }
  }

  /** Release onto an empty free list: the relabelled run is the whole list. */
  lemma StartListKeepsInv(cells: seq<Cell>, head: int, runs: seq<int>, chain: seq<int>, live: map<int, int>, returned: int,
                          cells': seq<Cell>, head': int)
    requires Inv(cells, head, runs, chain, live) && returned in live && head < 0
    requires !MergesBackward(cells, runs, returned)
    requires (cells', head') == Release(cells, head, runs, chain, live, returned)
    ensures Inv(cells', head', runs, chain + [returned], live - {returned})
  {
    FreeListHasRecords(cells, head, runs, chain);
    ReleaseCases(cells, head, runs, chain, live, returned);
    var chain' := chain + [returned];
    assert chain' == [returned];
    RelabelShape(cells, runs, returned, FreeCode, IndexNotFound);
    assert cells' == WithInfo(cells, returned, cells[returned].int0, FreeCode, IndexNotFound) && head' == returned;
    assert ChainAt(cells', runs, chain', 0);
    forall x | x in live && x != returned
      ensures HasRecords(cells', x) && cells'[x].int0 == cells[x].int0 && x !in chain'
    {
      RelabelKeepsOtherRun(cells, runs, returned, FreeCode, IndexNotFound, x);
    }
  }

  /** Release onto a non-empty free list: the run, already marked Free, is
      linked after the last node. */
  lemma LinkLastKeepsInv(cells: seq<Cell>, head: int, runs: seq<int>, chain: seq<int>, live: map<int, int>, returned: int,
                         cells': seq<Cell>, head': int)
    requires Inv(cells, head, runs, chain, live) && returned in live && head >= 0
    requires !MergesBackward(cells, runs, returned)
    requires (cells', head') == Release(cells, head, runs, chain, live, returned)
    ensures Inv(cells', head', runs, chain + [returned], live - {returned})
  {
    var freed := WithInfo(cells, returned, cells[returned].int0, FreeCode, IndexNotFound);
    FreeListHasRecords(cells, head, runs, chain);
    ReleaseCases(cells, head, runs, chain, live, returned);
    RelabelLiveKeepsInv(cells, head, runs, chain, live, returned);
    RelabelShape(cells, runs, returned, FreeCode, IndexNotFound);
    LinkAfterLastKeepsInv(freed, head, runs, chain, live, returned);
  }

  /** Pointing the last node of the free list at a live run already tagged
      Free with an empty link makes that run the new last node. */
  lemma LinkAfterLastKeepsInv(cells: seq<Cell>, head: int, runs: seq<int>, chain: seq<int>, live: map<int, int>, returned: int)
    requires Inv(cells, head, runs, chain, live) && returned in live && chain != []
    requires cells[returned].int1 == FreeCode && InfoAt(cells, returned).nextIndex == IndexNotFound
    ensures var last := chain[|chain| - 1];
      && ChainAt(cells, runs, chain, |chain| - 1)
      && Inv(WithInfo(cells, last, cells[last].int0, FreeCode, returned), head, runs, chain + [returned], live - {returned})
  {
    var chain' := chain + [returned];
    var last := chain[|chain| - 1];
    assert ChainAt(cells, runs, chain, |chain| - 1);
    var cells' := WithInfo(cells, last, cells[last].int0, FreeCode, returned);
    RelabelShape(cells, runs, last, FreeCode, returned);
    NodeOutsideLiveRun(cells, head, runs, chain, live, returned, |chain| - 1);
    RelabelKeepsOtherRun(cells, runs, last, FreeCode, returned, returned);
    forall k | 0 <= k < |chain'|
      ensures ChainAt(cells', runs, chain', k)
    {
      if k < |chain| - 1 {
        assert ChainAt(cells, runs, chain, k);
        RelabelKeepsOtherRun(cells, runs, last, FreeCode, returned, chain[k]);
      }
    }
    forall x | x in live && x != returned
      ensures HasRecords(cells', x) && cells'[x].int0 == cells[x].int0 && x !in chain'
    {
      RelabelKeepsOtherRun(cells, runs, last, FreeCode, returned, x);
    }
  }

  /** Deallocate keeps the invariant: either the run joins its Free
      predecessor (and is no longer a run of its own) or it becomes the last
      node of the free list. */
  lemma ReleaseKeepsInv(cells: seq<Cell>, head: int, runs: seq<int>, chain: seq<int>, live: map<int, int>, returned: int)
    requires Inv(cells, head, runs, chain, live) && returned in live
    ensures var (cells', head') := Release(cells, head, runs, chain, live, returned);
      Inv(cells', head', RunsAfterRelease(cells, runs, returned), ChainAfterRelease(cells, runs, chain, returned), live - {returned})
  {
    if MergesBackward(cells, runs, returned) {
      ReleaseMergeKeepsInv(cells, head, runs, chain, live, returned, cells[returned].int0);
    } else {
      ReleaseAppendKeepsInv(cells, head, runs, chain, live, returned);
    }
  }

  /** The three outcomes of Release, one per branch of Deallocate. */
  lemma ReleaseCases(cells: seq<Cell>, head: int, runs: seq<int>, chain: seq<int>, live: map<int, int>, returned: int)
    requires Inv(cells, head, runs, chain, live) && returned in live
    ensures HasRecords(cells, returned) && returned <= |cells|
    ensures var prev := PreviousIndex(cells, returned);
      && (prev != IndexNotFound ==> HasRecords(cells, prev) && returned == EndOf(cells, prev))
      && (MergesBackward(cells, runs, returned) <==> prev != IndexNotFound && cells[prev].int1 == FreeCode)
      && (MergesBackward(cells, runs, returned) ==>
            Release(cells, head, runs, chain, live, returned) == (Merge(cells, prev, returned), head))
    ensures var freed := WithInfo(cells, returned, cells[returned].int0, FreeCode, IndexNotFound);
      && (!MergesBackward(cells, runs, returned) && chain == [] ==>
            Release(cells, head, runs, chain, live, returned) == (freed, returned))
      && (!MergesBackward(cells, runs, returned) && chain != [] ==>
            var last := chain[|chain| - 1];
            && ChainAt(cells, runs, chain, |chain| - 1)
            && HasRecords(freed, last) && freed[last] == cells[last]
            && Release(cells, head, runs, chain, live, returned) == (WithInfo(freed, last, cells[last].int0, FreeCode, returned), head))
  {
    var j := IndexIn(runs, returned);
    PreviousIsNeighbour(cells, runs, j);
    FreeListHasRecords(cells, head, runs, chain);
    if chain != [] {
      NodeOutsideLiveRun(cells, head, runs, chain, live, returned, |chain| - 1);
      KeepsRecords(cells, WithInfo(cells, returned, cells[returned].int0, FreeCode, IndexNotFound), chain[|chain| - 1], returned, EndOf(cells, returned));
    }
  }

  /** Marking a live run Free with an empty link, before it is put on the free
      list, keeps the invariant with the same list and live blocks. */
  lemma RelabelLiveKeepsInv(cells: seq<Cell>, head: int, runs: seq<int>, chain: seq<int>, live: map<int, int>, returned: int)
    requires Inv(cells, head, runs, chain, live) && returned in live
    ensures Inv(WithInfo(cells, returned, cells[returned].int0, FreeCode, IndexNotFound), head, runs, chain, live)
  {
    var cells' := WithInfo(cells, returned, cells[returned].int0, FreeCode, IndexNotFound);
    RelabelShape(cells, runs, returned, FreeCode, IndexNotFound);
    forall k | 0 <= k < |chain|
      ensures ChainAt(cells', runs, chain, k)
    {
      assert ChainAt(cells, runs, chain, k);
      RelabelKeepsOtherRun(cells, runs, returned, FreeCode, IndexNotFound, chain[k]);
    }
    forall x | x in live && x != returned
      ensures HasRecords(cells', x) && cells'[x].int0 == cells[x].int0
    {
      RelabelKeepsOtherRun(cells, runs, returned, FreeCode, IndexNotFound, x);
    }
  }

  /** Every node of the free list has its records inside the pool. */
  lemma FreeListHasRecords(cells: seq<Cell>, head: int, runs: seq<int>, chain: seq<int>)
    requires FreeList(cells, head, runs, chain)
    ensures NodesHaveRecords(cells, chain) && NodesAreRuns(runs, chain)
    ensures head < 0 <==> chain == []
  {
    forall k | 0 <= k < |chain|
      ensures HasRecords(cells, chain[k]) && chain[k] in runs
    {
      assert ChainAt(cells, runs, chain, k);
    }
  }

  /** The cells a live block may use, [x + 1, x + 1 + live[x]), lie inside the
      pool and before the end of its run. */
  lemma LiveWindowInPool(cells: seq<Cell>, head: int, runs: seq<int>, chain: seq<int>, live: map<int, int>, x: int)
    requires Inv(cells, head, runs, chain, live) && x in live
    ensures 0 < x + HeadMemoryInfoCount && x + HeadMemoryInfoCount + live[x] < |cells|
    ensures x + HeadMemoryInfoCount + live[x] < EndOf(cells, x)
  {
  }

  /** Two live blocks never share a cell, nor does either reach the other's
      records: one window ends before the other run begins. */
  lemma LiveWindowsApart(cells: seq<Cell>, head: int, runs: seq<int>, chain: seq<int>, live: map<int, int>, x: int, y: int)
    requires Inv(cells, head, runs, chain, live) && x in live && y in live && x != y
    ensures x + HeadMemoryInfoCount + live[x] <= y || y + HeadMemoryInfoCount + live[y] <= x
  {
    RunsApart(cells, runs, x, y);
  }

  /** A live block shares no cell with a run on the free list. */
  lemma LiveWindowOffFreeList(cells: seq<Cell>, head: int, runs: seq<int>, chain: seq<int>, live: map<int, int>, x: int, k: int)
    requires Inv(cells, head, runs, chain, live) && x in live && 0 <= k < |chain|
    ensures HasRecords(cells, chain[k])
    ensures x + HeadMemoryInfoCount + live[x] <= chain[k] || EndOf(cells, chain[k]) <= x
  {
    NodeOutsideLiveRun(cells, head, runs, chain, live, x, k);
  }

  // ---------------------------------------------------------------------------
  // Scenarios on concrete pools.
  // ---------------------------------------------------------------------------

  /** A pool of n cells as Initialize leaves it, with every other cell zero. */
  function FreshPool(n: int): (cells: seq<Cell>)
    requires n >= RequireMinimumPoolCount
    ensures InitialLayout(cells) && |cells| == n
  {
    seq(n, i => if i == 0 then Cell(n - RequireMemoryInfoCount, FreeCode)
                else if i == n - 1 then Cell(n, IndexNotFound)
                else Cell(0, 0))
  }

  /** In an 8-cell pool (64 bytes) a 32-byte request takes 4 cells of the
      6-cell run without splitting it. Deallocate as written then records a
      4-cell Free run: the run no longer reaches the old tail, and a 6-cell
      request fails although the whole pool is free again. Recording the run's
      own count restores the fresh pool. */
  lemma ShortReleaseLosesCells()
    ensures var cells := FreshPool(8);
      && ByteSizeToElementCount(32) == 4
      && Inv(cells, 0, [0], [0], map[])
      && FirstFit(cells, [0], 4) == 0
      && Divide(cells, 0, 4, AllocationType.Heap.Code()) == (cells, IndexNotFound)
      && ChainAfterDivide(cells, [0], 0, 4) == []
      && Inv(cells, IndexNotFound, [0], [], map[0 := 4])
      && var (asWritten, head1) := ReleaseAsWritten(cells, IndexNotFound, [0], [], map[0 := 4], 0);
         var (corrected, head2) := Release(cells, IndexNotFound, [0], [], map[0 := 4], 0);
         && head1 == 0 && head2 == 0
         && !Tiles(asWritten, [0])
         && NodesHaveRecords(asWritten, [0]) && FirstFit(asWritten, [0], 6) == IndexNotFound
         && corrected == cells && FirstFit(corrected, [0], 6) == 0
  {
    var cells := FreshPool(8);
    InitialInv(cells);
    DivideKeepsInv(cells, 0, [0], [0], map[], 0, 4, AllocationType.Heap.Code());
    assert RunsAfterDivide(cells, [0], 0, 4) == [0];
    PreviousIsNeighbour(cells, [0], 0);
    var asWritten := WithInfo(cells, 0, 4, FreeCode, IndexNotFound);
    assert ReleaseAsWritten(cells, IndexNotFound, [0], [], map[0 := 4], 0) == (asWritten, 0);
    assert !RunAt(asWritten, [0], 0);
    assert WithInfo(cells, 0, 6, FreeCode, IndexNotFound) == cells;
  }

  /** A 64-cell pool: taking 3 cells splits off a 57-cell remainder at index 5,
      which becomes the head. Freeing the 3 cells appends them after the
      remainder (list 5, 0) without merging the two, so a 62-cell request, which
      the fresh pool could serve, fails. */
  lemma NoForwardMerge()
    ensures var cells := FreshPool(64);
      && Inv(cells, 0, [0], [0], map[])
      && FirstFit(cells, [0], 62) == 0
      && var (cells1, head1) := Divide(cells, 0, 3, AllocationType.Heap.Code());
         && head1 == 5
         && RunsAfterDivide(cells, [0], 0, 3) == [0, 5]
         && ChainAfterDivide(cells, [0], 0, 3) == [5]
         && Inv(cells1, 5, [0, 5], [5], map[0 := 3])
         && !MergesBackward(cells1, [0, 5], 0)
         && var (cells2, head2) := Release(cells1, 5, [0, 5], [5], map[0 := 3], 0);
            && head2 == 5
            && Inv(cells2, 5, [0, 5], [5, 0], map[])
            && InfoAt(cells2, 5) == Info(57, FreeCode, 0)
            && InfoAt(cells2, 0) == Info(3, FreeCode, IndexNotFound)
            && FirstFit(cells2, [5, 0], 62) == IndexNotFound
  {
    var cells := FreshPool(64);
    InitialInv(cells);
    DivideKeepsInv(cells, 0, [0], [0], map[], 0, 3, AllocationType.Heap.Code());
    DivideShape(cells, 0, 3, AllocationType.Heap.Code());
    assert RunsAfterDivide(cells, [0], 0, 3) == [0, 5];
    var (cells1, head1) := Divide(cells, 0, 3, AllocationType.Heap.Code());
    PreviousIsNeighbour(cells1, [0, 5], 0);
    ReleaseKeepsInv(cells1, 5, [0, 5], [5], map[0 := 3], 0);
    assert map[0 := 3] - {0} == map[];
  }
}
