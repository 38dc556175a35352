/** MemoryBlock: a non-owning window (pool, offset, length) over a shared
    array of cells. The C# type is a struct holding an array reference, so it
    is a datatype here; its Offset and Length have private setters that only
    the constructor uses, which a datatype's immutability captures. */
module MemoryBlocks {
  import opened Wrappers
  import opened AllocatorUtility

  datatype MemoryBlock<T> = MemoryBlock(pool: array<T>, offset: int, length: int) {
    /** What the constructor's checks guarantee about every block that exists. */
    predicate Valid() {
      0 <= offset && 0 <= length && offset + length <= pool.Length
    }
  }

  /** The constructor `MemoryBlock(values, start, length)`: a null pool, a
      negative start or length, or a window past the end of the pool throw;
      otherwise the pool is shared, not copied. */
  function NewMemoryBlock<T>(values: array?<T>, start: int32, length: int32): (r: Result<MemoryBlock<T>>)
    ensures values == null ==> r == Failure(ArgumentNull)
    ensures values != null ==>
      (r.Success? <==> 0 <= start && 0 <= length && start + length <= values.Length)
    ensures values != null && r.Failure? ==> r.error == ArgumentOutOfRange
    ensures r.Success? ==>
      r.value.Valid() && r.value.pool == values && r.value.offset == start && r.value.length == length
  {
    if values == null then Failure(ArgumentNull)
    else if start < 0 then Failure(ArgumentOutOfRange)
    else if length < 0 then Failure(ArgumentOutOfRange)
    else if values.Length - start < length then Failure(ArgumentOutOfRange)
    else Success(MemoryBlock(values, start, length))
  }

  /** The indexer `this[index]` of a checked (DEBUG) build: the pool position the
      returned reference designates, or the ArgumentOutOfRange it throws. */
  function CheckedIndex<T>(b: MemoryBlock<T>, index: int): (r: Result<int>)
    requires b.Valid()
    ensures r.Success? <==> 0 <= index < b.length
    ensures r.Success? ==> r.value == b.offset + index && 0 <= r.value < b.pool.Length
    ensures r.Failure? ==> r.error == ArgumentOutOfRange
  {
    if index < 0 || index >= b.length then Failure(ArgumentOutOfRange)
    else Success(b.offset + index)
  }

  /** The same indexer in a release build: no window check, only the array's
      own bounds check on `pool[Offset + index]`. */
  function UncheckedIndex<T>(b: MemoryBlock<T>, index: int): (r: Result<int>)
    requires b.Valid()
    ensures r.Success? <==> 0 <= b.offset + index < b.pool.Length
    ensures r.Success? ==> r.value == b.offset + index
    ensures r.Failure? ==> r.error == IndexOutOfRange
  {
    if 0 <= b.offset + index < b.pool.Length then Success(b.offset + index)
    else Failure(IndexOutOfRange)
  }

  /** Both builds designate the same cell wherever the checked build succeeds. */
  lemma CheckedAgreesWithUnchecked<T>(b: MemoryBlock<T>, index: int)
    requires b.Valid() && CheckedIndex(b, index).Success?
    ensures UncheckedIndex(b, index) == CheckedIndex(b, index)
  {
  }

  /** Without the check, index -1 of a window that does not start the pool
      reaches the cell just before it (for an allocator's block, the run's
      head record). */
  lemma UncheckedReachesBeforeTheWindow<T>(b: MemoryBlock<T>)
    requires b.Valid() && b.offset > 0
    ensures CheckedIndex(b, -1).Failure?
    ensures UncheckedIndex(b, -1) == Success(b.offset - 1)
  {
  }

  /** Reading `this[index]` in a checked build. */
  function Read<T>(b: MemoryBlock<T>, index: int): (r: Result<T>)
    requires b.Valid()
    reads b.pool
    ensures r.Success? <==> 0 <= index < b.length
    ensures r.Success? ==> r.value == b.pool[b.offset + index]
    ensures r.Failure? ==> r.error == ArgumentOutOfRange
  {
    match CheckedIndex(b, index)
    case Success(i) => Success(b.pool[i])
    case Failure(e) => Failure(e)
  }

  /** Assigning through the reference `this[index]` in a checked build: the
      write lands in the shared pool at Offset + index and nowhere else. */
  method Write<T>(b: MemoryBlock<T>, index: int, v: T) returns (r: Outcome)
    requires b.Valid()
    modifies b.pool
    ensures r == Pass <==> 0 <= index < b.length
    ensures r == Pass ==> b.pool[..] == old(b.pool[..])[b.offset + index := v]
    ensures r != Pass ==> r == Fail(ArgumentOutOfRange) && b.pool[..] == old(b.pool[..])
  {
    var i := CheckedIndex(b, index);
    if i.Failure? {
      return Fail(i.error);
    }
    b.pool[i.value] := v;
    r := Pass;
  }

  /** Two windows over one pool alias: a write through one is read back
      through any other window that covers the same cell. */
  lemma WindowsAlias<T>(b: MemoryBlock<T>, c: MemoryBlock<T>, i: int, j: int)
    requires b.Valid() && c.Valid() && b.pool == c.pool
    requires 0 <= i < b.length && 0 <= j < c.length && b.offset + i == c.offset + j
    ensures Read(b, i) == Read(c, j)
  {
  }
}
