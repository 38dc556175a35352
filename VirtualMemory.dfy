/** SrVirtualMemory as its test pins it down: four segments (program, global,
    heap, stack), each a MemoryBlock window, addressed by one virtual address
    whose bits 20 and up select the segment and whose low 20 bits index into
    it. The class's own source is not part of this model; the decoding below
    is an assumption that agrees with the four addresses of the test. */
module VirtualMemory {
  import opened Wrappers
  import opened MemoryBlocks
  import opened SrValues

  const SegmentShift := 0x10_0000
  const SegmentCount := 4

  /** A virtual address whose selector names one of the four segments. */
  predicate IsAddress(address: int) {
    0 <= address < SegmentCount * SegmentShift
  }

  function Selector(address: int): int {
    address / SegmentShift
  }

  function OffsetOf(address: int): int {
    address % SegmentShift
  }

  function AddressOf(selector: int, offset: int): int {
    selector * SegmentShift + offset
  }

  /** Decoding inverts encoding, so distinct (segment, offset) pairs have
      distinct addresses and every address decodes to exactly one pair. */
  lemma DecodeEncode(selector: int, offset: int)
    requires 0 <= selector < SegmentCount && 0 <= offset < SegmentShift
    ensures IsAddress(AddressOf(selector, offset))
    ensures Selector(AddressOf(selector, offset)) == selector && OffsetOf(AddressOf(selector, offset)) == offset
  {
  }

  lemma EncodeDecode(address: int)
    requires IsAddress(address)
    ensures 0 <= Selector(address) < SegmentCount && 0 <= OffsetOf(address) < SegmentShift
    ensures AddressOf(Selector(address), OffsetOf(address)) == address
  {
  }

  class SrVirtualMemory {
    const program: MemoryBlock<SrValue>
    const global: MemoryBlock<SrValue>
    const heap: MemoryBlock<SrValue>
    const stack: MemoryBlock<SrValue>

    ghost predicate Valid() {
      program.Valid() && global.Valid() && heap.Valid() && stack.Valid()
    }

    constructor (program: MemoryBlock<SrValue>, global: MemoryBlock<SrValue>, heap: MemoryBlock<SrValue>, stack: MemoryBlock<SrValue>)
      requires program.Valid() && global.Valid() && heap.Valid() && stack.Valid()
      ensures Valid()
      ensures this.program == program && this.global == global && this.heap == heap && this.stack == stack
    {
      this.program := program;
      this.global := global;
      this.heap := heap;
      this.stack := stack;
    }

    /** The segment a selector names, in constructor order. */
    function Segment(selector: int): (b: MemoryBlock<SrValue>)
      requires 0 <= selector < SegmentCount
      ensures selector == 0 ==> b == program
      ensures selector == 1 ==> b == global
      ensures selector == 2 ==> b == heap
      ensures selector == 3 ==> b == stack
    {
      if selector == 0 then program
      else if selector == 1 then global
      else if selector == 2 then heap
      else stack
    }

    /** Reading `this[address]`: the segment's checked indexer. */
    function Get(address: int): (r: Result<SrValue>)
      requires Valid() && IsAddress(address)
      reads Segment(Selector(address)).pool
      ensures r.Success? <==> OffsetOf(address) < Segment(Selector(address)).length
      ensures r.Success? ==> r.value == Segment(Selector(address)).pool[Segment(Selector(address)).offset + OffsetOf(address)]
    {
      Read(Segment(Selector(address)), OffsetOf(address))
    }

    /** Writing `this[address] = v` through the segment's checked indexer: the
        write lands in the segment's pool at its offset plus the address's low
        bits, and nowhere else. */
    method Set(address: int, v: SrValue) returns (r: Outcome)
      requires Valid() && IsAddress(address)
      modifies Segment(Selector(address)).pool
      ensures var b := Segment(Selector(address));
        && (r == Pass <==> OffsetOf(address) < b.length)
        && (r == Pass ==> b.pool[..] == old(b.pool[..])[b.offset + OffsetOf(address) := v])
        && (r != Pass ==> r == Fail(ArgumentOutOfRange) && b.pool[..] == old(b.pool[..]))
    {
      r := Write(Segment(Selector(address)), OffsetOf(address), v);
    }
  }

  /** VirtualAddressAccessTest: four 10-cell windows over one 40-cell array;
      an int written at each virtual address is read back as an int through
      the segment's window and through the raw array. Returns the raw array
      and, per address, the value read through the window. */
  method VirtualAddressAccessTest() returns (rawMemory: array<SrValue>, throughBlocks: seq<int>)
    ensures rawMemory.Length == 40
    ensures ToInt(rawMemory[0x04]) == 123456
    ensures ToInt(rawMemory[0x0F]) == 654321
    ensures ToInt(rawMemory[0x1D]) == 112233
    ensures ToInt(rawMemory[0x22]) == 445566
    ensures throughBlocks == [123456, 654321, 112233, 445566]
  {
    rawMemory := new SrValue[40](_ => Default);
    var programMemory := MemoryBlock(rawMemory, 0, 10);
    var globalMemory := MemoryBlock(rawMemory, 10, 10);
    var heapMemory := MemoryBlock(rawMemory, 20, 10);
    var stackMemory := MemoryBlock(rawMemory, 30, 10);
    var virtualMemory := new SrVirtualMemory(programMemory, globalMemory, heapMemory, stackMemory);

    var r := virtualMemory.Set(0x0000_0004, FromInt(123456));
    assert r == Pass;
    var a := Read(programMemory, 0x04);
    assert ToInt(rawMemory[0x04]) == 123456 && ToInt(a.value) == 123456;

    r := virtualMemory.Set(0x0010_0005, FromInt(654321));
    assert r == Pass;
    var b := Read(globalMemory, 0x05);
    assert ToInt(rawMemory[0x0F]) == 654321 && ToInt(b.value) == 654321;

    r := virtualMemory.Set(0x0020_0009, FromInt(112233));
    assert r == Pass;
    var c := Read(heapMemory, 0x09);
    assert ToInt(rawMemory[0x1D]) == 112233 && ToInt(c.value) == 112233;

    r := virtualMemory.Set(0x0030_0004, FromInt(445566));
    assert r == Pass;
    var d := Read(stackMemory, 0x04);
    assert ToInt(rawMemory[0x22]) == 445566 && ToInt(d.value) == 445566;

    throughBlocks := [ToInt(a.value), ToInt(b.value), ToInt(c.value), ToInt(d.value)];
  }
}
