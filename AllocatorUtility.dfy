/** MemoryAllocatorUtility and the argument checks shared by every
    MemoryAllocator: the byte-size/cell-count arithmetic on C# 32-bit ints. */
module AllocatorUtility {
  import opened Wrappers

  /** A C# `int`. */
  type int32 = x: int | -0x8000_0000 <= x < 0x8000_0000

  /** Unchecked C# narrowing of an unbounded result to 32 bits (two's complement). */
  function Wrap32(x: int): (r: int32)
    ensures (x - r) % 0x1_0000_0000 == 0
    ensures -0x8000_0000 <= x < 0x8000_0000 ==> r == x
  {
    var m := x % 0x1_0000_0000;
    if m < 0x8000_0000 then m else m - 0x1_0000_0000
  }

  /** The kind tag written into a run's head record. The enum's numeric values
      are not part of the model; any distinct codes would do, only `== Free` is
      ever compared. */
  datatype AllocationType = Free | Program | Global | Heap | Stack {
    function Code(): int {
      match this
      case Free => 0
      case Program => 1
      case Global => 2
      case Heap => 3
      case Stack => 4
    }
  }

  /** ByteSizeToElementCount exactly as written: `(size + ((8 - (size & 7)) & 7)) >> 3`
      in unchecked 32-bit arithmetic. `size & 7` is `size % 8` and `>> 3` is
      floor division by 8. */
  function ByteSizeToElementCountAsWritten(size: int32): (r: int32)
    ensures 0x7FFF_FFF8 < size ==> r == -0x1000_0000
  {
    Wrap32(size + (8 - size % 8) % 8) / 8
  }

  /** The element count the utility is meant to compute: the number of 8-byte
      cells that hold `size` bytes, computed without overflow. */
  function ByteSizeToElementCount(size: int32): (r: int32)
    ensures 8 * r >= size && 8 * (r - 1) < size
    ensures size > 0 ==> r > 0
  {
    (size + 7) / 8
  }

  /** For every size whose padded value still fits in an int, the expression as
      written computes the ceiling of size / 8. */
  lemma AsWrittenIsCeilingBelowOverflow(size: int32)
    requires size <= 0x7FFF_FFF8
    ensures ByteSizeToElementCountAsWritten(size) == ByteSizeToElementCount(size)
  {
    var pad := (8 - size % 8) % 8;
    assert 0 <= pad < 8 && (size + pad) % 8 == 0;
    assert size + pad < 0x8000_0000;
  }

  /** The padding addition overflows for the largest sizes: 0x7FFFFFFF bytes
      become a negative element count, which passes Allocate's `size <= 0` check. */
  lemma AsWrittenOverflowsNearIntMax()
    ensures ByteSizeToElementCountAsWritten(0x7FFF_FFFF) == -0x1000_0000
    ensures ByteSizeToElementCount(0x7FFF_FFFF) == 0x1000_0000
  {
    assert Wrap32(0x8000_0000) == -0x8000_0000;
  }

  /** ElementCountToByteSize: `count << 3` on a 32-bit int. */
  function ElementCountToByteSize(count: int32): (r: int32)
    ensures 0 <= count < 0x1000_0000 ==> r == 8 * count
  {
    Wrap32(count * 8)
  }

  /** Converting bytes to cells and back never loses a byte and adds less than
      one cell of padding, as long as the byte size of the cells fits in an int
      (for the top seven sizes it is 2^31, which wraps). */
  lemma CellsHoldTheBytes(size: int32)
    requires 0 <= size <= 0x7FFF_FFF8
    ensures size <= ElementCountToByteSize(ByteSizeToElementCount(size)) < size + 8
  {
  }

  /** ThrowExceptionIfRequestInvalidSizeOrType: the size is checked first, then
      the kind. */
  function CheckRequest(size: int32, kind: AllocationType): (r: Outcome)
    ensures r == Pass <==> size > 0 && kind != Free
    ensures size <= 0 ==> r == Fail(ArgumentOutOfRange)
    ensures size > 0 && kind == Free ==> r == Fail(InvalidArgument)
  {
    if size <= 0 then Fail(ArgumentOutOfRange)
    else if kind == Free then Fail(InvalidArgument)
    else Pass
  }

  /** Quotient and remainder are unique. */
  lemma DivModUnique(v: int, d: int, q: int, r: int)
    requires 0 < d && v == d * q + r && 0 <= r < d
    ensures v / d == q && v % d == r
  {
    var q', r' := v / d, v % d;
    assert d * (q' - q) == r - r';
    SmallMultipleIsZero(d, q' - q);
  }

  /** The only multiple of d strictly between -d and d is 0. */
  lemma SmallMultipleIsZero(d: int, k: int)
    requires 0 < d && -d < d * k < d
    ensures k == 0
  {
  }

  /** Reducing modulo a multiple of a before reducing modulo a changes nothing. */
  lemma ModOfMultipleMod(x: int, a: int, k: int)
    requires 0 < a && 0 < k
    ensures (x % (a * k)) % a == x % a
  {
    var q, r := x / (a * k), x % (a * k);
    assert x == a * (k * q + r / a) + r % a;
    DivModUnique(x, a, k * q + r / a, r % a);
  }
}
