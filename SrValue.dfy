/** SrValue: the runtime's value cell, a 64-bit primitive union beside an
    object reference. Every conversion into SrValue starts from the default
    value (all primitive bytes zero, no object) and sets one member; every
    conversion out reads one member. The union is modelled as the unsigned
    64-bit pattern of its eight bytes, with each narrower member overlaying the
    low-order bytes. */
module SrValues {
  import opened Wrappers
  import opened AllocatorUtility

  type int8 = x: int | -0x80 <= x < 0x80
  type uint8 = x: int | 0 <= x < 0x100
  type int16 = x: int | -0x8000 <= x < 0x8000
  type uint16 = x: int | 0 <= x < 0x1_0000
  type uint32 = x: int | 0 <= x < 0x1_0000_0000
  type int64 = x: int | -0x8000_0000_0000_0000 <= x < 0x8000_0000_0000_0000
  type uint64 = x: int | 0 <= x < 0x1_0000_0000_0000_0000

  /** A UTF-16 code unit (C# `char`). */
  type char16 = uint16

  /** What the `Object` member can refer to: nothing, a string, or any other
      object, known only by identity. */
  datatype HostObject = Null | Str(text: string) | Other(id: nat)

  /** An SrInstruction occupies the whole primitive; only its bit pattern is
      modelled. */
  datatype SrInstruction = SrInstruction(bits: uint64)

  datatype SrValue = SrValue(primitive: uint64, obj: HostObject)

  const Default := SrValue(0, Null)

  /** The signed value of a `bits`-wide two's complement pattern, given half
      the pattern range. */
  function Signed(pattern: int, half: int): (r: int)
    requires 0 < half && 0 <= pattern < 2 * half
    ensures -half <= r < half
    ensures pattern < half ==> r == pattern
    ensures half <= pattern ==> r < 0 && r + 2 * half == pattern
  {
    if pattern < half then pattern else pattern - 2 * half
  }

  // Conversions into SrValue: the default value with one member set.

  function FromSbyte(v: int8): (r: SrValue)
    ensures r.obj == Null && r.primitive < 0x100 && Signed(r.primitive, 0x80) == v
  {
    SrValue(v % 0x100, Null)
  }

  function FromByte(v: uint8): (r: SrValue)
    ensures ToByte(r) == v && ToUlong(r) == v && ToString(r) == None
  {
    SrValue(v, Null)
  }

  function FromShort(v: int16): (r: SrValue)
    ensures r.obj == Null && r.primitive < 0x1_0000 && Signed(r.primitive, 0x8000) == v
  {
    SrValue(v % 0x1_0000, Null)
  }

  function FromUshort(v: uint16): (r: SrValue)
    ensures ToUshort(r) == v && ToChar(r) == v && ToUlong(r) == v && ToString(r) == None
  {
    SrValue(v, Null)
  }

  function FromChar(v: char16): (r: SrValue)
    ensures ToChar(r) == v && ToUshort(r) == v && ToUlong(r) == v && ToString(r) == None
  {
    SrValue(v, Null)
  }

  function FromInt(v: int32): (r: SrValue)
    ensures r.obj == Null && r.primitive < 0x1_0000_0000 && Signed(r.primitive, 0x8000_0000) == v
  {
    SrValue(v % 0x1_0000_0000, Null)
  }

  function FromUint(v: uint32): (r: SrValue)
    ensures ToUint(r) == v && ToInt(r) == Signed(v, 0x8000_0000) && ToUlong(r) == v && ToString(r) == None
  {
    SrValue(v, Null)
  }

  function FromLong(v: int64): (r: SrValue)
    ensures r.obj == Null && Signed(r.primitive, 0x8000_0000_0000_0000) == v
  {
    SrValue(v % 0x1_0000_0000_0000_0000, Null)
  }

  function FromUlong(v: uint64): (r: SrValue)
    ensures ToUlong(r) == v && ToLong(r) == Signed(v, 0x8000_0000_0000_0000) && ToString(r) == None
  {
    SrValue(v, Null)
  }

  /** A string goes into the Object member; a null string leaves it null. */
  function FromString(s: Option<string>): (r: SrValue)
    ensures r.primitive == 0
    ensures s.Some? <==> r.obj.Str?
    ensures s.Some? ==> r.obj.text == s.value
  {
    match s
    case None => Default
    case Some(t) => SrValue(0, Str(t))
  }

  function FromInstruction(v: SrInstruction): (r: SrValue)
    ensures ToInstruction(r) == v && ToUlong(r) == v.bits && ToString(r) == None
  {
    SrValue(v.bits, Null)
  }

  // Conversions out of SrValue: one member of the union, read as stored.
  // Each view keeps exactly its width's low-order bits of the 64-bit
  // pattern, read as unsigned or as two's complement.

  function ToSbyte(x: SrValue): (r: int8)
    ensures (r - x.primitive) % 0x100 == 0
  {
    Signed(x.primitive % 0x100, 0x80)
  }

  function ToByte(x: SrValue): (r: uint8)
    ensures (r - x.primitive) % 0x100 == 0
  {
    x.primitive % 0x100
  }

  function ToShort(x: SrValue): (r: int16)
    ensures (r - x.primitive) % 0x1_0000 == 0
  {
    Signed(x.primitive % 0x1_0000, 0x8000)
  }

  function ToUshort(x: SrValue): (r: uint16)
    ensures (r - x.primitive) % 0x1_0000 == 0
  {
    x.primitive % 0x1_0000
  }

  function ToChar(x: SrValue): (r: char16)
    ensures (r - x.primitive) % 0x1_0000 == 0
  {
    x.primitive % 0x1_0000
  }

  function ToInt(x: SrValue): (r: int32)
    ensures (r - x.primitive) % 0x1_0000_0000 == 0
  {
    Signed(x.primitive % 0x1_0000_0000, 0x8000_0000)
  }

  function ToUint(x: SrValue): (r: uint32)
    ensures (r - x.primitive) % 0x1_0000_0000 == 0
  {
    x.primitive % 0x1_0000_0000
  }

  function ToLong(x: SrValue): (r: int64)
    ensures (r - x.primitive) % 0x1_0000_0000_0000_0000 == 0
  {
    Signed(x.primitive, 0x8000_0000_0000_0000)
  }

  function ToUlong(x: SrValue): (r: uint64)
    ensures (r - x.primitive) % 0x1_0000_0000_0000_0000 == 0
  {
    x.primitive
  }

  /** `Object as string`: the string, or null for anything else. */
  function ToString(x: SrValue): (r: Option<string>)
    ensures r.Some? <==> x.obj.Str?
    ensures r.Some? ==> r.value == x.obj.text
  {
    match x.obj
    case Str(t) => Some(t)
    case _ => None
  }

  function ToInstruction(x: SrValue): (r: SrInstruction)
    ensures r.bits == ToUlong(x)
  {
    SrInstruction(x.primitive)
  }

  /** Every member reads back what was stored into it. */
  lemma {:induction false} RoundTrips(a: int8, b: uint8, c: int16, d: uint16, e: char16, f: int32, g: uint32, h: int64, i: uint64, s: string, t: SrInstruction)
    ensures ToSbyte(FromSbyte(a)) == a && ToByte(FromByte(b)) == b
    ensures ToShort(FromShort(c)) == c && ToUshort(FromUshort(d)) == d && ToChar(FromChar(e)) == e
    ensures ToInt(FromInt(f)) == f && ToUint(FromUint(g)) == g
    ensures ToLong(FromLong(h)) == h && ToUlong(FromUlong(i)) == i
    ensures ToString(FromString(Some(s))) == Some(s) && ToInstruction(FromInstruction(t)) == t
  {
  }

  /** Reading a narrower member than was stored keeps the low-order bytes: the
      int view of a long is the long wrapped to 32 bits, the sbyte view of an
      int is its low byte as a signed value. */
  lemma NarrowerViewsTruncate(v: int64, w: int32)
    ensures ToInt(FromLong(v)) == Wrap32(v)
    ensures ToSbyte(FromInt(w)) == Signed(w % 0x100, 0x80)
    ensures ToUshort(FromInt(w)) == w % 0x1_0000
  {
    ModOfMultipleMod(v, 0x1_0000_0000, 0x1_0000_0000);
    ModOfMultipleMod(w, 0x100, 0x100_0000);
    ModOfMultipleMod(w, 0x1_0000, 0x1_0000);
  }

  /** Reading a wider member than was stored zero-extends, because the store
      starts from the all-zero default: a negative sbyte or int reads back as
      a positive int or long. */
  lemma WiderViewsZeroExtend(a: int8, f: int32)
    ensures ToInt(FromSbyte(a)) == a % 0x100
    ensures ToLong(FromInt(f)) == f % 0x1_0000_0000
    ensures a < 0 ==> ToInt(FromSbyte(a)) != a
    ensures f < 0 ==> ToLong(FromInt(f)) != f
  {
  }

  /** Storing a primitive drops any object and storing a string clears the
      primitive: the two members never hold data at once. */
  lemma MembersExclusive(f: int32, s: string)
    ensures ToString(FromInt(f)) == None
    ensures ToUlong(FromString(Some(s))) == 0
  {
  }
}
