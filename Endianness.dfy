/** StreamEndiannessControl and its LittleEndianControl / BigEndianControl
    subclasses, integer and string-frame paths: values are packed byte by byte
    into a shared buffer, reversed in place where the host order requires it,
    and moved to or from a stream. The stream is modelled as the bytes still
    to be read and the bytes written so far; the host's
    BitConverter.IsLittleEndian is a parameter. */
module Endianness {
  import opened Wrappers
  import opened AllocatorUtility
  import opened SrValues

  type byte = uint8

  const IOBufferSize: int := 4096
  const CharBufferSize: int := 2048

  /** The byte order a control writes and reads on the stream. */
  datatype ByteOrder = LittleEndian | BigEndian

  function Pow256(n: nat): (r: nat)
    ensures r > 0
  {
    if n == 0 then 1 else 256 * Pow256(n - 1)
  }

  /** `(byte)((value >> 8 * k) & 0xFF)`. */
  function ByteAt(v: nat, k: nat): byte {
    (v / Pow256(k)) % 256
  }

  function Reversed<T>(s: seq<T>): (r: seq<T>)
    ensures |r| == |s|
    ensures forall k :: 0 <= k < |s| ==> r[k] == s[|s| - 1 - k]
  {
    if s == [] then [] else Reversed(s[1..]) + [s[0]]
  }

  lemma ReversedTwice<T>(s: seq<T>)
    ensures Reversed(Reversed(s)) == s
  {
  }

  /** The n low bytes of v, least significant first: byte k is the value
      shifted right by 8k and masked. */
  function LittleBytes(v: nat, n: nat): (r: seq<byte>)
    ensures |r| == n
    ensures forall k :: 0 <= k < n ==> r[k] == ByteAt(v, k)
  {
    if n == 0 then []
    else
      ByteAtShift(v);
      [v % 256] + LittleBytes(v / 256, n - 1)
  }

  /** The value of bytes stored least significant first. */
  function FromLittle(bs: seq<byte>): nat {
    if bs == [] then 0 else bs[0] + 256 * FromLittle(bs[1..])
  }

  lemma DivDiv(v: nat, a: nat, b: nat)
    requires 0 < a && 0 < b
    ensures v / a / b == v / (a * b)
  {
    var q, r := v / a, v % a;
    var q2, r2 := q / b, q % b;
    assert v == a * q + r;
    assert q == b * q2 + r2;
    MulSplit(a, b, q2, r2);
    MulBelow(a, r2, b);
    DivModUnique(v, a * b, q2, a * r2 + r);
  }

  /** Helper: a * (b * q + r) == (a * b) * q + a * r. */
  lemma MulSplit(a: int, b: int, q: int, r: int)
    ensures a * (b * q + r) == (a * b) * q + a * r
  {
  }

  /** Helper: a * r + a <= a * b when r < b. */
  lemma MulBelow(a: nat, r: nat, b: nat)
    requires r < b
    ensures a * r + a <= a * b
  {
    var d: nat := b - r - 1;
    MulAdd(a, r + 1, d);
    MulAdd(a, r, 1);
    MulNonNegative(a, d);
  }

  /** Helper: multiplication distributes over addition. */
  lemma MulAdd(a: int, x: int, y: int)
    ensures a * (x + y) == a * x + a * y
  {
  }

  /** Helper: a product of naturals is not negative. */
  lemma MulNonNegative(a: nat, d: nat)
    ensures 0 <= a * d
  {
  }

  /** Helper: byte k - 1 of v / 256 is byte k of v, and byte 0 is v % 256. */
  lemma ByteAtShift(v: nat)
    ensures ByteAt(v, 0) == v % 256
    ensures forall k :: 0 < k ==> ByteAt(v / 256, k - 1) == ByteAt(v, k)
  {
    forall k | 0 < k
      ensures ByteAt(v / 256, k - 1) == ByteAt(v, k)
    {
      DivDiv(v, 256, Pow256(k - 1));
    }
  }

  lemma {:induction false} FromLittleBound(bs: seq<byte>)
    ensures FromLittle(bs) < Pow256(|bs|)
  {
    if bs != [] {
      FromLittleBound(bs[1..]);
      assert FromLittle(bs[1..]) + 1 <= Pow256(|bs| - 1);
      assert 256 * (FromLittle(bs[1..]) + 1) <= 256 * Pow256(|bs| - 1);
    }
  }

  /** Decoding the bytes of a value that fits gives the value back. */
  lemma {:induction false} FromLittleBytes(v: nat, n: nat)
    requires v < Pow256(n)
    ensures FromLittle(LittleBytes(v, n)) == v
  {
    if n > 0 {
      assert v / 256 < Pow256(n - 1);
      FromLittleBytes(v / 256, n - 1);
      assert LittleBytes(v, n)[1..] == LittleBytes(v / 256, n - 1);
    }
  }

  /** Encoding decoded bytes gives the bytes back. */
  lemma {:induction false} LittleBytesFrom(bs: seq<byte>)
    ensures LittleBytes(FromLittle(bs), |bs|) == bs
  {
    if bs != [] {
      DivModUnique(FromLittle(bs), 256, FromLittle(bs[1..]), bs[0]);
      LittleBytesFrom(bs[1..]);
    }
  }

  /** The bytes a control emits for the n low bytes of v: least significant
      first for LittleEndianControl, most significant first for
      BigEndianControl, whatever the host. */
  function Pack(order: ByteOrder, v: nat, n: nat): (r: seq<byte>)
    ensures |r| == n
  {
    if order == LittleEndian then LittleBytes(v, n) else Reversed(LittleBytes(v, n))
  }

  /** The value a control reads from n stream bytes. */
  function Unpack(order: ByteOrder, bs: seq<byte>): (r: nat)
    ensures r < Pow256(|bs|)
  {
    FromLittleBound(bs);
    FromLittleBound(Reversed(bs));
    if order == LittleEndian then FromLittle(bs) else FromLittle(Reversed(bs))
  }

  /** Byte k of a packed value is the value shifted right by 8k (little
      endian) or by 8(n-1-k) (big endian) and masked, as the unrolled
      assignments compute it. */
  lemma PackAt(order: ByteOrder, v: nat, n: nat, k: nat)
    requires k < n
    ensures Pack(order, v, n)[k] == ByteAt(v, if order == LittleEndian then k else n - 1 - k)
  {
    var j := if order == LittleEndian then k else n - 1 - k;
    assert LittleBytes(v, n)[j] == ByteAt(v, j);
  }

  /** Reading back what a control wrote gives the value, for every value that
      fits the width. */
  lemma UnpackPack(order: ByteOrder, v: nat, n: nat)
    requires v < Pow256(n)
    ensures Unpack(order, Pack(order, v, n)) == v
  {
    FromLittleBytes(v, n);
    ReversedTwice(LittleBytes(v, n));
  }

  /** Writing what a control read gives the bytes back. */
  lemma PackUnpack(order: ByteOrder, bs: seq<byte>)
    ensures Pack(order, Unpack(order, bs), |bs|) == bs
  {
    LittleBytesFrom(bs);
    LittleBytesFrom(Reversed(bs));
    ReversedTwice(bs);
  }

  /** The integer Write overloads as written: the byte order is chosen by
      testing the host's order, little-endian bytes being packed exactly when
      the control's order and the host's agree. */
  function PackAsWritten(order: ByteOrder, hostLittleEndian: bool, v: nat, n: nat): (r: seq<byte>)
    ensures |r| == n
  {
    if (order == LittleEndian) == hostLittleEndian then LittleBytes(v, n) else Reversed(LittleBytes(v, n))
  }

  /** On a little-endian host the code as written packs the control's order. */
  lemma AsWrittenPacksOnLittleEndianHost(order: ByteOrder, v: nat, n: nat)
    ensures PackAsWritten(order, true, v, n) == Pack(order, v, n)
  {
  }

  /** On a big-endian host it packs the opposite order, which the control's
      own reads do not undo: a LittleEndianControl writing the uint 1 reads
      back 0x01000000, and so does a BigEndianControl. */
  lemma AsWrittenMisordersOnBigEndianHost()
    ensures PackAsWritten(LittleEndian, false, 1, 4) == [0, 0, 0, 1]
    ensures Unpack(LittleEndian, PackAsWritten(LittleEndian, false, 1, 4)) == 0x0100_0000
    ensures Unpack(BigEndian, PackAsWritten(BigEndian, false, 1, 4)) == 0x0100_0000
  {
    var one: seq<byte> := [1, 0, 0, 0];
    var last: seq<byte> := [0, 0, 0, 1];
    assert LittleBytes(0, 3) == [0, 0, 0];
    assert LittleBytes(1, 4) == one;
    assert Reversed(one) == last;
    assert FromLittle(last[3..]) == 1;
    assert FromLittle(last[2..]) == 0x100;
    assert FromLittle(last[1..]) == 0x1_0000;
    assert FromLittle(last) == 0x0100_0000;
  }

  /** Whether Read(size, reverse) is asked to reverse the bytes it reads:
      when the control's order is not the host's. */
  function ReadReverses(order: ByteOrder, hostLittleEndian: bool): (r: bool)
    ensures r <==> (order == LittleEndian) != hostLittleEndian
  {
    if order == LittleEndian then !hostLittleEndian else hostLittleEndian
  }

  /** BitConverter.ToUInt16/32/64 on the buffer's first bytes: host order. */
  function HostDecode(hostLittleEndian: bool, bs: seq<byte>): (r: nat)
    ensures r < Pow256(|bs|)
  {
    FromLittleBound(bs);
    FromLittleBound(Reversed(bs));
    if hostLittleEndian then FromLittle(bs) else FromLittle(Reversed(bs))
  }

  /** Reads are right on every host: reversing when the orders differ and then
      decoding in host order decodes in the control's order. */
  lemma ReadDecodesInControlOrder(order: ByteOrder, hostLittleEndian: bool, bs: seq<byte>)
    ensures HostDecode(hostLittleEndian, if ReadReverses(order, hostLittleEndian) then Reversed(bs) else bs) == Unpack(order, bs)
  {
    ReversedTwice(bs);
  }

  /** `(uint)value` and the like: the two's-complement pattern of a signed
      value in n bytes. */
  function Unsigned(v: int, n: nat): (r: nat)
    ensures r < Pow256(n)
  {
    v % Pow256(n)
  }

  /** A string's byte count is its own unsigned 32-bit pattern. */
  lemma CountIsUnsigned(count: nat)
    requires count < 0x8000_0000
    ensures Unsigned(count, 4) == count
  {
    assert Pow256(4) == 0x1_0000_0000;
  }

  /** Half the range of n bytes: the first pattern that reads as negative. */
  function Half(n: nat): (r: int)
    requires 0 < n
    ensures 0 < r && 2 * r == Pow256(n)
  {
    128 * Pow256(n - 1)
  }

  /** The signed value of an n-byte pattern. */
  function SignedOf(pattern: nat, n: nat): (r: int)
    requires 0 < n && pattern < Pow256(n)
    ensures -Half(n) <= r < Half(n)
  {
    Signed(pattern, Half(n))
  }

  /** A signed value that fits the width reads back as itself. */
  lemma SignedRoundTrip(order: ByteOrder, v: int, n: nat)
    requires 0 < n && -Half(n) <= v < Half(n)
    ensures SignedOf(Unpack(order, Pack(order, Unsigned(v, n), n)), n) == v
  {
    var p := Pow256(n);
    if v >= 0 {
      DivModUnique(v, p, 0, v);
    } else {
      DivModUnique(v, p, -1, v + p);
    }
    UnpackPack(order, Unsigned(v, n), n);
  }

  /** The frame Write(string) is meant to emit: the byte count of the
      string's UTF-8 encoding as an int, then the encoded bytes. */
  function StringFrame(order: ByteOrder, data: seq<byte>): (r: seq<byte>)
    requires |data| < 0x8000_0000
    ensures |r| == 4 + |data| && r[4..] == data
  {
    Pack(order, |data|, 4) + data
  }

  /** The frame Write(string) emits as written: the bytes are encoded into the
      buffer first, then writing the count reuses the buffer's first four
      bytes, then the first |data| buffer bytes are emitted, so the count
      replaces the text's first four bytes. */
  function StringFrameAsWritten(order: ByteOrder, data: seq<byte>): (r: seq<byte>)
    requires |data| < 0x8000_0000
    ensures |r| == 4 + |data| && r[..4] == Pack(order, |data|, 4)
  {
    var count := Pack(order, |data|, 4);
    count + (if |data| >= 4 then count + data[4..] else count[..|data|])
  }

  /** What ReadChars takes from a stream that starts with a frame: the count
      (a signed int), then that many bytes; None where the stream is too short
      or the count negative. */
  function ParseFrame(order: ByteOrder, bytes: seq<byte>): (r: Option<seq<byte>>)
    ensures r.Some? ==> |bytes| >= 4 + |r.value|
  {
    if |bytes| < 4 then None
    else
      var count := SignedOf(Unpack(order, bytes[..4]), 4);
      if count < 0 || |bytes| < 4 + count then None else Some(bytes[4..4 + count])
  }

  /** A frame reads back as the text's bytes, whatever follows it. */
  lemma StringFrameRoundTrip(order: ByteOrder, data: seq<byte>, rest: seq<byte>)
    requires |data| < 0x8000_0000
    ensures ParseFrame(order, StringFrame(order, data) + rest) == Some(data)
  {
    var bytes := StringFrame(order, data) + rest;
    assert bytes[..4] == Pack(order, |data|, 4);
    UnpackPack(order, |data|, 4);
    assert bytes[4..4 + |data|] == data;
  }

  /** The frame as written loses the text: "abcd" is emitted as the count
      twice and reads back as the count's bytes. */
  lemma StringFrameAsWrittenLosesText()
    ensures StringFrameAsWritten(LittleEndian, [97, 98, 99, 100]) == [4, 0, 0, 0, 4, 0, 0, 0]
    ensures ParseFrame(LittleEndian, StringFrameAsWritten(LittleEndian, [97, 98, 99, 100])) == Some([4, 0, 0, 0])
  {
    assert LittleBytes(4, 4) == [4, 0, 0, 0];
    var frame: seq<byte> := [4, 0, 0, 0, 4, 0, 0, 0];
    assert frame[..4] == [4, 0, 0, 0];
    assert FromLittle([4, 0, 0, 0]) == 4;
    assert frame[4..8] == [4, 0, 0, 0];
  }

  function Min(a: int, b: int): int {
    if a < b then a else b
  }

  /** What the front of the buffer holds after Read(size, ...) fetched the n
      bytes the stream had: those bytes, then what was there before. */
  function Fetched(before: seq<byte>, stream: seq<byte>, size: nat): (r: seq<byte>)
    requires size <= |before|
    ensures |r| == size
    ensures size <= |stream| ==> r == stream[..size]
  {
    var n := Min(size, |stream|);
    stream[..n] + before[n..size]
  }

  /** Writing a 4-byte count over the front of a buffer holding data leaves
      the count, then what data had past its first four bytes; the count
      followed by the buffer's first |data| bytes is the as-written frame. */
  lemma CountOverwritesFront(order: ByteOrder, encoded: seq<byte>, after: seq<byte>, data: seq<byte>)
    requires |data| < 0x8000_0000 && 4 <= |after| == |encoded| && |data| <= |encoded|
    requires encoded[..|data|] == data && after[..4] == Pack(order, |data|, 4) && after[4..] == encoded[4..]
    ensures Pack(order, |data|, 4) + after[..|data|] == StringFrameAsWritten(order, data)
  {
    var count := Pack(order, |data|, 4);
    if |data| >= 4 {
      assert after[..|data|] == after[..4] + after[4..][..|data| - 4];
      assert encoded[4..][..|data| - 4] == data[4..];
    } else {
      assert after[..|data|] == count[..|data|];
    }
  }

  /** Array.Reverse(a, 0, size). */
  method ReversePrefix(a: array<byte>, size: int)
    requires 0 <= size <= a.Length
    modifies a
    ensures a[..size] == Reversed(old(a[..size]))
    ensures a[size..] == old(a[size..])
  {
    ghost var original := a[..];
    var i := 0;
    while i < size / 2
      invariant 0 <= i <= size / 2 && |original| == a.Length
      invariant forall k :: 0 <= k < i ==> a[k] == original[size - 1 - k] && a[size - 1 - k] == original[k]
      invariant forall k :: i <= k < size - i ==> a[k] == original[k]
      invariant forall k :: size <= k < a.Length ==> a[k] == original[k]
    {
      a[i], a[size - 1 - i] := a[size - 1 - i], a[i];
      i := i + 1;
    }
    assert forall k :: 0 <= k < size ==> a[k] == original[size - 1 - k];
    SwappedIsReversed(a[..], original, size);
  }

  /** A buffer whose first size bytes mirror the original's and whose rest is
      unchanged holds the reversed prefix. */
  lemma SwappedIsReversed(after: seq<byte>, original: seq<byte>, size: int)
    requires 0 <= size <= |after| == |original|
    requires forall k :: 0 <= k < size ==> after[k] == original[size - 1 - k]
    requires forall k :: size <= k < |after| ==> after[k] == original[k]
    ensures after[..size] == Reversed(original[..size]) && after[size..] == original[size..]
  {
    var reversed := Reversed(original[..size]);
    assert forall k :: 0 <= k < size ==> after[..size][k] == reversed[k];
  }

  class StreamEndiannessControl {
    /** LittleEndianControl or BigEndianControl. */
    const order: ByteOrder
    /** BitConverter.IsLittleEndian. */
    const hostLittleEndian: bool
    var streamBuffer: array<byte>
    var charBuffer: array<char>
    /** The bytes the stream will still deliver. */
    var input: seq<byte>
    /** The bytes written to the stream so far. */
    var output: seq<byte>

    /** The buffers are only ever replaced by larger ones. */
    ghost predicate Valid()
      reads this
    {
      IOBufferSize <= streamBuffer.Length && CharBufferSize <= charBuffer.Length
    }

    constructor (stream: seq<byte>, order: ByteOrder, hostLittleEndian: bool)
      ensures Valid() && fresh(streamBuffer) && fresh(charBuffer)
      ensures streamBuffer.Length == IOBufferSize && charBuffer.Length == CharBufferSize
      ensures this.order == order && this.hostLittleEndian == hostLittleEndian
      ensures input == stream && output == []
    {
      this.order := order;
      this.hostLittleEndian := hostLittleEndian;
      streamBuffer := new byte[IOBufferSize](_ => 0);
      charBuffer := new char[CharBufferSize](_ => '\0');
      input := stream;
      output := [];
    }

    /** The constructor's null check: a missing stream is refused. */
    static method Open(stream: Option<seq<byte>>, order: ByteOrder, hostLittleEndian: bool)
      returns (r: Result<StreamEndiannessControl>)
      ensures stream.None? <==> r.Failure?
      ensures r.Failure? ==> r.error == ArgumentNull
      ensures r.Success? ==> fresh(r.value) && r.value.Valid() && r.value.input == stream.value && r.value.output == []
      ensures r.Success? ==> r.value.order == order && r.value.hostLittleEndian == hostLittleEndian
    {
      if stream.None? {
        return Failure(ArgumentNull);
      }
      var control := new StreamEndiannessControl(stream.value, order, hostLittleEndian);
      r := Success(control);
    }

    /** The buffer growth shared by Read(size, ...), ReadChars and
        Write(string): a fresh zeroed buffer of the size when the current one
        is shorter. */
    method GrowBuffer(size: int)
      requires Valid() && 0 <= size
      modifies this`streamBuffer
      ensures Valid() && size <= streamBuffer.Length
      ensures old(streamBuffer.Length) < size ==> fresh(streamBuffer) && streamBuffer[..size] == seq(size, _ => 0)
      ensures size <= old(streamBuffer.Length) ==> streamBuffer == old(streamBuffer)
    {
      if streamBuffer.Length < size {
        streamBuffer := new byte[size](_ => 0);
      }
    }

    /** baseStream.Read(streamBuffer, 0, size): copies the bytes the stream
        still has, at most size of them, to the buffer's front. */
    method FetchFromStream(size: int)
      requires 0 <= size <= streamBuffer.Length
      modifies streamBuffer, this`input
      ensures streamBuffer[..size] == Fetched(old(streamBuffer[..size]), old(input), size)
      ensures input == old(input)[Min(size, |old(input)|)..]
    {
      var n := Min(size, |input|);
      forall k | 0 <= k < n {
        streamBuffer[k] := input[k];
      }
      input := input[n..];
    }

    /** Encoding.GetBytes into the buffer's front. */
    method CopyToBuffer(data: seq<byte>)
      requires |data| <= streamBuffer.Length
      modifies streamBuffer
      ensures streamBuffer[..|data|] == data
      ensures streamBuffer[|data|..] == old(streamBuffer[|data|..])
    {
      forall k | 0 <= k < |data| {
        streamBuffer[k] := data[k];
      }
    }

    /** The encoding step of Write(string): grow the buffer to the byte count,
        then encode the text into its front. */
    method EncodeIntoBuffer(data: seq<byte>)
      requires Valid()
      modifies this`streamBuffer, streamBuffer
      ensures Valid() && |data| <= streamBuffer.Length && streamBuffer[..|data|] == data
      ensures streamBuffer == old(streamBuffer) || fresh(streamBuffer)
      ensures output == old(output)
    {
      GrowBuffer(|data|);
      CopyToBuffer(data);
    }

    /** Read(size, reverse): grows the buffer when it is shorter than size,
        reads up to size bytes into its front (a stream that runs short leaves
        the rest as it was) and reverses the front when asked. */
    method ReadToBuffer(size: int, reverse: bool)
      requires Valid() && 0 <= size
      modifies this`streamBuffer, this`input, streamBuffer
      ensures Valid() && size <= streamBuffer.Length
      ensures old(streamBuffer.Length) < size ==> fresh(streamBuffer)
      ensures size <= old(streamBuffer.Length) ==> streamBuffer == old(streamBuffer)
      ensures input == old(input)[Min(size, |old(input)|)..]
      ensures var before := if old(streamBuffer.Length) < size then seq(size, _ => 0) else old(streamBuffer[..size]);
        streamBuffer[..size] == (if reverse then Reversed(Fetched(before, old(input), size)) else Fetched(before, old(input), size))
    {
      GrowBuffer(size);
      FetchFromStream(size);
      if reverse {
        ReversePrefix(streamBuffer, size);
      }
    }

    /** Write(size, reverse): reverses the front of the buffer when asked and
        emits exactly its first size bytes. */
    method WriteFromBuffer(size: int, reverse: bool)
      requires 0 <= size <= streamBuffer.Length
      modifies streamBuffer, this`output
      ensures streamBuffer[..size] == (if reverse then Reversed(old(streamBuffer[..size])) else old(streamBuffer[..size]))
      ensures streamBuffer[size..] == old(streamBuffer[size..])
      ensures output == old(output) + streamBuffer[..size]
    {
      if reverse {
        ReversePrefix(streamBuffer, size);
      }
      output := output + streamBuffer[..size];
    }

    /** The unrolled assignments of Write(byte/ushort/uint/ulong): byte k of
        the buffer gets the value shifted and masked, in the control's order. */
    method PackIntoBuffer(value: nat, size: nat)
      requires Valid() && size in {1, 2, 4, 8}
      modifies streamBuffer
      ensures streamBuffer[..size] == Pack(order, value, size)
      ensures streamBuffer[size..] == old(streamBuffer[size..])
    {
      ghost var packed := Pack(order, value, size);
      var k := 0;
      while k < size
        invariant 0 <= k <= size
        invariant forall i :: 0 <= i < k ==> streamBuffer[i] == packed[i]
        invariant forall i :: size <= i < streamBuffer.Length ==> streamBuffer[i] == old(streamBuffer[i])
      {
        var position := if order == LittleEndian then k else size - 1 - k;
        PackAt(order, value, size, k);
        streamBuffer[k] := ByteAt(value, position);
        k := k + 1;
      }
    }

    /** Write(byte), Write(ushort), Write(uint), Write(ulong): the value's
        bytes are packed in the control's order, then emitted without
        reversal. */
    method WriteUnsigned(value: nat, size: nat)
      requires Valid() && size in {1, 2, 4, 8} && value < Pow256(size)
      modifies streamBuffer, this`output
      ensures output == old(output) + Pack(order, value, size)
      ensures streamBuffer[..size] == Pack(order, value, size)
      ensures streamBuffer[size..] == old(streamBuffer[size..])
    {
      PackIntoBuffer(value, size);
      WriteFromBuffer(size, false);
    }

    /** Write(sbyte), Write(short), Write(int), Write(long): the unsigned
        write of the same bit pattern. */
    method WriteSigned(value: int, size: nat)
      requires Valid() && size in {1, 2, 4, 8} && -Half(size) <= value < Half(size)
      modifies streamBuffer, this`output
      ensures output == old(output) + Pack(order, Unsigned(value, size), size)
      ensures streamBuffer[..size] == Pack(order, Unsigned(value, size), size)
      ensures streamBuffer[size..] == old(streamBuffer[size..])
    {
      WriteUnsigned(Unsigned(value, size), size);
    }

    /** ReadByte, ReadUshort, ReadUint, ReadUlong: reads size bytes, reversed
        when the control's order is not the host's (never for one byte), and
        decodes the buffer in host order. A full read yields the value the
        bytes hold in the control's order, on either host. */
    method ReadUnsigned(size: nat) returns (r: nat)
      requires Valid() && size in {1, 2, 4, 8}
      modifies this`streamBuffer, this`input, streamBuffer
      ensures Valid() && streamBuffer == old(streamBuffer)
      ensures r == HostDecode(hostLittleEndian, streamBuffer[..size])
      ensures input == old(input)[Min(size, |old(input)|)..]
      ensures size <= |old(input)| ==> r == Unpack(order, old(input)[..size])
    {
      var reverse := size > 1 && ReadReverses(order, hostLittleEndian);
      ghost var stream := input;
      ReadToBuffer(size, reverse);
      r := HostDecode(hostLittleEndian, streamBuffer[..size]);
      if size <= |stream| {
        var bs := stream[..size];
        ReadDecodesInControlOrder(order, hostLittleEndian, bs);
        if size == 1 {
          assert Reversed(bs) == bs;
        }
      }
    }

    /** ReadSbyte, ReadShort, ReadInt, ReadLong: the signed reading of the
        unsigned read. */
    method ReadSigned(size: nat) returns (r: int)
      requires Valid() && size in {1, 2, 4, 8}
      modifies this`streamBuffer, this`input, streamBuffer
      ensures Valid() && streamBuffer == old(streamBuffer)
      ensures input == old(input)[Min(size, |old(input)|)..]
      ensures -Half(size) <= r < Half(size)
      ensures size <= |old(input)| ==> r == SignedOf(Unpack(order, old(input)[..size]), size)
    {
      var pattern := ReadUnsigned(size);
      FromLittleBound(streamBuffer[..size]);
      FromLittleBound(Reversed(streamBuffer[..size]));
      r := SignedOf(pattern, size);
    }

    /** Write(string) as written, given the string's UTF-8 bytes: encode into
        the buffer, write the count, then emit the buffer's first |data| bytes. */
    method WriteStringAsWritten(data: seq<byte>)
      requires Valid() && |data| < 0x8000_0000
      modifies this`streamBuffer, streamBuffer, this`output
      ensures Valid()
      ensures output == old(output) + StringFrameAsWritten(order, data)
    {
      var encodeSize := |data|;
      EncodeIntoBuffer(data);
      CountIsUnsigned(encodeSize);
      ghost var encoded := streamBuffer[..];
      WriteSigned(encodeSize, 4);
      CountOverwritesFront(order, encoded, streamBuffer[..], data);
      output := output + streamBuffer[..encodeSize];
    }

    /** Write(string) as intended: the count is written before the text is
        encoded into the buffer, so the text follows it intact. */
    method WriteString(data: seq<byte>)
      requires Valid() && |data| < 0x8000_0000
      modifies this`streamBuffer, streamBuffer, this`output
      ensures Valid()
      ensures output == old(output) + StringFrame(order, data)
    {
      var encodeSize := |data|;
      CountIsUnsigned(encodeSize);
      ghost var before := output;
      WriteSigned(encodeSize, 4);
      assert output == before + Pack(order, encodeSize, 4);
      EncodeIntoBuffer(data);
      output := output + streamBuffer[..encodeSize];
    }

    /** ReadChars up to the UTF-8 decoding: reads the count as an int, grows
        the buffer to it and reads that many bytes. A negative count makes the
        stream read throw. On a stream holding a whole frame the result is the
        frame's text bytes. */
    method ReadChars() returns (r: Result<seq<byte>>)
      requires Valid()
      modifies this`streamBuffer, this`input, streamBuffer
      ensures Valid()
      ensures 4 <= |old(input)| && SignedOf(Unpack(order, old(input)[..4]), 4) < 0 ==> r == Failure(ArgumentOutOfRange)
      ensures ParseFrame(order, old(input)).Some? ==>
        r == Success(ParseFrame(order, old(input)).value) && input == old(input)[4 + |r.value|..]
    {
      ghost var stream := input;
      var dataSize := ReadSigned(4);
      if dataSize < 0 {
        return Failure(ArgumentOutOfRange);
      }
      ReadToBuffer(dataSize, false);
      r := Success(streamBuffer[..dataSize]);
      if ParseFrame(order, stream).Some? {
        assert stream[4..][..dataSize] == stream[4..4 + dataSize];
        assert stream[4..][dataSize..] == stream[4 + dataSize..];
      }
    }
  }
}
