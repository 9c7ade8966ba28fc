/**
 Byte-level vocabulary shared by every box codec: bytes and fixed-width
 unsigned integers, the failure kinds a codec can report, and a functional
 reader over an in-memory buffer.

 The reader stands for a `Read + Seek` stream over a byte vector: a read of
 `n` bytes succeeds exactly when `n` bytes remain, and a seek may move to any
 position, including one past the end (a later read there fails).
 */
module Wire {

  type Byte = x: int | 0 <= x < 0x100
  type U16 = x: int | 0 <= x < 0x1_0000
  type U32 = x: int | 0 <= x < 0x1_0000_0000

  /** The failure kinds a decode or encode can end in. */
  datatype Error =
    | Truncated    // the stream ended before a read_exact was satisfied
    | InvalidData  // a decoder rejected the data it read
    | Overflow     // an unsigned subtraction would underflow (a panic in the source)

  /** An optional value: `Option<T>`. */
  datatype Option<+T> = None | Some(value: T)

  /** Success with a value, or exactly one failure. Usable with `:-`. */
  datatype Result<+T> = Ok(value: T) | Err(error: Error) {
    predicate IsFailure() {
      Err?
    }

    function PropagateFailure<U>(): Result<U>
      requires Err?
    {
      Err(error)
    }

    function Extract(): T
      requires Ok?
    {
      value
    }
  }

  /** A stream over `buf`, positioned at `pos`. */
  datatype Reader = Reader(buf: seq<Byte>, pos: nat)

  /** `read_exact` of `n` bytes. */
  function ReadBytes(rd: Reader, n: nat): Result<(seq<Byte>, Reader)>
  {
    if rd.pos + n <= |rd.buf| then
      Ok((rd.buf[rd.pos..rd.pos + n], Reader(rd.buf, rd.pos + n)))
    else
      Err(Truncated)
  }

  /** Big-endian value of two bytes. */
  function Be16(b: seq<Byte>): U16
    requires |b| == 2
  {
    (b[0] as int) * 0x100 + b[1] as int
  }

  /** Big-endian value of four bytes. */
  function Be32(b: seq<Byte>): U32
    requires |b| == 4
  {
    (b[0] as int) * 0x100_0000 + (b[1] as int) * 0x1_0000 + (b[2] as int) * 0x100 + b[3] as int
  }

  /** `write_u16::<BigEndian>`. */
  function U16Bytes(x: U16): seq<Byte>
  {
    [x / 0x100, x % 0x100]
  }

  /** `write_u32::<BigEndian>`. */
  function U32Bytes(x: U32): seq<Byte>
  {
    [x / 0x100_0000, (x / 0x1_0000) % 0x100, (x / 0x100) % 0x100, x % 0x100]
  }

  /** `read_u16::<BigEndian>`. */
  function ReadU16(rd: Reader): Result<(U16, Reader)>
  {
    var (b, rest) :- ReadBytes(rd, 2);
    Ok((Be16(b), rest))
  }

  /** `read_u32::<BigEndian>`. */
  function ReadU32(rd: Reader): Result<(U32, Reader)>
  {
    var (b, rest) :- ReadBytes(rd, 4);
    Ok((Be32(b), rest))
  }

  /** The cast `n as u16`: keeps the low sixteen bits. */
  function TruncateU16(n: nat): (r: U16)
    ensures n < 0x1_0000 ==> r == n
    ensures r < n || r == n
    ensures (n - r) % 0x1_0000 == 0
  {
    n % 0x1_0000
  }

  /** The two big-endian encodings are inverse to the decodings, both ways. */
  lemma Be16RoundTrip(x: U16, b: seq<Byte>)
    requires |b| == 2
    ensures Be16(U16Bytes(x)) == x
    ensures U16Bytes(Be16(b)) == b
  {
  }

  lemma Be32RoundTrip(x: U32, b: seq<Byte>)
    requires |b| == 4
    ensures Be32(U32Bytes(x)) == x
    ensures U32Bytes(Be32(b)) == b
  {
    Be32Decode(x);
    Be32Encode(b);
  }

  lemma Be32Decode(x: U32)
    ensures Be32(U32Bytes(x)) == x
  {
    var hi := x / 0x1_0000;
    var lo := x % 0x1_0000;
    HighLowBytes(x);
    Split8(hi / 0x100, hi % 0x100);
    Split8(lo / 0x100, lo % 0x100);
  }

  lemma Be32Encode(b: seq<Byte>)
    requires |b| == 4
    ensures U32Bytes(Be32(b)) == b
  {
    var hi := (b[0] as int) * 0x100 + b[1] as int;
    var lo := (b[2] as int) * 0x100 + b[3] as int;
    Split8(b[0], b[1]);
    Split8(b[2], b[3]);
    Split16(hi, lo);
    assert Be32(b) == hi * 0x1_0000 + lo;
    HighLowBytes(Be32(b));
  }

  /** Two bytes make a 16-bit value, and division by 256 takes them apart again. */
  lemma Split8(a: Byte, b: Byte)
    ensures (a * 0x100 + b) / 0x100 == a && (a * 0x100 + b) % 0x100 == b
  {
  }

  /** Two 16-bit halves make a 32-bit value, and division by 65536 takes them apart again. */
  lemma Split16(hi: U16, lo: U16)
    ensures (hi * 0x1_0000 + lo) / 0x1_0000 == hi && (hi * 0x1_0000 + lo) % 0x1_0000 == lo
  {
  }

  /** The bytes of a 32-bit value, taken from its 16-bit halves. */
  lemma HighLowBytes(x: U32)
    ensures x == (x / 0x1_0000) * 0x1_0000 + x % 0x1_0000
    ensures x / 0x100_0000 == (x / 0x1_0000) / 0x100
    ensures (x / 0x100) % 0x100 == (x % 0x1_0000) / 0x100
    ensures x % 0x100 == (x % 0x1_0000) % 0x100
  {
  }

  /**
   `bytes` occupies `buf` from position `p` on, stated byte by byte (see
   `IsAtSlice` for the equivalent statement with a slice).
   */
  predicate IsAt(buf: seq<Byte>, p: nat, bytes: seq<Byte>)
    decreases |bytes|
  {
    if bytes == [] then p <= |buf|
    else p < |buf| && buf[p] == bytes[0] && IsAt(buf, p + 1, bytes[1..])
  }

  lemma {:induction false} IsAtSlice(buf: seq<Byte>, p: nat, bytes: seq<Byte>)
    ensures IsAt(buf, p, bytes) <==> p + |bytes| <= |buf| && buf[p..p + |bytes|] == bytes
    decreases |bytes|
  {
    if bytes != [] {
      IsAtSlice(buf, p + 1, bytes[1..]);
      if p + |bytes| <= |buf| {
        assert buf[p..p + |bytes|] == [buf[p]] + buf[p + 1..p + |bytes|];
      }
    }
  }

  /** A concatenation placed in a buffer places each of its parts. */
  lemma IsAtSplit(buf: seq<Byte>, p: nat, a: seq<Byte>, b: seq<Byte>)
    requires IsAt(buf, p, a + b)
    ensures IsAt(buf, p, a)
    ensures IsAt(buf, p + |a|, b)
  {
    IsAtSlice(buf, p, a + b);
    IsAtSlice(buf, p, a);
    IsAtSlice(buf, p + |a|, b);
    assert buf[p..p + |a|] == (a + b)[..|a|];
    assert buf[p + |a|..p + |a| + |b|] == (a + b)[|a|..];
  }

  /** A buffer holds itself at position 0. */
  lemma IsAtWhole(buf: seq<Byte>)
    ensures IsAt(buf, 0, buf)
  {
    IsAtSlice(buf, 0, buf);
  }

  /** Reading `n` bytes where `bytes` sits returns a prefix of `bytes`. */
  lemma ReadBytesAt(buf: seq<Byte>, p: nat, bytes: seq<Byte>, n: nat)
    requires IsAt(buf, p, bytes)
    requires n <= |bytes|
    ensures ReadBytes(Reader(buf, p), n) == Ok((bytes[..n], Reader(buf, p + n)))
  {
    IsAtSlice(buf, p, bytes);
    forall i | 0 <= i < n
      ensures buf[p..p + n][i] == bytes[..n][i]
    {
      assert buf[p..p + |bytes|][i] == bytes[i];
    }
    assert buf[p..p + n] == bytes[..n];
  }

  /** Reading a big-endian u16 where its encoding sits yields the value back. */
  lemma ReadU16At(buf: seq<Byte>, p: nat, x: U16)
    requires IsAt(buf, p, U16Bytes(x))
    ensures ReadU16(Reader(buf, p)) == Ok((x, Reader(buf, p + 2)))
  {
    ReadBytesAt(buf, p, U16Bytes(x), 2);
    Be16RoundTrip(x, U16Bytes(x));
  }

  /** Reading a big-endian u32 where its encoding sits yields the value back. */
  lemma ReadU32At(buf: seq<Byte>, p: nat, x: U32)
    requires IsAt(buf, p, U32Bytes(x))
    ensures ReadU32(Reader(buf, p)) == Ok((x, Reader(buf, p + 4)))
  {
    ReadBytesAt(buf, p, U32Bytes(x), 4);
    Be32RoundTrip(x, U32Bytes(x));
  }
}
