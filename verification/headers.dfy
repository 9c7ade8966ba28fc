/**
 The generic box envelope of section 4.2 of ISO/IEC 14496-12: a 4-byte
 big-endian size that counts the header itself, then a 4-byte type code.

 The header codec and the stream helpers `box_start`, `skip_box` and
 `skip_bytes_to` live in the crate's `mp4box/mod.rs`, which is not part of
 this model. What is written here is the behaviour the three codecs rely on,
 stated as plainly as possible:
   - a header is 8 bytes, a big-endian u32 size and a big-endian u32 code;
   - `box_start` is the current position minus the header size;
   - `skip_box(s)` seeks to `box_start + s`;
   - `skip_bytes_to(p)` seeks to the absolute position `p`.
 */
module Headers {
  import opened Wire

  const HEADER_SIZE: nat := 8

  /** Four-character codes of the box types this model dispatches on. */
  const META_CODE: U32 := 0x6d65_7461  // "meta"
  const CXYZ_CODE: U32 := 0xa978_797a  // "\xa9xyz"
  const GPMF_CODE: U32 := 0x4750_4d46  // "GPMF"
  const UDTA_CODE: U32 := 0x7564_7461  // "udta"

  /** The closed set of box types, with every other code kept verbatim. */
  datatype BoxType = Meta | Cxyz | Gpmf | Udta | Unknown(code: U32)

  /** `BoxType::from(u32)`. */
  function FromCode(code: U32): (t: BoxType)
    ensures t.Unknown? <==> code !in {META_CODE, CXYZ_CODE, GPMF_CODE, UDTA_CODE}
    ensures t.Unknown? ==> t.code == code
    ensures Code(t) == code
  {
    if code == META_CODE then Meta
    else if code == CXYZ_CODE then Cxyz
    else if code == GPMF_CODE then Gpmf
    else if code == UDTA_CODE then Udta
    else Unknown(code)
  }

  /** `u32::from(BoxType)`. */
  function Code(t: BoxType): U32
  {
    match t
    case Meta => META_CODE
    case Cxyz => CXYZ_CODE
    case Gpmf => GPMF_CODE
    case Udta => UDTA_CODE
    case Unknown(c) => c
  }

  /** A type value the code mapping can produce: `Unknown` never carries a known code. */
  predicate WellFormedType(t: BoxType)
  {
    t.Unknown? ==> t.code !in {META_CODE, CXYZ_CODE, GPMF_CODE, UDTA_CODE}
  }

  /** Codes and well-formed types are in one-to-one correspondence. */
  lemma CodeBijection(t: BoxType, code: U32)
    ensures WellFormedType(FromCode(code)) && Code(FromCode(code)) == code
    ensures WellFormedType(t) ==> FromCode(Code(t)) == t
  {
  }

  /** A decoded header: the box type and its header-inclusive size. */
  datatype Header = Header(name: BoxType, size: nat)

  /**
   `BoxHeader::read`: size first, then the type code. It fails only when
   fewer than 8 bytes remain, and then consumes exactly 8 bytes.
   */
  function ReadHeader(rd: Reader): (res: Result<(Header, Reader)>)
    ensures res.Ok? <==> rd.pos + HEADER_SIZE <= |rd.buf|
    ensures res.Err? ==> res.error == Truncated
    ensures res.Ok? ==>
      && res.value.1 == Reader(rd.buf, rd.pos + HEADER_SIZE)
      && res.value.0.size == Be32(rd.buf[rd.pos..rd.pos + 4])
      && Code(res.value.0.name) == Be32(rd.buf[rd.pos + 4..rd.pos + HEADER_SIZE])
      && WellFormedType(res.value.0.name)
  {
    var (size, afterSize) :- ReadU32(rd);
    var (code, afterCode) :- ReadU32(afterSize);
    Ok((Header(FromCode(code), size), afterCode))
  }

  /** `BoxHeader::new(t, size).write`: always the 8 bytes of a header. */
  function EncodeHeader(t: BoxType, size: U32): (out: seq<Byte>)
    ensures |out| == HEADER_SIZE
  {
    U32Bytes(size) + U32Bytes(Code(t))
  }

  /** A written header carries the size in its first four bytes and the type's code in the next four. */
  lemma EncodeHeaderFields(t: BoxType, size: U32)
    requires WellFormedType(t)
    ensures Be32(EncodeHeader(t, size)[..4]) == size
    ensures FromCode(Be32(EncodeHeader(t, size)[4..])) == t
  {
    var out := EncodeHeader(t, size);
    assert out[..4] == U32Bytes(size);
    assert out[4..] == U32Bytes(Code(t));
    Be32RoundTrip(size, out[..4]);
    Be32RoundTrip(Code(t), out[4..]);
    CodeBijection(t, Code(t));
  }

  /** Reading a written header gives back its type and size and consumes exactly 8 bytes. */
  lemma HeaderRoundTrip(buf: seq<Byte>, p: nat, t: BoxType, size: U32)
    requires WellFormedType(t)
    requires IsAt(buf, p, EncodeHeader(t, size))
    ensures |EncodeHeader(t, size)| == HEADER_SIZE
    ensures ReadHeader(Reader(buf, p)) == Ok((Header(t, size), Reader(buf, p + HEADER_SIZE)))
  {
    IsAtSplit(buf, p, U32Bytes(size), U32Bytes(Code(t)));
    ReadU32At(buf, p, size);
    ReadU32At(buf, p + 4, Code(t));
    CodeBijection(t, Code(t));
  }

  /** `box_start`: where the header just read began; underflows before position 8. */
  function BoxStart(rd: Reader): (res: Result<nat>)
    ensures res.Ok? <==> rd.pos >= HEADER_SIZE
    ensures res.Err? ==> res.error == Overflow
    ensures res.Ok? ==> res.value + HEADER_SIZE == rd.pos
  {
    if rd.pos < HEADER_SIZE then Err(Overflow) else Ok(rd.pos - HEADER_SIZE)
  }

  /** `skip_bytes_to`: an absolute seek, which never fails on an in-memory stream. */
  function SkipBytesTo(rd: Reader, p: nat): (r: Reader)
    ensures r.buf == rd.buf && r.pos == p
  {
    Reader(rd.buf, p)
  }

  /**
   `skip_box`: seek to the end of a box of `size` whose header was just read,
   that is `size` bytes past the header's start, wherever that lands.
   */
  function SkipBox(rd: Reader, size: nat): (res: Result<Reader>)
    ensures res.Ok? <==> rd.pos >= HEADER_SIZE
    ensures res.Err? ==> res.error == Overflow
    ensures res.Ok? ==> res.value == Reader(rd.buf, rd.pos - HEADER_SIZE + size)
  {
    var start :- BoxStart(rd);
    Ok(SkipBytesTo(rd, start + size))
  }
}
