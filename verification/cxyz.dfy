/**
 The location-text leaf box (`\xa9xyz`). Its body is a big-endian u16 text
 length, a big-endian u16 language code, then the text bytes.

 The text is held as its UTF-8 bytes. The source turns the bytes it reads into
 a string with lossy UTF-8 decoding, which is the identity on valid UTF-8;
 the replacement of invalid sequences is not modelled.
 */
module CxyzCodec {
  import opened Wire
  import opened Headers

  datatype CxyzBox = CxyzBox(languageCode: U16, text: seq<Byte>)

  /** `get_size`: header, the two u16 fields, then the text. */
  function CxyzSize(b: CxyzBox): (r: nat)
    ensures r == |EncodeHeader(Cxyz, 0)| + |U16Bytes(TruncateU16(|b.text|))| + |U16Bytes(b.languageCode)| + |b.text|
  {
    HEADER_SIZE + 2 + 2 + |b.text|
  }

  /** The sizes for which the 32-bit header can be written. */
  predicate CxyzEncodable(b: CxyzBox)
  {
    CxyzSize(b) < 0x1_0000_0000
  }

  /**
   `write_box`: the header, the text length cast to u16, the language code,
   the text. As many bytes are written as `get_size`, which is also what
   `write_box` returns.
   */
  function EncodeCxyz(b: CxyzBox): (out: seq<Byte>)
    requires CxyzEncodable(b)
    ensures |out| == CxyzSize(b)
  {
    EncodeHeader(Cxyz, CxyzSize(b)) + U16Bytes(TruncateU16(|b.text|)) + U16Bytes(b.languageCode) + b.text
  }

  /**
   The written bytes, read field by field: a cxyz header of `get_size`, the
   text length modulo 65536, the language code, the text.
   */
  lemma EncodeCxyzLayout(b: CxyzBox)
    requires CxyzEncodable(b)
    ensures Be32(EncodeCxyz(b)[..4]) == CxyzSize(b)
    ensures FromCode(Be32(EncodeCxyz(b)[4..8])) == Cxyz
    ensures Be16(EncodeCxyz(b)[8..10]) == TruncateU16(|b.text|)
    ensures Be16(EncodeCxyz(b)[10..12]) == b.languageCode
    ensures EncodeCxyz(b)[12..] == b.text
  {
    var out := EncodeCxyz(b);
    EncodeHeaderFields(Cxyz, CxyzSize(b));
    assert out[..4] == EncodeHeader(Cxyz, CxyzSize(b))[..4];
    assert out[4..8] == EncodeHeader(Cxyz, CxyzSize(b))[4..];
    Be16RoundTrip(TruncateU16(|b.text|), U16Bytes(TruncateU16(|b.text|)));
    Be16RoundTrip(b.languageCode, U16Bytes(b.languageCode));
    assert out[8..10] == U16Bytes(TruncateU16(|b.text|));
    assert out[10..12] == U16Bytes(b.languageCode);
  }

  /**
   `read_box`: the length first, then the language code, then that many text
   bytes. The declared size is not consulted: how much is consumed is decided
   by the length field in the data. A position before the end of a header makes
   `box_start` underflow; otherwise a short stream is the only failure.
   */
  function DecodeCxyz(rd: Reader, size: nat): (res: Result<(CxyzBox, Reader)>)
    ensures res.Ok? <==>
      && rd.pos >= HEADER_SIZE
      && rd.pos + 4 <= |rd.buf|
      && rd.pos + 4 + Be16(rd.buf[rd.pos..rd.pos + 2]) <= |rd.buf|
    ensures res.Err? ==> res.error == (if rd.pos < HEADER_SIZE then Overflow else Truncated)
    ensures res.Ok? ==>
      var (b, after) := res.value;
      && |b.text| == Be16(rd.buf[rd.pos..rd.pos + 2])
      && b.languageCode == Be16(rd.buf[rd.pos + 2..rd.pos + 4])
      && after == Reader(rd.buf, rd.pos + 4 + |b.text|)
      && b.text == rd.buf[rd.pos + 4..after.pos]
  {
    var start :- BoxStart(rd);
    var (textLen, afterLen) :- ReadU16(rd);
    var (languageCode, afterCode) :- ReadU16(afterLen);
    var (text, afterText) :- ReadBytes(afterCode, textLen);
    Ok((CxyzBox(languageCode, text), afterText))
  }

  /**
   Round trip: reading back a written box, header then body, gives the same
   box and ends exactly at the end of its bytes, for any text of at most 65535
   bytes, whatever size is passed to the body decoder.
   */
  lemma CxyzRoundTrip(b: CxyzBox, buf: seq<Byte>, p: nat, size: nat)
    requires CxyzEncodable(b) && |b.text| <= 0xFFFF
    requires IsAt(buf, p, EncodeCxyz(b))
    ensures ReadHeader(Reader(buf, p)) == Ok((Header(Cxyz, CxyzSize(b)), Reader(buf, p + HEADER_SIZE)))
    ensures DecodeCxyz(Reader(buf, p + HEADER_SIZE), size) == Ok((b, Reader(buf, p + CxyzSize(b))))
  {
    hide ReadHeader, IsAt;
    BodyAt(b, buf, p);
    HeaderRoundTrip(buf, p, Cxyz, CxyzSize(b));
    var q := p + HEADER_SIZE;
    ReadU16At(buf, q, |b.text|);
    ReadU16At(buf, q + 2, b.languageCode);
    ReadBytesAt(buf, q + 4, b.text, |b.text|);
    assert b.text[..|b.text|] == b.text;
  }

  /** Where a written box sits, its header and each body field sit in turn. */
  lemma BodyAt(b: CxyzBox, buf: seq<Byte>, p: nat)
    requires CxyzEncodable(b)
    requires IsAt(buf, p, EncodeCxyz(b))
    ensures IsAt(buf, p, EncodeHeader(Cxyz, CxyzSize(b)))
    ensures IsAt(buf, p + 8, U16Bytes(TruncateU16(|b.text|)))
    ensures IsAt(buf, p + 10, U16Bytes(b.languageCode))
    ensures IsAt(buf, p + 12, b.text)
  {
    var h := EncodeHeader(Cxyz, CxyzSize(b));
    var l := U16Bytes(TruncateU16(|b.text|));
    var c := U16Bytes(b.languageCode);
    assert EncodeCxyz(b) == h + (l + (c + b.text));
    IsAtSplit(buf, p, h, l + (c + b.text));
    IsAtSplit(buf, p + 8, l, c + b.text);
    IsAtSplit(buf, p + 10, c, b.text);
  }

  /**
   The length field is a truncating cast and nothing rejects long text: text
   of more than 65535 bytes is written with a wrapped length, and reading it
   back yields only the first `length mod 65536` bytes, so the box changes.
   */
  lemma CxyzLongTextWraps(b: CxyzBox, buf: seq<Byte>, p: nat, size: nat)
    requires CxyzEncodable(b) && |b.text| > 0xFFFF
    requires IsAt(buf, p, EncodeCxyz(b))
    ensures DecodeCxyz(Reader(buf, p + HEADER_SIZE), size)
         == Ok((CxyzBox(b.languageCode, b.text[..TruncateU16(|b.text|)]),
                Reader(buf, p + HEADER_SIZE + 4 + TruncateU16(|b.text|))))
    ensures DecodeCxyz(Reader(buf, p + HEADER_SIZE), size).value.0 != b
  {
    BodyAt(b, buf, p);
    var q := p + HEADER_SIZE;
    ReadU16At(buf, q, TruncateU16(|b.text|));
    ReadU16At(buf, q + 2, b.languageCode);
    ReadBytesAt(buf, q + 4, b.text, TruncateU16(|b.text|));
  }

  /** The box of the source's unit test: language 0x15c7, text "+41.3758+002.1492/" (18 bytes). */
  function ExampleCxyz(): CxyzBox
  {
    CxyzBox(0x15c7, [0x2b, 0x34, 0x31, 0x2e, 0x33, 0x37, 0x35, 0x38,
                     0x2b, 0x30, 0x30, 0x32, 0x2e, 0x31, 0x34, 0x39, 0x32, 0x2f])
  }

  /** The unit test: 30 bytes are written, and reading them back gives the same box. */
  lemma ExampleCxyzRoundTrip()
    ensures |EncodeCxyz(ExampleCxyz())| == HEADER_SIZE + 4 + 18
    ensures ReadHeader(Reader(EncodeCxyz(ExampleCxyz()), 0))
         == Ok((Header(Cxyz, 30), Reader(EncodeCxyz(ExampleCxyz()), HEADER_SIZE)))
    ensures DecodeCxyz(Reader(EncodeCxyz(ExampleCxyz()), HEADER_SIZE), 30)
         == Ok((ExampleCxyz(), Reader(EncodeCxyz(ExampleCxyz()), 30)))
  {
    var enc := EncodeCxyz(ExampleCxyz());
    IsAtWhole(enc);
    CxyzRoundTrip(ExampleCxyz(), enc, 0, 30);
  }
}
