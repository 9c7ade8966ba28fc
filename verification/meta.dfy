/**
 A stand-in for the `meta` box. The real `MetaBox` codec (`mp4box/meta.rs`)
 is not part of this model. The user-data box relies on it only through four
 facts, which the stand-in has and proves:
   - its size is at least the header size;
   - it is written as a header of type `meta` with that size, then a body;
   - reading it back with the header's size gives the same box and ends
     exactly at the end of its bytes;
   - its decoder never moves the stream backwards.
 The stand-in keeps the body as uninterpreted bytes.
 */
module MetaStandIn {
  import opened Wire
  import opened Headers

  datatype MetaBox = MetaBox(body: seq<Byte>)

  /** The stand-in for `MetaBox::box_size`. */
  function MetaSize(m: MetaBox): nat
  {
    HEADER_SIZE + |m.body|
  }

  predicate MetaEncodable(m: MetaBox)
  {
    MetaSize(m) < 0x1_0000_0000
  }

  /** The stand-in for `MetaBox::write_box`: a `meta` header of `MetaSize` then the body. */
  function EncodeMeta(m: MetaBox): (out: seq<Byte>)
    requires MetaEncodable(m)
    ensures |out| == MetaSize(m) >= HEADER_SIZE
  {
    EncodeHeader(Meta, MetaSize(m)) + m.body
  }

  /** The stand-in for `MetaBox::read_box`; it fails, or moves forward by `size - HEADER_SIZE`. */
  function DecodeMeta(rd: Reader, size: nat): (res: Result<(MetaBox, Reader)>)
    ensures res.Ok? ==> size >= HEADER_SIZE
    ensures res.Ok? ==> res.value.1 == Reader(rd.buf, rd.pos + size - HEADER_SIZE)
  {
    var start :- BoxStart(rd);
    if size < HEADER_SIZE then Err(Overflow)
    else
      var (body, after) :- ReadBytes(rd, size - HEADER_SIZE);
      Ok((MetaBox(body), after))
  }

  /** Round trip of the stand-in, in the same form as the leaf codecs'. */
  lemma MetaRoundTrip(m: MetaBox, buf: seq<Byte>, p: nat)
    requires MetaEncodable(m)
    requires IsAt(buf, p, EncodeMeta(m))
    ensures ReadHeader(Reader(buf, p)) == Ok((Header(Meta, MetaSize(m)), Reader(buf, p + HEADER_SIZE)))
    ensures DecodeMeta(Reader(buf, p + HEADER_SIZE), MetaSize(m)) == Ok((m, Reader(buf, p + MetaSize(m))))
  {
    hide ReadHeader, IsAt;
    IsAtSplit(buf, p, EncodeHeader(Meta, MetaSize(m)), m.body);
    HeaderRoundTrip(buf, p, Meta, MetaSize(m));
    ReadBytesAt(buf, p + HEADER_SIZE, m.body, |m.body|);
    assert m.body[..|m.body|] == m.body;
  }
}
