/**
 The opaque metadata leaf box (`GPMF`): its body is the payload, verbatim,
 and its length is the declared size minus the header.
 */
module GpmfCodec {
  import opened Wire
  import opened Headers

  datatype GpmfBox = GpmfBox(data: seq<Byte>)

  /**
   `get_size`: header plus payload, so that the decoder's `size - HEADER_SIZE`
   is exactly the payload's length.
   */
  function GpmfSize(b: GpmfBox): (r: nat)
    ensures r >= HEADER_SIZE && r - HEADER_SIZE == |b.data|
  {
    HEADER_SIZE + |b.data|
  }

  /** The sizes for which the 32-bit header can be written. */
  predicate GpmfEncodable(b: GpmfBox)
  {
    GpmfSize(b) < 0x1_0000_0000
  }

  /**
   `write_box`: the header, then the payload verbatim; as many bytes as
   `get_size`, which is also what `write_box` returns.
   */
  function EncodeGpmf(b: GpmfBox): (out: seq<Byte>)
    requires GpmfEncodable(b)
    ensures |out| == GpmfSize(b)
  {
    EncodeHeader(Gpmf, GpmfSize(b)) + b.data
  }

  /**
   The written bytes, read field by field: a header whose size field is
   `get_size` and whose type code is GPMF's, then the payload unchanged.
   */
  lemma EncodeGpmfLayout(b: GpmfBox)
    requires GpmfEncodable(b)
    ensures Be32(EncodeGpmf(b)[..4]) == GpmfSize(b)
    ensures FromCode(Be32(EncodeGpmf(b)[4..8])) == Gpmf
    ensures EncodeGpmf(b)[HEADER_SIZE..] == b.data
  {
    var out := EncodeGpmf(b);
    EncodeHeaderFields(Gpmf, GpmfSize(b));
    assert out[..4] == EncodeHeader(Gpmf, GpmfSize(b))[..4];
    assert out[4..8] == EncodeHeader(Gpmf, GpmfSize(b))[4..];
  }

  /**
   `read_box`: exactly `size - HEADER_SIZE` bytes, returned unchanged. Both
   `box_start` and `size - HEADER_SIZE` underflow below 8; past those, a
   stream too short for the payload is the only failure.
   */
  function DecodeGpmf(rd: Reader, size: nat): (res: Result<(GpmfBox, Reader)>)
    ensures res.Ok? <==>
      rd.pos >= HEADER_SIZE && size >= HEADER_SIZE && rd.pos + size - HEADER_SIZE <= |rd.buf|
    ensures res.Err? ==>
      res.error == (if rd.pos < HEADER_SIZE || size < HEADER_SIZE then Overflow else Truncated)
    ensures res.Ok? ==>
      var (b, after) := res.value;
      && |b.data| == size - HEADER_SIZE
      && after == Reader(rd.buf, rd.pos + |b.data|)
      && b.data == rd.buf[rd.pos..after.pos]
  {
    var start :- BoxStart(rd);
    if size < HEADER_SIZE then Err(Overflow)
    else
      var (data, after) :- ReadBytes(rd, size - HEADER_SIZE);
      Ok((GpmfBox(data), after))
  }

  /**
   Round trip: decoding with the size the header carries reproduces the same
   payload and ends exactly at the end of the box.
   */
  lemma GpmfRoundTrip(b: GpmfBox, buf: seq<Byte>, p: nat)
    requires GpmfEncodable(b)
    requires IsAt(buf, p, EncodeGpmf(b))
    ensures ReadHeader(Reader(buf, p)) == Ok((Header(Gpmf, GpmfSize(b)), Reader(buf, p + HEADER_SIZE)))
    ensures DecodeGpmf(Reader(buf, p + HEADER_SIZE), GpmfSize(b)) == Ok((b, Reader(buf, p + GpmfSize(b))))
  {
    hide ReadHeader, IsAt;
    IsAtSplit(buf, p, EncodeHeader(Gpmf, GpmfSize(b)), b.data);
    HeaderRoundTrip(buf, p, Gpmf, GpmfSize(b));
    ReadBytesAt(buf, p + HEADER_SIZE, b.data, |b.data|);
    assert b.data[..|b.data|] == b.data;
  }

  /**
   The unit test: payload [1, 2, 3, 4] is written as 12 bytes, its header
   reads back as GPMF of size 12, and the body reads back unchanged.
   */
  lemma ExampleGpmfRoundTrip()
    ensures |EncodeGpmf(GpmfBox([1, 2, 3, 4]))| == 12
    ensures ReadHeader(Reader(EncodeGpmf(GpmfBox([1, 2, 3, 4])), 0))
         == Ok((Header(Gpmf, 12), Reader(EncodeGpmf(GpmfBox([1, 2, 3, 4])), HEADER_SIZE)))
    ensures DecodeGpmf(Reader(EncodeGpmf(GpmfBox([1, 2, 3, 4])), HEADER_SIZE), 12)
         == Ok((GpmfBox([1, 2, 3, 4]), Reader(EncodeGpmf(GpmfBox([1, 2, 3, 4])), 12)))
  {
    var enc := EncodeGpmf(GpmfBox([1, 2, 3, 4]));
    IsAtWhole(enc);
    GpmfRoundTrip(GpmfBox([1, 2, 3, 4]), enc, 0);
  }
}
