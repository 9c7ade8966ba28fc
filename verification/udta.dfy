/**
 The User Data Box (`udta`, section 8.10.1 of ISO/IEC 14496-12) as a
 composite box. Decoding reads child boxes until the box's declared extent is
 used up, keeps at most one `meta`, one `\xa9xyz` and one `GPMF` child (a
 later one replaces an earlier one), and skips children of any other type.
 Encoding writes the header, then whichever of meta, cxyz and gpmf are
 present, in that order.
 */
module UdtaCodec {
  import opened Wire
  import opened Headers
  import opened MetaStandIn
  import opened CxyzCodec
  import opened GpmfCodec

  datatype UdtaBox = UdtaBox(meta: Option<MetaBox>, cxyz: Option<CxyzBox>, gpmf: Option<GpmfBox>)

  /** The record the decoder starts from: every slot empty. */
  const EMPTY := UdtaBox(None, None, None)

  /** The child types the decoder keeps. */
  predicate Recognized(t: BoxType)
  {
    t == Meta || t == Cxyz || t == Gpmf
  }

  /**
   `get_size`: the header plus the size of each present child. It is at
   least each present child's size plus the header, and it is the header's
   size alone exactly when no child is present.
   */
  function UdtaSize(u: UdtaBox): (r: nat)
    ensures u.meta.Some? ==> r >= HEADER_SIZE + MetaSize(u.meta.value)
    ensures u.cxyz.Some? ==> r >= HEADER_SIZE + CxyzSize(u.cxyz.value)
    ensures u.gpmf.Some? ==> r >= HEADER_SIZE + GpmfSize(u.gpmf.value)
    ensures r == HEADER_SIZE <==> u.meta.None? && u.cxyz.None? && u.gpmf.None?
  {
    HEADER_SIZE
      + (if u.meta.Some? then MetaSize(u.meta.value) else 0)
      + (if u.cxyz.Some? then CxyzSize(u.cxyz.value) else 0)
      + (if u.gpmf.Some? then GpmfSize(u.gpmf.value) else 0)
  }

  /** The sizes for which the 32-bit header can be written. */
  predicate UdtaEncodable(u: UdtaBox)
  {
    UdtaSize(u) < 0x1_0000_0000
  }

  /**
   `write_box`: the header with `get_size`, then meta, cxyz and gpmf, each only
   when present. Exactly `get_size` bytes are written, which is also what
   `write_box` returns.
   */
  function EncodeUdta(u: UdtaBox): (out: seq<Byte>)
    requires UdtaEncodable(u)
    ensures |out| == UdtaSize(u)
  {
    EncodeHeader(Udta, UdtaSize(u))
      + (if u.meta.Some? then EncodeMeta(u.meta.value) else [])
      + (if u.cxyz.Some? then EncodeCxyz(u.cxyz.value) else [])
      + (if u.gpmf.Some? then EncodeGpmf(u.gpmf.value) else [])
  }

  /** `b` agrees with `a` on every slot except possibly the one for type `t`. */
  predicate SameOutside(a: UdtaBox, b: UdtaBox, t: BoxType)
  {
    && (t != Meta ==> b.meta == a.meta)
    && (t != Cxyz ==> b.cxyz == a.cxyz)
    && (t != Gpmf ==> b.gpmf == a.gpmf)
  }

  /** Every slot filled in `a` is still filled in `b`. */
  predicate KeepsFilled(a: UdtaBox, b: UdtaBox)
  {
    && (a.meta.Some? ==> b.meta.Some?)
    && (a.cxyz.Some? ==> b.cxyz.Some?)
    && (a.gpmf.Some? ==> b.gpmf.Some?)
  }

  /**
   One pass of the child loop: read a header, reject a child larger than the
   whole parent, then decode a recognized child into its slot or skip an
   unknown one by its declared size.

   This is the loop body with one correction: an unknown child declaring
   size 0 is rejected. As written, `skip_box` seeks to the child's start plus
   its size, so a declared size of 0 goes back to the same header and the
   loop never ends (see `ReadChildAsWritten`). With the correction every
   successful pass moves the stream forward.
   */
  function ReadChild(parentSize: nat, rd: Reader, acc: UdtaBox): (res: Result<(UdtaBox, Reader)>)
    ensures res.Ok? ==> res.value.1.buf == rd.buf && res.value.1.pos > rd.pos
  {
    var (h, afterHeader) :- ReadHeader(rd);
    if h.size > parentSize then Err(InvalidData)
    else
      match h.name
      case Meta =>
        var (m, next) :- DecodeMeta(afterHeader, h.size);
        Ok((acc.(meta := Some(m)), next))
      case Cxyz =>
        var (c, next) :- DecodeCxyz(afterHeader, h.size);
        Ok((acc.(cxyz := Some(c)), next))
      case Gpmf =>
        var (g, next) :- DecodeGpmf(afterHeader, h.size);
        Ok((acc.(gpmf := Some(g)), next))
      case _ =>
        if h.size == 0 then Err(InvalidData)
        else
          match SkipBox(afterHeader, h.size)
          case Ok(next) => Ok((acc, next))
          case Err(e) => Err(e)
  }

  /**
   What one pass does, case by case: a failed header read or a child
   declaring more than the whole parent's size fails; an unknown child is
   skipped by its declared size (or rejected when that size is 0); any
   success changes at most the slot named by the header, never empties a
   slot, and moves the stream forward.
   */
  lemma ReadChildOutcomes(parentSize: nat, rd: Reader, acc: UdtaBox)
    ensures ReadHeader(rd).Err? ==> ReadChild(parentSize, rd, acc) == Err(ReadHeader(rd).error)
    ensures ReadHeader(rd).Ok? && ReadHeader(rd).value.0.size > parentSize ==>
      ReadChild(parentSize, rd, acc) == Err(InvalidData)
    ensures ReadHeader(rd).Ok? && !Recognized(ReadHeader(rd).value.0.name) ==>
      var h := ReadHeader(rd).value.0;
      ReadChild(parentSize, rd, acc)
        == if h.size == 0 || h.size > parentSize then Err(InvalidData)
           else Ok((acc, Reader(rd.buf, rd.pos + h.size)))
    ensures ReadChild(parentSize, rd, acc).Ok? ==>
      var (u, next) := ReadChild(parentSize, rd, acc).value;
      && ReadHeader(rd).Ok?
      && SameOutside(acc, u, ReadHeader(rd).value.0.name)
      && KeepsFilled(acc, u)
      && next.buf == rd.buf
      && next.pos > rd.pos
  {
  }

  /**
   The child loop: while the actual stream position is below `end`, run one
   pass. The first failing pass ends the whole loop with its error.
   */
  function ReadChildren(parentSize: nat, end: nat, rd: Reader, acc: UdtaBox): (res: Result<(UdtaBox, Reader)>)
    ensures rd.pos >= end ==> res == Ok((acc, rd))
    ensures res.Ok? ==>
      && res.value.1.buf == rd.buf
      && res.value.1.pos >= end
      && KeepsFilled(acc, res.value.0)
    decreases if rd.pos < end then end - rd.pos else 0
  {
    if rd.pos >= end then Ok((acc, rd))
    else
      ReadChildOutcomes(parentSize, rd, acc);
      var (acc', next) :- ReadChild(parentSize, rd, acc);
      ReadChildren(parentSize, end, next, acc')
  }

  /**
   `read_box`, called just after the udta header: `start` is that header's
   position and `end` is `start + size`. After the loop the stream is moved to
   exactly `end`, however far the children actually went.
   */
  function ReadUdta(rd: Reader, size: nat): (res: Result<(UdtaBox, Reader)>)
    ensures rd.pos < HEADER_SIZE ==> res == Err(Overflow)
    ensures rd.pos >= HEADER_SIZE && size <= HEADER_SIZE ==>
      res == Ok((EMPTY, Reader(rd.buf, rd.pos - HEADER_SIZE + size)))
    ensures res.Ok? ==> res.value.1 == Reader(rd.buf, rd.pos - HEADER_SIZE + size)
  {
    var start :- BoxStart(rd);
    var end := start + size;
    var (u, after) :- ReadChildren(size, end, rd, EMPTY);
    Ok((u, SkipBytesTo(after, end)))
  }

  /**
   `read_box` as the source writes it, a `while` loop over the stream
   position; it computes the same outcome as `ReadUdta`.
   */
  method ReadUdtaLoop(rd: Reader, size: nat) returns (res: Result<(UdtaBox, Reader)>)
    ensures res == ReadUdta(rd, size)
  {
    hide ReadChild;
    if rd.pos < HEADER_SIZE {
      return Err(Overflow);
    }
    var start := rd.pos - HEADER_SIZE;
    var end := start + size;
    ghost var whole := ReadChildren(size, end, rd, EMPTY);
    assert ReadUdta(rd, size) == if whole.Err? then Err(whole.error) else Ok((whole.value.0, Reader(rd.buf, end)));
    var acc := EMPTY;
    var current := rd;
    while current.pos < end
      invariant current.buf == rd.buf
      invariant ReadChildren(size, end, current, acc) == whole
      decreases end - current.pos
    {
      var step := ReadChild(size, current, acc);
      if step.Err? {
        return Err(step.error);
      }
      acc, current := step.value.0, step.value.1;
    }
    return Ok((acc, SkipBytesTo(current, end)));
  }

  /**
   The loop body exactly as written: an unknown child is skipped by
   `skip_box` whatever size it declares. A pass never moves the stream
   backwards, but it may leave it where it was.
   */
  function ReadChildAsWritten(parentSize: nat, rd: Reader, acc: UdtaBox): (res: Result<(UdtaBox, Reader)>)
    ensures res.Ok? ==> res.value.1.buf == rd.buf && res.value.1.pos >= rd.pos
  {
    var (h, afterHeader) :- ReadHeader(rd);
    if h.size > parentSize then Err(InvalidData)
    else if Recognized(h.name) then ReadChild(parentSize, rd, acc)
    else
      match SkipBox(afterHeader, h.size)
      case Ok(next) => Ok((acc, next))
      case Err(e) => Err(e)
  }
}
