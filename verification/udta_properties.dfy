/**
 Properties of the user-data codec, stated over an explicit list of child
 boxes: the size accounting, the canonical write order, the round trip, the
 last-one-wins and skip rules of the decoder, error propagation, and the
 non-terminating skip of the code as written.
 */
module UdtaProperties {
  import opened Wire
  import opened Headers
  import opened MetaStandIn
  import opened CxyzCodec
  import opened GpmfCodec
  import opened UdtaCodec

  /**
   A child box as it may appear in a udta body: one of the three kept types,
   or a box of any other type with an uninterpreted body.
   */
  datatype Child =
    | MetaChild(meta: MetaBox)
    | CxyzChild(cxyz: CxyzBox)
    | GpmfChild(gpmf: GpmfBox)
    | OtherChild(kind: BoxType, body: seq<Byte>)

  function Kind(c: Child): BoxType
  {
    match c
    case MetaChild(_) => Meta
    case CxyzChild(_) => Cxyz
    case GpmfChild(_) => Gpmf
    case OtherChild(k, _) => k
  }

  function ChildSize(c: Child): nat
  {
    match c
    case MetaChild(m) => MetaSize(m)
    case CxyzChild(x) => CxyzSize(x)
    case GpmfChild(g) => GpmfSize(g)
    case OtherChild(_, body) => HEADER_SIZE + |body|
  }

  function EncodeChild(c: Child): (out: seq<Byte>)
    requires ChildSize(c) < 0x1_0000_0000
    ensures |out| == ChildSize(c)
  {
    match c
    case MetaChild(m) => EncodeMeta(m)
    case CxyzChild(x) => EncodeCxyz(x)
    case GpmfChild(g) => EncodeGpmf(g)
    case OtherChild(k, body) => EncodeHeader(k, HEADER_SIZE + |body|) + body
  }

  /**
   A child that reads back as written: its header fits, a cxyz text fits the
   u16 length field, and an other child carries a type the decoder skips.
   */
  predicate Faithful(c: Child)
  {
    && ChildSize(c) < 0x1_0000_0000
    && (c.CxyzChild? ==> |c.cxyz.text| <= 0xFFFF)
    && (c.OtherChild? ==> WellFormedType(c.kind) && !Recognized(c.kind))
  }

  predicate AllFaithful(cs: seq<Child>)
  {
    forall i :: 0 <= i < |cs| ==> Faithful(cs[i])
  }

  /** Every child's header can be written. */
  predicate Writable(cs: seq<Child>)
  {
    forall i :: 0 <= i < |cs| ==> ChildSize(cs[i]) < 0x1_0000_0000
  }

  function ChildrenSize(cs: seq<Child>): nat
  {
    if cs == [] then 0 else ChildSize(cs[0]) + ChildrenSize(cs[1..])
  }

  /** The children written one after the other. */
  function EncodeChildren(cs: seq<Child>): (out: seq<Byte>)
    requires Writable(cs)
    ensures |out| == ChildrenSize(cs)
  {
    if cs == [] then [] else EncodeChild(cs[0]) + EncodeChildren(cs[1..])
  }

  /** What one child does to the record: a kept type fills its slot, any other type changes nothing. */
  function Keep(acc: UdtaBox, c: Child): UdtaBox
  {
    match c
    case MetaChild(m) => acc.(meta := Some(m))
    case CxyzChild(x) => acc.(cxyz := Some(x))
    case GpmfChild(g) => acc.(gpmf := Some(g))
    case OtherChild(_, _) => acc
  }

  function KeepAll(acc: UdtaBox, cs: seq<Child>): UdtaBox
    decreases cs
  {
    if cs == [] then acc else KeepAll(Keep(acc, cs[0]), cs[1..])
  }

  /** The child a record holds for a type, if any. */
  function Slot(u: UdtaBox, t: BoxType): Option<Child>
  {
    match t
    case Meta => if u.meta.Some? then Some(MetaChild(u.meta.value)) else None
    case Cxyz => if u.cxyz.Some? then Some(CxyzChild(u.cxyz.value)) else None
    case Gpmf => if u.gpmf.Some? then Some(GpmfChild(u.gpmf.value)) else None
    case _ => None
  }

  /** The present children, in the order `write_box` emits them: meta, cxyz, gpmf. */
  function Present(u: UdtaBox): seq<Child>
  {
    (if u.meta.Some? then [MetaChild(u.meta.value)] else [])
      + (if u.cxyz.Some? then [CxyzChild(u.cxyz.value)] else [])
      + (if u.gpmf.Some? then [GpmfChild(u.gpmf.value)] else [])
  }

  // ---------------------------------------------------------------------
  // Size and write order
  // ---------------------------------------------------------------------

  lemma {:induction false} ChildrenSizeAppend(a: seq<Child>, b: seq<Child>)
    ensures ChildrenSize(a + b) == ChildrenSize(a) + ChildrenSize(b)
  {
    if a == [] {
      assert a + b == b;
    } else {
      assert (a + b)[0] == a[0];
      assert (a + b)[1..] == a[1..] + b;
      ChildrenSizeAppend(a[1..], b);
    }
  }

  /**
   `get_size` is the header size plus the size of each present child, and it
   is exactly the header size when no child is present.
   */
  lemma UdtaSizeIsSumOfChildren(u: UdtaBox)
    ensures UdtaSize(u) == HEADER_SIZE + ChildrenSize(Present(u))
    ensures UdtaSize(u) == HEADER_SIZE <==> u == EMPTY
  {
    var ms := if u.meta.Some? then [MetaChild(u.meta.value)] else [];
    var xs := if u.cxyz.Some? then [CxyzChild(u.cxyz.value)] else [];
    var gs := if u.gpmf.Some? then [GpmfChild(u.gpmf.value)] else [];
    ChildrenSizeAppend(ms, xs);
    ChildrenSizeAppend(ms + xs, gs);
  }

  lemma {:induction false} EncodeChildrenAppend(a: seq<Child>, b: seq<Child>)
    requires Writable(a) && Writable(b)
    ensures EncodeChildren(a + b) == EncodeChildren(a) + EncodeChildren(b)
  {
    if a == [] {
      assert a + b == b;
    } else {
      assert (a + b)[0] == a[0];
      assert (a + b)[1..] == a[1..] + b;
      EncodeChildrenAppend(a[1..], b);
    }
  }

  /**
   `write_box` emits the header and then exactly the present children, meta
   then cxyz then gpmf, each encoded on its own.
   */
  lemma EncodeUdtaIsCanonical(u: UdtaBox)
    requires UdtaEncodable(u)
    ensures Writable(Present(u))
    ensures EncodeUdta(u) == EncodeHeader(Udta, UdtaSize(u)) + EncodeChildren(Present(u))
  {
    hide EncodeMeta, EncodeCxyz, EncodeGpmf, EncodeHeader, EncodeChildren;
    var m := if u.meta.Some? then EncodeMeta(u.meta.value) else [];
    var x := if u.cxyz.Some? then EncodeCxyz(u.cxyz.value) else [];
    var g := if u.gpmf.Some? then EncodeGpmf(u.gpmf.value) else [];
    EncodePresent(u);
    assert EncodeUdta(u) == EncodeHeader(Udta, UdtaSize(u)) + m + x + g;
  }

  /** The present children, written in order, are meta's bytes, then cxyz's, then gpmf's. */
  lemma EncodePresent(u: UdtaBox)
    requires UdtaEncodable(u)
    ensures Writable(Present(u))
    ensures EncodeChildren(Present(u))
         == (if u.meta.Some? then EncodeMeta(u.meta.value) else [])
          + (if u.cxyz.Some? then EncodeCxyz(u.cxyz.value) else [])
          + (if u.gpmf.Some? then EncodeGpmf(u.gpmf.value) else [])
  {
    hide EncodeMeta, EncodeCxyz, EncodeGpmf, EncodeHeader, EncodeChildren;
    var ms := if u.meta.Some? then [MetaChild(u.meta.value)] else [];
    var xs := if u.cxyz.Some? then [CxyzChild(u.cxyz.value)] else [];
    var gs := if u.gpmf.Some? then [GpmfChild(u.gpmf.value)] else [];
    assert Writable(ms) && Writable(xs) && Writable(gs) && Writable(ms + xs);
    EncodeOptional(ms, if u.meta.Some? then EncodeMeta(u.meta.value) else []);
    EncodeOptional(xs, if u.cxyz.Some? then EncodeCxyz(u.cxyz.value) else []);
    EncodeOptional(gs, if u.gpmf.Some? then EncodeGpmf(u.gpmf.value) else []);
    EncodeChildrenAppend(ms, xs);
    EncodeChildrenAppend(ms + xs, gs);
    assert Present(u) == ms + xs + gs;
  }

  /** At most one child, written on its own. */
  lemma EncodeOptional(cs: seq<Child>, out: seq<Byte>)
    requires |cs| <= 1 && Writable(cs)
    requires out == if cs == [] then [] else EncodeChild(cs[0])
    ensures EncodeChildren(cs) == out
  {
    if cs != [] {
      assert cs[1..] == [];
    }
  }

  /** The present children of a record rebuild exactly that record. */
  lemma KeepAllPresent(u: UdtaBox)
    ensures KeepAll(EMPTY, Present(u)) == u
  {
    var ms := if u.meta.Some? then [MetaChild(u.meta.value)] else [];
    var xs := if u.cxyz.Some? then [CxyzChild(u.cxyz.value)] else [];
    var gs := if u.gpmf.Some? then [GpmfChild(u.gpmf.value)] else [];
    KeepAllAppend(EMPTY, ms, xs);
    KeepAllAppend(EMPTY, ms + xs, gs);
  }

  lemma {:induction false} KeepAllAppend(acc: UdtaBox, a: seq<Child>, b: seq<Child>)
    ensures KeepAll(acc, a + b) == KeepAll(KeepAll(acc, a), b)
    decreases a
  {
    if a == [] {
      assert a + b == b;
    } else {
      assert (a + b)[0] == a[0];
      assert (a + b)[1..] == a[1..] + b;
      KeepAllAppend(Keep(acc, a[0]), a[1..], b);
    }
  }

  // ---------------------------------------------------------------------
  // Last one wins, unknown types change nothing
  // ---------------------------------------------------------------------

  /**
   When a kept type occurs in the children, the record holds its LAST
   occurrence: earlier ones are overwritten.
   */
  lemma {:induction false} KeepAllHoldsLast(acc: UdtaBox, cs: seq<Child>, i: nat)
    requires i < |cs| && !cs[i].OtherChild?
    requires forall j :: i < j < |cs| ==> Kind(cs[j]) != Kind(cs[i])
    ensures Slot(KeepAll(acc, cs), Kind(cs[i])) == Some(cs[i])
    decreases cs
  {
    assert KeepAll(acc, cs) == KeepAll(Keep(acc, cs[0]), cs[1..]);
    if i == 0 {
      KeepAllUntouched(Keep(acc, cs[0]), cs[1..], Kind(cs[0]));
    } else {
      KeepAllHoldsLast(Keep(acc, cs[0]), cs[1..], i - 1);
    }
  }

  /**
   A slot no child speaks for keeps what it held; in particular children of
   any type other than meta, cxyz and gpmf change nothing.
   */
  lemma {:induction false} KeepAllUntouched(acc: UdtaBox, cs: seq<Child>, t: BoxType)
    requires forall j :: 0 <= j < |cs| ==> Kind(cs[j]) != t
    ensures Slot(KeepAll(acc, cs), t) == Slot(acc, t)
    decreases cs
  {
    if cs != [] {
      assert Kind(cs[0]) != t;
      KeepAllUntouched(Keep(acc, cs[0]), cs[1..], t);
    }
  }

  /**
   What the decoder keeps is never larger than what it read: each child
   either fills a slot (replacing at most one earlier child's bytes) or is
   dropped, so re-encoding a decoded record never grows it.
   */
  lemma {:induction false} KeepAllNeverGrows(acc: UdtaBox, cs: seq<Child>)
    ensures UdtaSize(KeepAll(acc, cs)) <= UdtaSize(acc) + ChildrenSize(cs)
    decreases cs
  {
    if cs != [] {
      assert UdtaSize(Keep(acc, cs[0])) <= UdtaSize(acc) + ChildSize(cs[0]);
      KeepAllNeverGrows(Keep(acc, cs[0]), cs[1..]);
    }
  }

  // ---------------------------------------------------------------------
  // Decoding encoded children
  // ---------------------------------------------------------------------

  /** One pass of the loop over a written child decodes it into its slot and stops at its end. */
  lemma ReadChildOfEncoded(parentSize: nat, buf: seq<Byte>, p: nat, c: Child, acc: UdtaBox)
    requires Faithful(c) && ChildSize(c) <= parentSize
    requires IsAt(buf, p, EncodeChild(c))
    ensures ReadChild(parentSize, Reader(buf, p), acc) == Ok((Keep(acc, c), Reader(buf, p + ChildSize(c))))
  {
    hide ReadHeader, DecodeMeta, DecodeCxyz, DecodeGpmf, EncodeMeta, EncodeCxyz, EncodeGpmf, IsAt;
    match c
    case MetaChild(m) => MetaRoundTrip(m, buf, p);
    case CxyzChild(x) => CxyzRoundTrip(x, buf, p, CxyzSize(x));
    case GpmfChild(g) => GpmfRoundTrip(g, buf, p);
    case OtherChild(k, body) =>
      IsAtSplit(buf, p, EncodeHeader(k, ChildSize(c)), body);
      HeaderRoundTrip(buf, p, k, ChildSize(c));
  }

  /**
   The loop over a run of written children, ending exactly where they end,
   succeeds with the slot updates of every child in order.
   */
  lemma {:induction false} ReadChildrenOfEncoded(parentSize: nat, buf: seq<Byte>, p: nat, cs: seq<Child>, acc: UdtaBox)
    requires AllFaithful(cs)
    requires forall i :: 0 <= i < |cs| ==> ChildSize(cs[i]) <= parentSize
    requires IsAt(buf, p, EncodeChildren(cs))
    ensures ReadChildren(parentSize, p + ChildrenSize(cs), Reader(buf, p), acc)
         == Ok((KeepAll(acc, cs), Reader(buf, p + ChildrenSize(cs))))
    decreases cs
  {
    hide ReadChild, ReadHeader, EncodeChild, IsAt;
    if cs == [] {
      assert ChildrenSize(cs) == 0 && KeepAll(acc, cs) == acc;
    } else {

      var end := p + ChildrenSize(cs);
      var rest := cs[1..];
      var q := p + ChildSize(cs[0]);
      assert IsAt(buf, p, EncodeChild(cs[0])) && IsAt(buf, q, EncodeChildren(rest)) by {
        IsAtSplit(buf, p, EncodeChild(cs[0]), EncodeChildren(rest));
      }
      ReadChildOfEncoded(parentSize, buf, p, cs[0], acc);
      assert end == q + ChildrenSize(rest);
      ReadChildrenOfEncoded(parentSize, buf, q, rest, Keep(acc, cs[0]));
      ReadChildrenCons(parentSize, end, Reader(buf, p), acc, Keep(acc, cs[0]), Reader(buf, q),
                       Ok((KeepAll(Keep(acc, cs[0]), rest), Reader(buf, end))));
      assert KeepAll(acc, cs) == KeepAll(Keep(acc, cs[0]), rest);
    }
  }

  /** A successful pass of the loop below `end` hands over to the rest of the loop. */
  lemma ReadChildrenCons(parentSize: nat, end: nat, rd: Reader, acc: UdtaBox, acc': UdtaBox, next: Reader,
                         rest: Result<(UdtaBox, Reader)>)
    requires rd.pos < end
    requires ReadChild(parentSize, rd, acc) == Ok((acc', next))
    requires ReadChildren(parentSize, end, next, acc') == rest
    ensures ReadChildren(parentSize, end, rd, acc) == rest
  {
  }

  lemma {:induction false} ChildWithinChildren(cs: seq<Child>, i: nat)
    requires i < |cs|
    ensures ChildSize(cs[i]) <= ChildrenSize(cs)
  {
    if i > 0 {
      ChildWithinChildren(cs[1..], i - 1);
    }
  }

  /**
   A udta body made of any children in any order, kept types repeated or
   not, decodes to the record of the last child of each kept type, skipping
   every other type, and the stream ends at the box's end.
   */
  lemma ReadUdtaOfChildren(buf: seq<Byte>, p: nat, cs: seq<Child>)
    requires AllFaithful(cs)
    requires IsAt(buf, p + HEADER_SIZE, EncodeChildren(cs))
    ensures ReadUdta(Reader(buf, p + HEADER_SIZE), HEADER_SIZE + ChildrenSize(cs))
         == Ok((KeepAll(EMPTY, cs), Reader(buf, p + HEADER_SIZE + ChildrenSize(cs))))
  {
    hide ReadChild, ReadHeader, EncodeChild, IsAt;
    var size := HEADER_SIZE + ChildrenSize(cs);
    forall i | 0 <= i < |cs|
      ensures ChildSize(cs[i]) <= size
    {
      ChildWithinChildren(cs, i);
    }
    ReadChildrenOfEncoded(size, buf, p + HEADER_SIZE, cs, EMPTY);
  }

  /**
   Round trip of the composite: the header written by `write_box` reads back
   with type udta and `get_size`, and `read_box` on the rest gives back the
   same record and leaves the stream at the end of the box.
   */
  lemma UdtaRoundTrip(u: UdtaBox, buf: seq<Byte>, p: nat)
    requires UdtaEncodable(u)
    requires u.cxyz.Some? ==> |u.cxyz.value.text| <= 0xFFFF
    requires IsAt(buf, p, EncodeUdta(u))
    ensures ReadHeader(Reader(buf, p)) == Ok((Header(Udta, UdtaSize(u)), Reader(buf, p + HEADER_SIZE)))
    ensures ReadUdta(Reader(buf, p + HEADER_SIZE), UdtaSize(u)) == Ok((u, Reader(buf, p + UdtaSize(u))))
  {
    hide ReadUdta, ReadChildren, ReadChild, ReadHeader, EncodeUdta, EncodeChildren, EncodeChild, IsAt;
    EncodeUdtaIsCanonical(u);
    UdtaSizeIsSumOfChildren(u);
    var cs := Present(u);
    IsAtSplit(buf, p, EncodeHeader(Udta, UdtaSize(u)), EncodeChildren(cs));
    HeaderRoundTrip(buf, p, Udta, UdtaSize(u));
    assert AllFaithful(cs);
    ReadUdtaOfChildren(buf, p, cs);
    KeepAllPresent(u);
  }

  // ---------------------------------------------------------------------
  // Failures
  // ---------------------------------------------------------------------

  /**
   A failing child aborts the whole decode with its error: whatever the
   children before it produced is discarded.
   */
  lemma {:induction false} ErrorAborts(parentSize: nat, end: nat, buf: seq<Byte>, p: nat, cs: seq<Child>, acc: UdtaBox)
    requires AllFaithful(cs)
    requires forall i :: 0 <= i < |cs| ==> ChildSize(cs[i]) <= parentSize
    requires IsAt(buf, p, EncodeChildren(cs))
    requires p + ChildrenSize(cs) < end
    requires ReadChild(parentSize, Reader(buf, p + ChildrenSize(cs)), KeepAll(acc, cs)).Err?
    ensures ReadChildren(parentSize, end, Reader(buf, p), acc)
         == Err(ReadChild(parentSize, Reader(buf, p + ChildrenSize(cs)), KeepAll(acc, cs)).error)
    decreases cs
  {
    hide ReadChild, ReadHeader, EncodeChild, IsAt;
    var err := ReadChild(parentSize, Reader(buf, p + ChildrenSize(cs)), KeepAll(acc, cs)).error;
    if cs == [] {
      assert ChildrenSize(cs) == 0 && KeepAll(acc, cs) == acc;
      ReadChildrenStops(parentSize, end, Reader(buf, p), acc);
      assert ReadChildren(parentSize, end, Reader(buf, p), acc) == Err(err);
    } else {
      var rest := cs[1..];
      var q := p + ChildSize(cs[0]);
      assert IsAt(buf, p, EncodeChild(cs[0])) && IsAt(buf, q, EncodeChildren(rest)) by {
        IsAtSplit(buf, p, EncodeChild(cs[0]), EncodeChildren(rest));
      }
      ReadChildOfEncoded(parentSize, buf, p, cs[0], acc);
      assert q + ChildrenSize(rest) == p + ChildrenSize(cs);
      assert KeepAll(acc, cs) == KeepAll(Keep(acc, cs[0]), rest);
      ErrorAborts(parentSize, end, buf, q, rest, Keep(acc, cs[0]));
      ReadChildrenCons(parentSize, end, Reader(buf, p), acc, Keep(acc, cs[0]), Reader(buf, q), Err(err));
      assert ReadChildren(parentSize, end, Reader(buf, p), acc) == Err(err);
    }
  }

  /** A failing pass below `end` ends the loop with its error. */
  lemma ReadChildrenStops(parentSize: nat, end: nat, rd: Reader, acc: UdtaBox)
    requires rd.pos < end
    requires ReadChild(parentSize, rd, acc).Err?
    ensures ReadChildren(parentSize, end, rd, acc) == Err(ReadChild(parentSize, rd, acc).error)
  {
  }

  /**
   A child's size is checked against the WHOLE parent's size, not against
   what is left of it: a single unknown child of any size up to the parent's
   is skipped and the decode succeeds, even when the child reaches past the
   parent's end; the final seek then moves the stream back to that end. A
   child larger than the parent is rejected.
   */
  lemma ChildCheckedAgainstWholeParent(buf: seq<Byte>, p: nat, size: nat, t: BoxType, n: nat)
    requires WellFormedType(t) && !Recognized(t)
    requires 0 < n < 0x1_0000_0000
    requires HEADER_SIZE < size <= HEADER_SIZE + n
    requires IsAt(buf, p + HEADER_SIZE, EncodeHeader(t, n))
    ensures n <= size ==>
      && ReadChildren(size, p + size, Reader(buf, p + HEADER_SIZE), EMPTY)
           == Ok((EMPTY, Reader(buf, p + HEADER_SIZE + n)))
      && ReadUdta(Reader(buf, p + HEADER_SIZE), size) == Ok((EMPTY, Reader(buf, p + size)))
    ensures n > size ==> ReadUdta(Reader(buf, p + HEADER_SIZE), size) == Err(InvalidData)
  {
    hide ReadChild, ReadHeader, IsAt;
    var rd := Reader(buf, p + HEADER_SIZE);
    HeaderRoundTrip(buf, p + HEADER_SIZE, t, n);
    ReadChildOutcomes(size, rd, EMPTY);
    if n <= size {
      ReadChildrenCons(size, p + size, rd, EMPTY, EMPTY, Reader(buf, p + HEADER_SIZE + n),
                       Ok((EMPTY, Reader(buf, p + HEADER_SIZE + n))));
    } else {
      ReadChildrenStops(size, p + size, rd, EMPTY);
    }
  }

  // ---------------------------------------------------------------------
  // The zero-size child
  // ---------------------------------------------------------------------

  /**
   As written, an unknown child declaring size 0 is "skipped" back onto its
   own header: the pass returns the record unchanged and the stream exactly
   where it started, so the loop repeats the same pass forever. The corrected
   pass rejects it.
   */
  lemma ZeroSizeChildLoopsForever(parentSize: nat, buf: seq<Byte>, p: nat, t: BoxType, acc: UdtaBox)
    requires WellFormedType(t) && !Recognized(t)
    requires IsAt(buf, p, EncodeHeader(t, 0))
    ensures ReadChildAsWritten(parentSize, Reader(buf, p), acc) == Ok((acc, Reader(buf, p)))
    ensures ReadChild(parentSize, Reader(buf, p), acc) == Err(InvalidData)
  {
    HeaderRoundTrip(buf, p, t, 0);
    ReadChildOutcomes(parentSize, Reader(buf, p), acc);
  }

  /**
   The correction changes nothing else: whenever the header cannot be read,
   names a kept type, or declares a nonzero size, the corrected pass and the
   pass as written agree.
   */
  lemma AsWrittenAgreesElsewhere(parentSize: nat, rd: Reader, acc: UdtaBox)
    requires ReadHeader(rd).Ok? ==>
      Recognized(ReadHeader(rd).value.0.name) || ReadHeader(rd).value.0.size > 0
    ensures ReadChildAsWritten(parentSize, rd, acc) == ReadChild(parentSize, rd, acc)
  {
    ReadChildOutcomes(parentSize, rd, acc);
  }
}
