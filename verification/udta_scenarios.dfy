/**
 Concrete scenarios: the unit tests of the user-data box, and a body mixing a
 kept child with one the decoder skips.
 */
module UdtaScenarios {
  import opened Wire
  import opened Headers
  import opened MetaStandIn
  import opened CxyzCodec
  import opened GpmfCodec
  import opened UdtaCodec
  import opened UdtaProperties

  /** The empty box is written as its 8-byte header alone and reads back empty. */
  lemma ExampleEmptyUdtaBytes()
    ensures EncodeUdta(EMPTY) == [0, 0, 0, 8, 0x75, 0x64, 0x74, 0x61]
  {
  }

  lemma ExampleEmptyUdta()
    ensures ReadHeader(Reader(EncodeUdta(EMPTY), 0)) == Ok((Header(Udta, 8), Reader(EncodeUdta(EMPTY), 8)))
    ensures ReadUdta(Reader(EncodeUdta(EMPTY), 8), 8) == Ok((EMPTY, Reader(EncodeUdta(EMPTY), 8)))
  {
    hide EncodeUdta, ReadUdta, IsAt;
    var enc := EncodeUdta(EMPTY);
    IsAtWhole(enc);
    UdtaRoundTrip(EMPTY, enc, 0);
  }

  /** A box holding all three children, with an empty-bodied meta, the test's cxyz and the test's gpmf. */
  function ExampleFullUdta(): UdtaBox
  {
    UdtaBox(Some(MetaBox([])), Some(ExampleCxyz()), Some(GpmfBox([1, 2, 3, 4])))
  }

  /** The full box is written as 8 + 8 + 30 + 12 bytes and reads back unchanged. */
  lemma ExampleFullUdtaRoundTrip()
    ensures UdtaSize(ExampleFullUdta()) == 58
    ensures ReadHeader(Reader(EncodeUdta(ExampleFullUdta()), 0))
         == Ok((Header(Udta, 58), Reader(EncodeUdta(ExampleFullUdta()), 8)))
    ensures ReadUdta(Reader(EncodeUdta(ExampleFullUdta()), 8), 58)
         == Ok((ExampleFullUdta(), Reader(EncodeUdta(ExampleFullUdta()), 58)))
  {
    hide EncodeUdta, ReadUdta, IsAt;
    var enc := EncodeUdta(ExampleFullUdta());
    IsAtWhole(enc);
    UdtaRoundTrip(ExampleFullUdta(), enc, 0);
  }

  /**
   A body holding the test's cxyz and then a 12-byte `free` box decodes to
   the cxyz alone; writing that record back omits the skipped box.
   */
  lemma UnknownChildDropped(buf: seq<Byte>, p: nat)
    requires IsAt(buf, p + HEADER_SIZE,
                  EncodeChildren([CxyzChild(ExampleCxyz()), OtherChild(Unknown(0x6672_6565), [0, 0, 0, 0])]))
    ensures ReadUdta(Reader(buf, p + HEADER_SIZE), 50)
         == Ok((UdtaBox(None, Some(ExampleCxyz()), None), Reader(buf, p + 50)))
    ensures UdtaSize(UdtaBox(None, Some(ExampleCxyz()), None)) == 50 - 12
  {
    hide EncodeChildren, EncodeChild, IsAt, ReadUdta, ReadChildren;
    var cs := [CxyzChild(ExampleCxyz()), OtherChild(Unknown(0x6672_6565), [0, 0, 0, 0])];
    assert ChildrenSize(cs) == 42 by {
      assert cs[1..][1..] == [];
    }
    assert KeepAll(EMPTY, cs) == UdtaBox(None, Some(ExampleCxyz()), None) by {
      assert cs[1..][1..] == [];
    }
    ReadUdtaOfChildren(buf, p, cs);
  }

  /**
   A 24-byte udta whose body starts with an unknown child declaring 4 bytes
   (less than a header). As written, the pass skips to 4 bytes past that
   child's start, which lands inside its header, where a 12-byte `free`
   header is read and skipped to the udta's end. The loop ends, and the
   corrected pass, which only rejects size 0, decodes it the same way.
   */
  function SmallSkipBody(): seq<Byte>
  {
    [0, 0, 0, 24, 0x75, 0x64, 0x74, 0x61,
     0, 0, 0, 4, 0, 0, 0, 12, 0x66, 0x72, 0x65, 0x65, 0, 0, 0, 0]
  }

  /** The two headers of that body: 4 bytes of type code 12, then 12 bytes of type `free`. */
  lemma SmallSkipHeaders()
    ensures ReadHeader(Reader(SmallSkipBody(), 8)) == Ok((Header(Unknown(12), 4), Reader(SmallSkipBody(), 16)))
    ensures ReadHeader(Reader(SmallSkipBody(), 12))
         == Ok((Header(Unknown(0x6672_6565), 12), Reader(SmallSkipBody(), 20)))
  {
    var buf := SmallSkipBody();
    assert buf[8..12] == [0, 0, 0, 4] && buf[12..16] == [0, 0, 0, 12];
    assert buf[16..20] == [0x66, 0x72, 0x65, 0x65];
    CodeBijection(Unknown(12), 12);
    CodeBijection(Unknown(0x6672_6565), 0x6672_6565);
  }

  lemma SmallSkipTerminates()
    ensures ReadChildAsWritten(24, Reader(SmallSkipBody(), 8), EMPTY) == Ok((EMPTY, Reader(SmallSkipBody(), 12)))
    ensures ReadChildAsWritten(24, Reader(SmallSkipBody(), 12), EMPTY) == Ok((EMPTY, Reader(SmallSkipBody(), 24)))
    ensures ReadUdta(Reader(SmallSkipBody(), 8), 24) == Ok((EMPTY, Reader(SmallSkipBody(), 24)))
  {
    hide ReadHeader, ReadChild, ReadChildAsWritten, SmallSkipBody;
    var buf := SmallSkipBody();
    var first := Reader(buf, 8);
    var second := Reader(buf, 12);
    SmallSkipHeaders();
    ReadChildOutcomes(24, first, EMPTY);
    ReadChildOutcomes(24, second, EMPTY);
    AsWrittenAgreesElsewhere(24, first, EMPTY);
    AsWrittenAgreesElsewhere(24, second, EMPTY);
    ReadChildrenCons(24, 24, second, EMPTY, EMPTY, Reader(buf, 24), Ok((EMPTY, Reader(buf, 24))));
    ReadChildrenCons(24, 24, first, EMPTY, EMPTY, second, Ok((EMPTY, Reader(buf, 24))));
  }
}
