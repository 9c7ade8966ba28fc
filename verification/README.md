# User-data box codec of mp4-rust, modelled in Dafny

This project models three box codecs of the `mp4` crate:

- the user-data box `udta` (section 8.10.1 of ISO/IEC 14496-12). It is a
  container. Its decoder walks child boxes until the box's declared extent
  is used up. It keeps the last `meta`, `©xyz` and `GPMF` child it meets and
  skips every other child by its declared size. Its encoder writes the
  header and then whichever of meta, cxyz and gpmf are present, in that
  order.
- the `©xyz` location box. Its body is a big-endian u16 text length, a
  big-endian u16 language code, and then the text bytes.
- the `GPMF` box. Its body is an opaque payload of declared size minus 8.

Everything is pure functions over an immutable byte sequence. A reader
is a buffer plus a position, with the semantics of an in-memory cursor:
- a seek may go anywhere;
- a read past the end fails with `Truncated`.

Module layout:

- `Wire` (wire.dfy): bytes, big-endian fields, the reader, the
  `Result`/`Option` wrappers, and the `IsAt` predicate ("these bytes sit in
  the buffer at this position").
- `Headers` (headers.dfy): box types and their four-character codes, the
  8-byte header (u32 size, u32 type), and the stream helpers the codecs
  call: box start, seek to a position, skip a box.
- `MetaStandIn` (meta.dfy): a stand-in for the `meta` box; see Left out.
- `CxyzCodec` (cxyz.dfy), `GpmfCodec` (gpmf.dfy): the leaf codecs, each
  with a round trip.
- `UdtaCodec` (udta.dfy): the composite codec. It has:
  - the child loop as a recursive function;
  - the source's `while` loop as a method proved equal to it;
  - the loop body as written, next to its corrected form (see Findings).
- `UdtaProperties` (udta_properties.dfy): properties over an explicit list
  of children. They cover size accounting, canonical write order, the
  round trip, "last one wins", "unknown types change nothing", error
  propagation, the size check, and the zero-size child.
- `UdtaScenarios` (udta_scenarios.dfy): the unit tests as lemmas, and a
  mixed body whose unknown child is dropped.

The model follows the code as written, including:

- Nothing rejects cxyz text longer than 65535 bytes. The length field is a
  truncating `as u16` cast, so such a box is written with a wrapped length
  and reads back shortened (`CxyzCodec.CxyzLongTextWraps`).
- A child's declared size is compared with the whole udta size, not with
  what remains of it (`UdtaProperties.ChildCheckedAgainstWholeParent`).
- The loop condition uses the actual stream position after each child.
- The final seek to the udta's end may move backwards, and nothing reports
  that.
- The cxyz decoder ignores the size it is given.
- The text "+41.3758+002.1492/" of the cxyz unit test is 18 bytes long,
  which makes its box 30 bytes.

## Model

| member | source | states |
|---|---|---|
| Wire.TruncateU16 | src/mp4box/cxyz.rs:64 | the `as u16` cast keeps lengths below 65536 unchanged, never grows a length, and differs from it by a multiple of 65536 |
| Wire.Be16RoundTrip | src/mp4box/cxyz.rs:44-45 | a u16 written big-endian reads back as the same value |
| Headers.FromCode | src/mp4box/udta.rs:78-91 | a type code read from a header is one of meta, cxyz, gpmf or udta exactly when it is that type's four-character code; any other code becomes an unknown type that keeps the code |
| Headers.CodeBijection | src/mp4box/udta.rs:78-91 | the type dispatch and the written type code are inverse: every code maps to a type that writes back as that code, and every well-formed type survives the trip |
| Headers.ReadHeader | src/mp4box/udta.rs:70-71 | a header read fails, as truncated, exactly when fewer than 8 bytes remain; otherwise it consumes 8 bytes, the size is the big-endian first word and the type is the one whose code is the second word |
| Headers.EncodeHeader | src/mp4box/udta.rs:110 | a written header is always 8 bytes |
| Headers.EncodeHeaderFields | src/mp4box/udta.rs:110 | a written header carries the size in its first big-endian word and the type's code in its second |
| Headers.BoxStart | src/mp4box/udta.rs:60 | `box_start` succeeds exactly when the position is at least 8, and then gives the position of the header just read; before that it underflows |
| Headers.SkipBox | src/mp4box/udta.rs:88-91 | `skip_box` succeeds exactly when `box_start` does, and moves the stream to the header's start plus the declared size, forwards or backwards |
| Headers.SkipBytesTo | src/mp4box/udta.rs:97 | `skip_bytes_to` is an absolute seek on the same stream, whatever the current position |
| Headers.HeaderRoundTrip | src/mp4box/udta.rs:70-71 | a written 8-byte header reads back with the same type and size and leaves the reader just after it |
| CxyzCodec.CxyzSize | src/mp4box/cxyz.rs:17-19 | `get_size` counts the header, the two u16 fields as written, and the text bytes |
| CxyzCodec.EncodeCxyz | src/mp4box/cxyz.rs:60-69 | `write_box` emits exactly `get_size` bytes |
| CxyzCodec.EncodeCxyzLayout | src/mp4box/cxyz.rs:62-66 | read back field by field, the written bytes give a size word equal to `get_size`, a type word that maps to cxyz, the text length mod 65536, the language code, then the text |
| CxyzCodec.DecodeCxyz | src/mp4box/cxyz.rs:41-56 | decoding succeeds exactly when the position is past a header and the stream holds the two fields and the announced text; it fails with underflow before a header and with truncation otherwise; on success the fields are the buffer's bytes and the reader moves past the text |
| CxyzCodec.CxyzRoundTrip | src/mp4box/cxyz.rs:41-69 | any box whose text fits the u16 length reads back identical, whatever size is passed, ending exactly at the end of its bytes |
| CxyzCodec.CxyzLongTextWraps | src/mp4box/cxyz.rs:44-66 | text longer than 65535 bytes reads back cut to its length mod 65536, so the box read differs from the box written |
| CxyzCodec.ExampleCxyzRoundTrip | src/mp4box/cxyz.rs:77-96 | the unit test: language 0x15c7 with "+41.3758+002.1492/" is written as 30 bytes and reads back unchanged |
| GpmfCodec.GpmfSize | src/mp4box/gpmf.rs:16-18 | `get_size` is at least the header size, and subtracting the header size, as the decoder does, gives exactly the payload length |
| GpmfCodec.EncodeGpmf | src/mp4box/gpmf.rs:55-62 | `write_box` emits exactly `get_size` bytes, the value it returns |
| GpmfCodec.EncodeGpmfLayout | src/mp4box/gpmf.rs:57-59 | read back field by field, the written bytes give a size word equal to `get_size` and a type word that maps to GPMF, followed by the payload unchanged |
| GpmfCodec.DecodeGpmf | src/mp4box/gpmf.rs:40-51 | decoding succeeds exactly when position and size are both at least 8 and the stream holds size - 8 bytes; underflow of either subtraction and truncation are the errors; the payload is those bytes verbatim |
| GpmfCodec.GpmfRoundTrip | src/mp4box/gpmf.rs:40-62 | a written box reads back identical with the size its header carries, ending at the end of its bytes |
| GpmfCodec.ExampleGpmfRoundTrip | src/mp4box/gpmf.rs:71-89 | the unit test: payload [1, 2, 3, 4] is written as 12 bytes, the header reads back as GPMF of size 12, and the body reads back unchanged |
| MetaStandIn.MetaRoundTrip | src/mp4box/udta.rs:79-80 | the meta stand-in reads back identical from where the udta decoder hands it over, ending at the end of its bytes |
| UdtaCodec.UdtaSize | src/mp4box/udta.rs:25-37 | `get_size` covers the header and each present child, and is the header's size alone exactly when no child is present |
| UdtaCodec.EncodeUdta | src/mp4box/udta.rs:108-122 | `write_box` emits exactly `get_size` bytes, the value it returns |
| UdtaCodec.ReadChild | src/mp4box/udta.rs:68-94 | corrected loop body: every successful pass keeps the buffer and moves the stream strictly forward |
| UdtaCodec.ReadChildAsWritten | src/mp4box/udta.rs:68-94 | the loop body exactly as written: a successful pass keeps the buffer and never moves the stream backwards, but may leave it where it was |
| UdtaCodec.ReadChildren | src/mp4box/udta.rs:66-95 | the loop stops at once when the position is at or past the end; a successful loop ends at or past the end, on the same buffer, without emptying a filled slot |
| UdtaCodec.ReadUdta | src/mp4box/udta.rs:59-104 | before a header the start underflows; a declared size of at most 8 reads no child and gives the empty record; any success leaves the stream exactly at start + size |
| UdtaCodec.ReadUdtaLoop | src/mp4box/udta.rs:59-104 | the `while` loop over the stream position computes exactly what the recursive child loop does |
| UdtaProperties.UdtaSizeIsSumOfChildren | src/mp4box/udta.rs:25-37 | `get_size` is the header plus the sizes of the present children, and is 8 exactly for the empty record |
| UdtaProperties.EncodeUdtaIsCanonical | src/mp4box/udta.rs:108-122 | the written udta is its header followed by the present children, encoded one after another, meta then cxyz then gpmf |
| UdtaProperties.KeepAllPresent | src/mp4box/udta.rs:62-103 | replaying the present children into an empty record rebuilds the record |
| UdtaProperties.KeepAllHoldsLast | src/mp4box/udta.rs:78-87 | when a kept type occurs among the children, the record holds its last occurrence |
| UdtaProperties.KeepAllUntouched | src/mp4box/udta.rs:88-91 | a slot no child speaks for keeps its value, so children of unknown types change nothing |
| UdtaProperties.KeepAllNeverGrows | src/mp4box/udta.rs:78-91 | the decoded record's size never exceeds the header plus the bytes of the children read |
| UdtaProperties.ReadChildOfEncoded | src/mp4box/udta.rs:68-94 | one pass over a written child (kept or unknown) decodes it into its slot, or skips it, and stops exactly at its end |
| UdtaProperties.ReadChildrenOfEncoded | src/mp4box/udta.rs:66-95 | the loop over a run of written children succeeds with each child's slot update in order and stops at their end |
| UdtaProperties.ReadUdtaOfChildren | src/mp4box/udta.rs:59-104 | a udta body of any children, in any order and with repeats, decodes to the last child of each kept type with unknown ones skipped, and ends at the box end |
| UdtaProperties.UdtaRoundTrip | src/mp4box/udta.rs:59-122 | a written udta reads back with type udta and `get_size` in its header, and `read_box` returns the same record, ending at the box end |
| UdtaProperties.ErrorAborts | src/mp4box/udta.rs:70-90 | the first child that fails ends the whole decode with its error, discarding what earlier children produced |
| UdtaProperties.ChildCheckedAgainstWholeParent | src/mp4box/udta.rs:67-97 | a single unknown child up to the whole parent's size is accepted even if it reaches past the parent's end, and the final seek returns to that end; a larger child is rejected |
| UdtaProperties.ZeroSizeChildLoopsForever | src/mp4box/udta.rs:88-94 | as written, an unknown child declaring size 0 leaves record and position unchanged, so the loop repeats forever; the corrected pass rejects it |
| UdtaProperties.AsWrittenAgreesElsewhere | src/mp4box/udta.rs:68-94 | the corrected pass and the pass as written agree on every input except an unknown child declaring size 0 |
| UdtaScenarios.ExampleEmptyUdtaBytes | src/mp4box/udta.rs:131-141 | the empty record is written as the 8 bytes `00 00 00 08 'u' 'd' 't' 'a'` |
| UdtaScenarios.ExampleEmptyUdta | src/mp4box/udta.rs:131-150 | the empty-udta unit test: the header reads back as udta of size 8 and the body decodes to the empty record |
| UdtaScenarios.ExampleFullUdtaRoundTrip | src/mp4box/udta.rs:152-176 | the full-udta unit test, with an empty-bodied meta stand-in (8 bytes) in place of `MetaBox::default()`: with the cxyz of the cxyz test and the gpmf of the gpmf test it makes a 58-byte box that reads back unchanged |
| UdtaScenarios.SmallSkipTerminates | src/mp4box/udta.rs:88-97 | an unknown child declaring 4 bytes is skipped into its own header as written, the next header read there is skipped to the end, and the corrected decoder returns the empty record just as the code does |
| UdtaScenarios.UnknownChildDropped | src/mp4box/udta.rs:78-120 | a body of a cxyz child then a `free` child decodes to the cxyz alone, and writing that record back takes 12 fewer bytes |

## Left out

- The 64-bit `largesize` header form. Every encoder requires its size to fit in 32 bits; the model's header reader reads the 32-bit form only.
- The header reader and writer, `box_start`, `skip_box` and `skip_bytes_to` live in src/mp4box/mod.rs, which is not part of this model. They are modelled from how the three codecs use them, and the four type codes are the codes the crate uses for these types.
- MetaBox: src/mp4box/meta.rs is not part of this model. `MetaStandIn` holds its body as opaque bytes and has the properties the udta codec relies on: a header of type meta, a round trip, and no backward movement.
- u64 arithmetic: the model's integers are unbounded. The underflows `pos - 8` in `box_start` and `size - 8` in the gpmf decoder panic when overflow checks are on; the model turns them into an `Overflow` error. Without overflow checks they wrap, and the cxyz decoder, which discards the result of `box_start`, would read on; that behaviour is not modelled. An overflow of `start + size` is not modelled.
- CxyzCodec.DecodeCxyz: the text is returned as bytes. Lossy UTF-8 decoding, which replaces invalid sequences, is not modelled; it is the identity on valid UTF-8.
- I/O errors of the underlying reader and writer, other than running out of bytes, are not modelled.
- `to_json`, `summary`, `get_type` and the serde derivations are left out. They do not affect the binary format.
- UdtaCodec.ReadChild: it rejects an unknown child declaring size 0, which the source does not (see Findings). Everywhere else, including unknown children declaring 1 to 7 bytes, it agrees with the code as written (`UdtaProperties.AsWrittenAgreesElsewhere`).

## Findings

| source | as written | input that shows it | evidently intended | confidence | as-written member | corrected member |
|---|---|---|---|---|---|---|
| src/mp4box/udta.rs:88-94 | an unknown child is skipped with `skip_box`, which seeks to the child's start plus its declared size; `UdtaCodec.ReadChildAsWritten` | a udta whose body holds an unknown child header declaring size 0: the skip seeks back onto the same header, the position does not advance, and the `while` loop repeats that pass forever | an unknown child declaring size 0 is rejected as invalid data, so every pass moves forward and the loop ends | medium, not executed | UdtaProperties.ZeroSizeChildLoopsForever | UdtaCodec.ReadChild |
