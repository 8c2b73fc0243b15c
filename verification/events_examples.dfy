/** The events decoder on the concrete blocks of subxt's own test suite. Each
    block holds `EventRecord`s of pallet 0 in phase `Finalization` with no
    topics; in each, the raw event's variant index is the first byte of the
    encoded event enum value and its data is the rest of that encoding. */
module EventsExamples {
  import opened Base
  import opened Scale
  import opened TypeRegistry
  import opened TypedValues
  import opened EventsDecoder

  const HashWidth := 32

  /** A test record: phase `Finalization` and no topics. */
  predicate Plain(d: Decoder, r: EventRecord) {
    RecordTyped(d, r) && r.phase == Finalization && r.topics == []
  }

  function FieldBytes(d: Decoder, r: EventRecord): Bytes
    requires RecordTyped(d, r)
  {
    EncodeFields(d.types, d.events[(r.palletIndex, r.variantIndex)].fields, r.fields)
  }

  /** A test record is the phase tag 1, the two indices, the fields and an
      empty topic list. */
  lemma PlainBytes(d: Decoder, r: EventRecord)
    requires Plain(d, r)
    ensures EncodeRecord(d, r) == [1, r.palletIndex, r.variantIndex] + FieldBytes(d, r) + [0]
  {
    assert EncodeCompact(0) == [0];
    assert Concat([]) == [];
  }

  /** One record is written, and comes out, on its own. */
  lemma OnlyRecord(d: Decoder, r: EventRecord)
    requires RecordTyped(d, r)
    ensures RecordsTyped(d, [r])
    ensures EncodeRecords(d, [r]) == EncodeRecord(d, r)
    ensures RawsOf(d, [r]) == [RawOf(d, r)]
  {
    var rs := [r];
    assert rs[1..] == [];
    assert EncodeRecords(d, rs[1..]) == [];
    assert RawsOf(d, rs[1..]) == [];
  }

  /** A block of one test record. */
  lemma OneRecord(d: Decoder, r: EventRecord, block: Bytes)
    requires Plain(d, r) && block == [4, 1, r.palletIndex, r.variantIndex] + FieldBytes(d, r) + [0]
    ensures DecodeEvents(d, block) == Ok(([RawOf(d, r)], []))
  {
    Pow256Values();
    var rs := [r];
    OnlyRecord(d, r);
    PlainBytes(d, r);
    var body := EncodeRecords(d, rs);
    assert [4] + body == block;
    assert EncodeCompact(|rs|) == [4];
    EventsRoundTrip(d, rs, []);
    assert EncodeCompact(|rs|) + body + [] == block;
  }

  /** Three records are written, and come out, one after another. */
  lemma ThreeInOrder(d: Decoder, a: EventRecord, b: EventRecord, c: EventRecord)
    requires RecordTyped(d, a) && RecordTyped(d, b) && RecordTyped(d, c)
    ensures RecordsTyped(d, [a, b, c])
    ensures EncodeRecords(d, [a, b, c]) == EncodeRecord(d, a) + EncodeRecord(d, b) + EncodeRecord(d, c)
    ensures RawsOf(d, [a, b, c]) == [RawOf(d, a), RawOf(d, b), RawOf(d, c)]
  {
    var rs := [a, b, c];
    assert rs[1..] == [b, c] && [b, c][1..] == [c] && [c][1..] == [];
    assert EncodeRecords(d, [c]) == EncodeRecord(d, c);
    assert EncodeRecords(d, [b, c]) == EncodeRecord(d, b) + EncodeRecord(d, c);
    assert RawsOf(d, [c]) == [RawOf(d, c)];
    assert RawsOf(d, [b, c]) == [RawOf(d, b), RawOf(d, c)];
  }

  /** A block of fewer than 64 records: a one-byte count, then the records. */
  lemma ShortBlock(d: Decoder, rs: seq<EventRecord>, block: Bytes)
    requires RecordsTyped(d, rs) && |rs| < 0x40
    requires block == [|rs| * 4] + EncodeRecords(d, rs)
    ensures DecodeEvents(d, block) == Ok((RawsOf(d, rs), []))
  {
    Pow256Values();
    EncodeModes(|rs|);
    EventsRoundTrip(d, rs, []);
    assert EncodeCompact(|rs|) + EncodeRecords(d, rs) + [] == block;
  }

  /** A block of three test records. */
  lemma ThreeRecords(d: Decoder, a: EventRecord, b: EventRecord, c: EventRecord, block: Bytes)
    requires RecordTyped(d, a) && RecordTyped(d, b) && RecordTyped(d, c)
    requires block == [12] + EncodeRecord(d, a) + EncodeRecord(d, b) + EncodeRecord(d, c)
    ensures DecodeEvents(d, block) == Ok(([RawOf(d, a), RawOf(d, b), RawOf(d, c)], []))
  {
    var rs := [a, b, c];
    ThreeInOrder(d, a, b, c);
    var body := EncodeRecords(d, rs);
    assert block == [12] + body;
    ShortBlock(d, rs, block);
  }

  /* ---- decode_single_event: `enum Event { A(u8) }`, value `A(1)` = [0, 1] ---- */

  const Single := Decoder(map[0 := Primitive(U8), 1 := Variant([VariantDef("A", 0, [0])])],
                          map[(0, 0) := EventMetadata("Test", "A", [0])], HashWidth, 4)
  const SingleRecord := EventRecord(Finalization, 0, 0, [VInt(1)], [])

  lemma SingleParts()
    ensures Plain(Single, SingleRecord) && FieldBytes(Single, SingleRecord) == [1]
  {
    assert FieldsTyped(Single.types, [0], [VInt(1)]);
    assert EncodeFields(Single.types, [0], [VInt(1)]) == [1];
  }

  const SingleBlock: Bytes := [4, 1, 0, 0, 1, 0]

  lemma SingleEvent()
    ensures DecodeEvents(Single, SingleBlock) == Ok(([(Finalization, RawEvent("Test", 0, "A", 0, [1]))], []))
  {
    SingleParts();
    OneRecord(Single, SingleRecord, SingleBlock);
  }

  /* ---- decode_multiple_events: `enum Event { A(u8), B, C { a: u32 } }`,
     values `A(1)` = [0, 1], `B` = [1] and `C { a: 3 }` = [2, 3, 0, 0, 0] ---- */

  const Multiple := Decoder(
    map[0 := Primitive(U8), 1 := Primitive(U32),
        2 := Variant([VariantDef("A", 0, [0]), VariantDef("B", 1, []), VariantDef("C", 2, [1])])],
    map[(0, 0) := EventMetadata("Test", "A", [0]), (0, 1) := EventMetadata("Test", "B", []),
        (0, 2) := EventMetadata("Test", "C", [1])],
    HashWidth, 4)
  const MultipleA := EventRecord(Finalization, 0, 0, [VInt(1)], [])
  const MultipleB := EventRecord(Finalization, 0, 1, [], [])
  const MultipleC := EventRecord(Finalization, 0, 2, [VInt(3)], [])

  lemma MultipleAParts()
    ensures Plain(Multiple, MultipleA) && FieldBytes(Multiple, MultipleA) == [1]
    ensures EncodeRecord(Multiple, MultipleA) == [1, 0, 0, 1, 0]
  {
    assert FieldsTyped(Multiple.types, [0], [VInt(1)]);
    assert EncodeFields(Multiple.types, [0], [VInt(1)]) == [1];
    PlainBytes(Multiple, MultipleA);
  }

  lemma MultipleBParts()
    ensures Plain(Multiple, MultipleB) && FieldBytes(Multiple, MultipleB) == []
    ensures EncodeRecord(Multiple, MultipleB) == [1, 0, 1, 0]
  {
    assert FieldsTyped(Multiple.types, [], []);
    assert EncodeFields(Multiple.types, [], []) == [];
    PlainBytes(Multiple, MultipleB);
  }

  lemma MultipleCParts()
    ensures Plain(Multiple, MultipleC) && FieldBytes(Multiple, MultipleC) == [3, 0, 0, 0]
    ensures EncodeRecord(Multiple, MultipleC) == [1, 0, 2, 3, 0, 0, 0, 0]
  {
    Pow256Values();
    assert FieldsTyped(Multiple.types, [1], [VInt(3)]);
    assert EncodeFields(Multiple.types, [1], [VInt(3)]) == [3, 0, 0, 0];
    PlainBytes(Multiple, MultipleC);
  }

  /** The count 3, then the three records. */
  const MultipleBlock: Bytes := [12] + [1, 0, 0, 1, 0] + [1, 0, 1, 0] + [1, 0, 2, 3, 0, 0, 0, 0]

  lemma MultipleRaws()
    requires RecordTyped(Multiple, MultipleA) && RecordTyped(Multiple, MultipleB) && RecordTyped(Multiple, MultipleC)
    requires FieldBytes(Multiple, MultipleA) == [1] && FieldBytes(Multiple, MultipleB) == []
    requires FieldBytes(Multiple, MultipleC) == [3, 0, 0, 0]
    ensures RawOf(Multiple, MultipleA) == (Finalization, RawEvent("Test", 0, "A", 0, [1]))
    ensures RawOf(Multiple, MultipleB) == (Finalization, RawEvent("Test", 0, "B", 1, []))
    ensures RawOf(Multiple, MultipleC) == (Finalization, RawEvent("Test", 0, "C", 2, [3, 0, 0, 0]))
  {
  }

  lemma MultipleEvents()
    ensures DecodeEvents(Multiple, MultipleBlock)
      == Ok(([(Finalization, RawEvent("Test", 0, "A", 0, [1])),
              (Finalization, RawEvent("Test", 0, "B", 1, [])),
              (Finalization, RawEvent("Test", 0, "C", 2, [3, 0, 0, 0]))], []))
  {
    MultipleAParts();
    MultipleBParts();
    MultipleCParts();
    MultipleRaws();
    ThreeRecords(Multiple, MultipleA, MultipleB, MultipleC, MultipleBlock);
  }

  /* ---- compact_event_field: `enum Event { A(#[codec(compact)] u32) }`,
     value `A(u32::MAX)` = [0, 3, 255, 255, 255, 255] ---- */

  const CompactField := Decoder(
    map[0 := Primitive(U32), 1 := Compact(0), 2 := Variant([VariantDef("A", 0, [1])])],
    map[(0, 0) := EventMetadata("Test", "A", [1])], HashWidth, 4)
  const CompactRecord := EventRecord(Finalization, 0, 0, [VCompact(0xFFFF_FFFF)], [])

  /** `u32::MAX` needs the big-integer mode with four value bytes. */
  lemma CompactMax()
    ensures EncodeCompact(0xFFFF_FFFF) == [3, 255, 255, 255, 255]
  {
    Pow256Values();
    BytesNeededExact(0xFFFF_FFFF, 4);
    assert EncodeCompact(0xFFFF_FFFF) == EncodeBig(0xFFFF_FFFF, 4);
  }

  lemma CompactParts()
    ensures Plain(CompactField, CompactRecord) && FieldBytes(CompactField, CompactRecord) == [3, 255, 255, 255, 255]
  {
    Pow256Values();
    assert FieldsTyped(CompactField.types, [1], [VCompact(0xFFFF_FFFF)]);
    CompactMax();
    assert Encode(CompactField.types, 1, VCompact(0xFFFF_FFFF)) == EncodeCompact(0xFFFF_FFFF);
    assert EncodeFields(CompactField.types, [1], [VCompact(0xFFFF_FFFF)]) == [3, 255, 255, 255, 255];
  }

  const CompactFieldBlock: Bytes := [4, 1, 0, 0, 3, 255, 255, 255, 255, 0]

  lemma CompactEvent()
    ensures DecodeEvents(CompactField, CompactFieldBlock)
      == Ok(([(Finalization, RawEvent("Test", 0, "A", 0, [3, 255, 255, 255, 255]))], []))
  {
    CompactParts();
    OneRecord(CompactField, CompactRecord, CompactFieldBlock);
  }

  /* ---- compact_wrapper_struct_field: `struct CompactWrapper(u64)` and
     `enum Event { A(#[codec(compact)] CompactWrapper) }`, value
     `A(CompactWrapper(0))` = [0, 0] ---- */

  const Wrapper := Decoder(
    map[0 := Primitive(U64), 1 := Composite([0]), 2 := Compact(1), 3 := Variant([VariantDef("A", 0, [2])])],
    map[(0, 0) := EventMetadata("Test", "A", [2])], HashWidth, 4)
  const WrapperRecord := EventRecord(Finalization, 0, 0, [VCompact(0)], [])

  lemma WrapperParts()
    ensures Plain(Wrapper, WrapperRecord) && FieldBytes(Wrapper, WrapperRecord) == [0]
  {
    assert FieldsTyped(Wrapper.types, [2], [VCompact(0)]);
    assert EncodeFields(Wrapper.types, [2], [VCompact(0)]) == [0];
  }

  const WrapperBlock: Bytes := [4, 1, 0, 0, 0, 0]

  lemma WrapperEvent()
    ensures DecodeEvents(Wrapper, WrapperBlock) == Ok(([(Finalization, RawEvent("Test", 0, "A", 0, [0]))], []))
  {
    WrapperParts();
    OneRecord(Wrapper, WrapperRecord, WrapperBlock);
  }

  /* ---- event_containing_explicit_index: `enum MyType { B = 10 }` and
     `enum Event { A(MyType) }`, value `A(MyType::B)` = [0, 10] ---- */

  const Explicit := Decoder(
    map[0 := Variant([VariantDef("B", 10, [])]), 1 := Variant([VariantDef("A", 0, [0])])],
    map[(0, 0) := EventMetadata("Test", "A", [0])], HashWidth, 4)
  const ExplicitRecord := EventRecord(Finalization, 0, 0, [VVariant(10, [])], [])

  lemma ExplicitParts()
    ensures Plain(Explicit, ExplicitRecord) && FieldBytes(Explicit, ExplicitRecord) == [10]
  {
    assert FindVariant([VariantDef("B", 10, [])], 10) == Some(VariantDef("B", 10, []));
    assert FieldsTyped(Explicit.types, [0], [VVariant(10, [])]);
    assert EncodeFields(Explicit.types, [0], [VVariant(10, [])]) == [10];
  }

  const ExplicitBlock: Bytes := [4, 1, 0, 0, 10, 0]

  lemma ExplicitIndexEvent()
    ensures DecodeEvents(Explicit, ExplicitBlock) == Ok(([(Finalization, RawEvent("Test", 0, "A", 0, [10]))], []))
  {
    ExplicitParts();
    OneRecord(Explicit, ExplicitRecord, ExplicitBlock);
  }
}
