/** The events decoder (subxt's `EventsDecoder`): a block's event list is a
    compact u32 record count followed by that many event records. A record is
    a phase, the emitting pallet's index, the event's variant index, the
    event's fields and a trailing list of topic hashes. The fields are walked
    by the type-directed walker against the runtime metadata and re-emitted as
    the event's raw data; the topics are consumed and dropped. */
module EventsDecoder {
  import opened Base
  import opened LittleEndian
  import opened Scale
  import opened TypeRegistry
  import opened TypeWalker
  import opened TypedValues

  /** Where in the block an event was emitted. */
  datatype Phase = ApplyExtrinsic(index: nat) | Finalization | Initialization

  /** One decoded event: its origin by name and index, and its fields'
      re-encoded bytes. */
  datatype RawEvent = RawEvent(pallet: string, palletIndex: Byte, variant: string, variantIndex: Byte, data: Bytes)

  /** What the decoder is built from: the runtime's type registry and event
      catalog, the byte width of the chain's hash type, and the recursion
      budget of the walker. */
  datatype Decoder = Decoder(types: Registry, events: Catalog, hashWidth: nat, fuel: nat)

  /* ---- Phase ---- */

  /** A phase whose extrinsic index fits a u32. */
  predicate ValidPhase(p: Phase) {
    p.ApplyExtrinsic? ==> p.index < Pow256(4)
  }

  /** A phase on the wire: a tag byte, then a little-endian u32 for an extrinsic. */
  function EncodePhase(p: Phase): (b: Bytes)
    requires ValidPhase(p)
    ensures |b| > 0
  {
    match p
    case ApplyExtrinsic(i) => [0] + ToLE(i, 4)
    case Finalization => [1]
    case Initialization => [2]
  }

  /** Read a phase; a tag other than 0, 1 or 2 is refused. Whatever is
      accepted is exactly the encoding of the phase returned. */
  function DecodePhase(input: Bytes): (r: Result<(Phase, Bytes), Error>)
    ensures r.Ok? ==> ValidPhase(r.value.0) && EncodePhase(r.value.0) + r.value.1 == input
    ensures |input| > 0 && input[0] > 2 ==> r == Err(Codec(InvalidPhase))
  {
    var tag :- Lift(ReadBytes(input, 1));
    if tag.0[0] == 0 then
      var index :- Lift(ReadBytes(tag.1, 4));
      ToFromLE(index.0);
      Ok((ApplyExtrinsic(FromLE(index.0)), index.1))
    else if tag.0[0] == 1 then Ok((Finalization, tag.1))
    else if tag.0[0] == 2 then Ok((Initialization, tag.1))
    else Err(Codec(InvalidPhase))
  }

  lemma PhaseRoundTrip(p: Phase, t: Bytes)
    requires ValidPhase(p)
    ensures DecodePhase(EncodePhase(p) + t) == Ok((p, t))
  {
    var input := EncodePhase(p) + t;
    assert input[0] == EncodePhase(p)[0];
    if p.ApplyExtrinsic? {
      FromToLE(p.index, 4);
      assert input[1..][..4] == ToLE(p.index, 4);
      assert input[1..][4..] == t;
    } else {
      assert input[1..] == t;
    }
  }

  /* ---- Topics ---- */

  /** The concatenation of a list of byte strings. */
  function Concat(hs: seq<Bytes>): (b: Bytes)
  {
    if |hs| == 0 then [] else hs[0] + Concat(hs[1..])
  }

  /** `count` hashes of `width` bytes each. */
  function DecodeHashes(width: nat, count: nat, input: Bytes): (r: Result<(seq<Bytes>, Bytes), Error>)
    ensures r.Ok? ==> |r.value.0| == count && (forall i :: 0 <= i < count ==> |r.value.0[i]| == width)
    ensures r.Ok? ==> Concat(r.value.0) + r.value.1 == input
    ensures r.Err? ==> r.error == Codec(UnexpectedEof)
    ensures r.Err? <==> |input| < count * width
  {
    if count == 0 then Ok(([], input))
    else
      var hash :- Lift(ReadBytes(input, width));
      var tail :- DecodeHashes(width, count - 1, hash.1);
      assert ([hash.0] + tail.0)[1..] == tail.0;
      Ok(([hash.0] + tail.0, tail.1))
  }

  /** The topic list after an event: a compact u32 count, then that many hashes. */
  function DecodeTopics(width: nat, input: Bytes): (r: Result<(seq<Bytes>, Bytes), Error>)
    ensures r.Ok? ==> |r.value.0| < Pow256(4) && (forall i :: 0 <= i < |r.value.0| ==> |r.value.0[i]| == width)
    ensures r.Ok? ==> EncodeCompact(|r.value.0|) + Concat(r.value.0) + r.value.1 == input
  {
    var count :- Lift(DecodeCompact(4, input));
    var hashes :- DecodeHashes(width, count.0, count.1);
    CompactCanonical(4, input);
    Ok(hashes)
  }

  /** Hashes of the right width, at most a u32's worth of them. */
  predicate TopicsTyped(width: nat, hs: seq<Bytes>) {
    |hs| < Pow256(4) && forall i :: 0 <= i < |hs| ==> |hs[i]| == width
  }

  lemma {:induction false} HashesRoundTrip(width: nat, hs: seq<Bytes>, t: Bytes)
    requires forall i :: 0 <= i < |hs| ==> |hs[i]| == width
    ensures DecodeHashes(width, |hs|, Concat(hs) + t) == Ok((hs, t))
  {
    if |hs| > 0 {
      var input := Concat(hs) + t;
      assert input == hs[0] + (Concat(hs[1..]) + t);
      SplitAt(hs[0], Concat(hs[1..]) + t);
      assert ReadBytes(input, width) == Ok((hs[0], Concat(hs[1..]) + t));
      HashesRoundTrip(width, hs[1..], t);
      assert |hs[1..]| == |hs| - 1;
      assert [hs[0]] + hs[1..] == hs;
    } else {
      assert Concat(hs) + t == t;
    }
  }

  lemma TopicsRoundTrip(width: nat, hs: seq<Bytes>, t: Bytes)
    requires TopicsTyped(width, hs)
    ensures DecodeTopics(width, EncodeCompact(|hs|) + Concat(hs) + t) == Ok((hs, t))
  {
    CompactRoundTrip(4, |hs|, Concat(hs) + t);
    Assoc(EncodeCompact(|hs|), Concat(hs), t);
    HashesRoundTrip(width, hs, t);
  }

  /* ---- Records ---- */

  /** An event's fields, walked one after another against their declared types. */
  function DecodeRawEvent(d: Decoder, meta: EventMetadata, input: Bytes): (r: Step)
    ensures r.Ok? ==> r.value.0 + r.value.1 == input
  {
    DecodeFields(d.types, d.fuel, meta.fields, input)
  }

  /** One event record: phase, pallet index, variant index, the event's fields
      as the catalog declares them, and the topics, which are consumed but not
      kept. An index pair the catalog does not know is refused. */
  function DecodeRecord(d: Decoder, input: Bytes): (r: Result<((Phase, RawEvent), Bytes), Error>)
    ensures r.Ok? ==> |r.value.1| < |input|
  {
    var phase :- DecodePhase(input);
    var pallet :- Lift(ReadBytes(phase.1, 1));
    var variant :- Lift(ReadBytes(pallet.1, 1));
    var key := (pallet.0[0], variant.0[0]);
    if key !in d.events then Err(EventNotFound(key.0, key.1))
    else
      var meta := d.events[key];
      var data :- DecodeRawEvent(d, meta, variant.1);
      var topics :- DecodeTopics(d.hashWidth, data.1);
      Ok(((phase.0, RawEvent(meta.pallet, key.0, meta.event, key.1, data.0)), topics.1))
  }

  /** `count` items read one after another by `step`, in stream order; the
      first failure is the result and no partial list survives it. */
  function ReadMany<T>(step: Bytes -> Result<(T, Bytes), Error>, count: nat, input: Bytes): (r: Result<(seq<T>, Bytes), Error>)
    ensures r.Ok? ==> |r.value.0| == count
  {
    if count == 0 then Ok(([], input))
    else
      var head :- step(input);
      var tail :- ReadMany(step, count - 1, head.1);
      Ok(([head.0] + tail.0, tail.1))
  }

  /** `count` records one after another, in stream order. */
  function DecodeRecords(d: Decoder, count: nat, input: Bytes): (r: Result<(seq<(Phase, RawEvent)>, Bytes), Error>)
    ensures r.Ok? ==> |r.value.0| == count
  {
    ReadMany(s => DecodeRecord(d, s), count, input)
  }

  /** The event list of a block: a compact u32 count, then that many records.
      Any failure fails the whole list. */
  function DecodeEvents(d: Decoder, input: Bytes): (r: Result<(seq<(Phase, RawEvent)>, Bytes), Error>)
    ensures r.Ok? ==> DecodeCompact(4, input).Ok? && |r.value.0| == DecodeCompact(4, input).value.0
  {
    var count :- Lift(DecodeCompact(4, input));
    DecodeRecords(d, count.0, count.1)
  }

  /* ---- One record, step by step ---- */

  /** A record whose parts all decode: the raw event carries the catalog's
      names, the two index bytes and the fields' bytes, and the next record
      starts right after the topics. */
  lemma RecordAt(d: Decoder, input: Bytes, p: Phase, mid: Bytes, data: Bytes, after: Bytes, topics: seq<Bytes>, rest: Bytes)
    requires DecodePhase(input) == Ok((p, mid)) && |mid| >= 2 && (mid[0], mid[1]) in d.events
    requires DecodeRawEvent(d, d.events[(mid[0], mid[1])], mid[2..]) == Ok((data, after))
    requires DecodeTopics(d.hashWidth, after) == Ok((topics, rest))
    ensures var meta := d.events[(mid[0], mid[1])];
      DecodeRecord(d, input) == Ok(((p, RawEvent(meta.pallet, mid[0], meta.event, mid[1], data)), rest))
  {
    HeaderAt(mid);
  }

  /** The two index bytes after the phase. */
  lemma HeaderAt(mid: Bytes)
    requires |mid| >= 2
    ensures ReadBytes(mid, 1) == Ok(([mid[0]], mid[1..]))
    ensures ReadBytes(mid[1..], 1) == Ok(([mid[1]], mid[2..]))
  {
    assert mid[..1] == [mid[0]];
    assert mid[1..][..1] == [mid[1]];
    assert mid[1..][1..] == mid[2..];
  }

  /** An index pair the catalog does not know fails the record with both indices. */
  lemma RecordUnknownEvent(d: Decoder, input: Bytes, p: Phase, mid: Bytes)
    requires DecodePhase(input) == Ok((p, mid)) && |mid| >= 2 && (mid[0], mid[1]) !in d.events
    ensures DecodeRecord(d, input) == Err(EventNotFound(mid[0], mid[1]))
  {
    HeaderAt(mid);
  }

  /** A field that fails to decode fails the record with the same error. */
  lemma RecordFieldsError(d: Decoder, input: Bytes, p: Phase, mid: Bytes, e: Error)
    requires DecodePhase(input) == Ok((p, mid)) && |mid| >= 2 && (mid[0], mid[1]) in d.events
    requires DecodeRawEvent(d, d.events[(mid[0], mid[1])], mid[2..]) == Err(e)
    ensures DecodeRecord(d, input) == Err(e)
  {
    HeaderAt(mid);
  }

  /** A topic list that fails to decode fails the record, although the event
      itself decoded. */
  lemma RecordTopicsError(d: Decoder, input: Bytes, p: Phase, mid: Bytes, data: Bytes, after: Bytes, e: Error)
    requires DecodePhase(input) == Ok((p, mid)) && |mid| >= 2 && (mid[0], mid[1]) in d.events
    requires DecodeRawEvent(d, d.events[(mid[0], mid[1])], mid[2..]) == Ok((data, after))
    requires DecodeTopics(d.hashWidth, after) == Err(e)
    ensures DecodeRecord(d, input) == Err(e)
  {
    HeaderAt(mid);
  }

  /** When the first `k` items are read and the next one fails, the whole
      read fails with that item's error. */
  lemma {:induction false} ReadManyFail<T>(step: Bytes -> Result<(T, Bytes), Error>, count: nat, input: Bytes, k: nat, done: seq<T>, mid: Bytes, e: Error)
    requires k < count && ReadMany(step, k, input) == Ok((done, mid)) && step(mid) == Err(e)
    ensures ReadMany(step, count, input) == Err(e)
  {
    if k > 0 {
      var head := step(input).value;
      var tail := ReadMany(step, k - 1, head.1).value;
      ReadManyFail(step, count - 1, head.1, k - 1, tail.0, mid, e);
    }
  }

  /** Any failing record fails the whole list: when the first `k` records
      decode and the next one fails, no list is returned, only that error. */
  lemma RecordsFail(d: Decoder, count: nat, input: Bytes, k: nat, done: seq<(Phase, RawEvent)>, mid: Bytes, e: Error)
    requires k < count && DecodeRecords(d, k, input) == Ok((done, mid))
    requires DecodeRecord(d, mid) == Err(e)
    ensures DecodeRecords(d, count, input) == Err(e)
  {
    ReadManyFail(s => DecodeRecord(d, s), count, input, k, done, mid, e);
  }

  /** A count prefix that does not decode fails the whole call. */
  lemma EventsBadCount(d: Decoder, input: Bytes)
    requires DecodeCompact(4, input).Err?
    ensures DecodeEvents(d, input) == Err(Codec(DecodeCompact(4, input).error))
  {
  }

  /** A failing record anywhere in the list fails the whole call with its error. */
  lemma EventsFail(d: Decoder, input: Bytes, count: nat, first: Bytes, k: nat, done: seq<(Phase, RawEvent)>, mid: Bytes, e: Error)
    requires DecodeCompact(4, input) == Ok((count, first))
    requires k < count && DecodeRecords(d, k, first) == Ok((done, mid)) && DecodeRecord(d, mid) == Err(e)
    ensures DecodeEvents(d, input) == Err(e)
  {
    RecordsFail(d, count, first, k, done, mid, e);
  }

  /* ---- Round trip of whole event lists ---- */

  /** An event record as the runtime writes it. */
  datatype EventRecord = EventRecord(phase: Phase, palletIndex: Byte, variantIndex: Byte, fields: seq<Value>, topics: seq<Bytes>)

  /** The record's event is in the catalog, its field values have the declared
      types and nest no deeper than the walker's budget, and its topics are
      hashes of the chain's width. */
  predicate RecordTyped(d: Decoder, r: EventRecord) {
    && ValidPhase(r.phase)
    && (r.palletIndex, r.variantIndex) in d.events
    && FieldsTyped(d.types, d.events[(r.palletIndex, r.variantIndex)].fields, r.fields)
    && MaxDepth(r.fields) <= d.fuel
    && TopicsTyped(d.hashWidth, r.topics)
  }

  function EncodeRecord(d: Decoder, r: EventRecord): Bytes
    requires RecordTyped(d, r)
  {
    WidthBound(4);
    var meta := d.events[(r.palletIndex, r.variantIndex)];
    EncodePhase(r.phase) + [r.palletIndex, r.variantIndex]
      + EncodeFields(d.types, meta.fields, r.fields)
      + EncodeCompact(|r.topics|) + Concat(r.topics)
  }

  /** What the decoder should make of a record. */
  function RawOf(d: Decoder, r: EventRecord): (Phase, RawEvent)
    requires RecordTyped(d, r)
  {
    var meta := d.events[(r.palletIndex, r.variantIndex)];
    (r.phase, RawEvent(meta.pallet, r.palletIndex, meta.event, r.variantIndex, EncodeFields(d.types, meta.fields, r.fields)))
  }

  /** A well-typed record decodes to its phase and raw event; its topics are
      consumed and the bytes after the record are left untouched. */
  lemma RecordRoundTrip(d: Decoder, r: EventRecord, t: Bytes)
    requires RecordTyped(d, r)
    ensures DecodeRecord(d, EncodeRecord(d, r) + t) == Ok((RawOf(d, r), t))
  {
    WidthBound(4);
    var meta := d.events[(r.palletIndex, r.variantIndex)];
    var data := EncodeFields(d.types, meta.fields, r.fields);
    var topics := EncodeCompact(|r.topics|) + Concat(r.topics);
    var after := topics + t;
    var mid := [r.palletIndex, r.variantIndex] + (data + after);
    var input := EncodeRecord(d, r) + t;
    assert input == EncodePhase(r.phase) + mid;
    assert DecodePhase(input) == Ok((r.phase, mid)) by {
      PhaseRoundTrip(r.phase, mid);
    }
    assert DecodeRawEvent(d, meta, mid[2..]) == Ok((data, after)) by {
      assert mid[2..] == data + after;
      FieldsRoundTrip(d.types, d.fuel, meta.fields, r.fields, after);
    }
    assert DecodeTopics(d.hashWidth, after) == Ok((r.topics, t)) by {
      TopicsRoundTrip(d.hashWidth, r.topics, t);
    }
    RecordAt(d, input, r.phase, mid, data, after, r.topics, t);
  }

  predicate RecordsTyped(d: Decoder, rs: seq<EventRecord>) {
    forall i :: 0 <= i < |rs| ==> RecordTyped(d, rs[i])
  }

  function EncodeRecords(d: Decoder, rs: seq<EventRecord>): Bytes
    requires RecordsTyped(d, rs)
  {
    if |rs| == 0 then [] else EncodeRecord(d, rs[0]) + EncodeRecords(d, rs[1..])
  }

  function RawsOf(d: Decoder, rs: seq<EventRecord>): (es: seq<(Phase, RawEvent)>)
    requires RecordsTyped(d, rs)
  {
    if |rs| == 0 then [] else [RawOf(d, rs[0])] + RawsOf(d, rs[1..])
  }

  lemma {:induction false} RecordsRoundTrip(d: Decoder, rs: seq<EventRecord>, t: Bytes)
    requires RecordsTyped(d, rs)
    ensures DecodeRecords(d, |rs|, EncodeRecords(d, rs) + t) == Ok((RawsOf(d, rs), t))
  {
    if |rs| == 0 {
      assert EncodeRecords(d, rs) + t == t;
    } else {
      var tail := EncodeRecords(d, rs[1..]) + t;
      assert EncodeRecords(d, rs) + t == EncodeRecord(d, rs[0]) + tail;
      RecordRoundTrip(d, rs[0], tail);
      RecordsRoundTrip(d, rs[1..], t);
      assert |rs[1..]| == |rs| - 1;
    }
  }

  /** Round trip of a block's events: the count prefix and the records as the
      runtime writes them decode to one raw event per record, in order. */
  lemma EventsRoundTrip(d: Decoder, rs: seq<EventRecord>, t: Bytes)
    requires RecordsTyped(d, rs) && |rs| < Pow256(4)
    ensures |rs| < U128Limit
    ensures DecodeEvents(d, EncodeCompact(|rs|) + EncodeRecords(d, rs) + t) == Ok((RawsOf(d, rs), t))
  {
    CompactRoundTrip(4, |rs|, EncodeRecords(d, rs) + t);
    Assoc(EncodeCompact(|rs|), EncodeRecords(d, rs), t);
    RecordsRoundTrip(d, rs, t);
  }

  /* ---- Truncated blocks ---- */

  lemma PhaseExtends(s: Bytes, t: Bytes)
    ensures Extends(DecodePhase(s), DecodePhase(s + t), t)
  {
    if |s| >= 1 {
      ReadExtends(s, t, 1);
      if s[0] == 0 && |s[1..]| >= 4 {
        ReadExtends(s[1..], t, 4);
      }
    }
  }

  lemma {:induction false} HashesExtends(width: nat, count: nat, s: Bytes, t: Bytes)
    ensures Extends(DecodeHashes(width, count, s), DecodeHashes(width, count, s + t), t)
    decreases count
  {
    if count > 0 && width <= |s| {
      ReadExtends(s, t, width);
      HashesExtends(width, count - 1, s[width..], t);
    }
  }

  lemma TopicsExtends(width: nat, s: Bytes, t: Bytes)
    ensures Extends(DecodeTopics(width, s), DecodeTopics(width, s + t), t)
  {
    CompactExtends(4, s, t);
    var count := DecodeCompact(4, s);
    if count.Ok? {
      HashesExtends(width, count.value.0, count.value.1, t);
    }
  }

  /** A phase that does not decode fails the record with the same error. */
  lemma RecordPhaseError(d: Decoder, input: Bytes)
    requires DecodePhase(input).Err?
    ensures DecodeRecord(d, input) == Err(DecodePhase(input).error)
  {
  }

  /** Fewer than two bytes after the phase: the index bytes run out. */
  lemma RecordShort(d: Decoder, input: Bytes, p: Phase, mid: Bytes)
    requires DecodePhase(input) == Ok((p, mid)) && |mid| < 2
    ensures DecodeRecord(d, input) == Err(Codec(UnexpectedEof))
  {
  }

  /** The index bytes of a record seen through a longer input. */
  lemma LongerHeader(mid: Bytes, t: Bytes)
    requires |mid| >= 2
    ensures (mid + t)[0] == mid[0] && (mid + t)[1] == mid[1] && (mid + t)[2..] == mid[2..] + t
  {
    assert (mid + t)[2..] == mid[2..] + t;
  }

  /** The topics of a record whose fields decoded decode the same from a longer input. */
  lemma RecordTopicsExtends(d: Decoder, s: Bytes, t: Bytes, p: Phase, mid: Bytes, fields: Bytes, after: Bytes)
    requires DecodePhase(s) == Ok((p, mid)) && DecodePhase(s + t) == Ok((p, mid + t)) && |mid| >= 2
    requires (mid[0], mid[1]) in d.events
    requires DecodeRawEvent(d, d.events[(mid[0], mid[1])], mid[2..]) == Ok((fields, after))
    requires DecodeRawEvent(d, d.events[(mid[0], mid[1])], mid[2..] + t) == Ok((fields, after + t))
    ensures Extends(DecodeRecord(d, s), DecodeRecord(d, s + t), t)
  {
    LongerHeader(mid, t);
    TopicsExtends(d.hashWidth, after, t);
    var topics := DecodeTopics(d.hashWidth, after);
    if topics.Err? {
      RecordTopicsError(d, s, p, mid, fields, after, topics.error);
      if topics.error != Codec(UnexpectedEof) {
        RecordTopicsError(d, s + t, p, mid + t, fields, after + t, topics.error);
      }
    } else {
      RecordAt(d, s, p, mid, fields, after, topics.value.0, topics.value.1);
      RecordAt(d, s + t, p, mid + t, fields, after + t, topics.value.0, topics.value.1 + t);
    }
  }

  /** The part of a record after its phase decodes the same from a longer input. */
  lemma RecordBodyExtends(d: Decoder, s: Bytes, t: Bytes, p: Phase, mid: Bytes)
    requires DecodePhase(s) == Ok((p, mid)) && DecodePhase(s + t) == Ok((p, mid + t)) && |mid| >= 2
    ensures Extends(DecodeRecord(d, s), DecodeRecord(d, s + t), t)
  {
    LongerHeader(mid, t);
    var key := (mid[0], mid[1]);
    if key !in d.events {
      RecordUnknownEvent(d, s, p, mid);
      RecordUnknownEvent(d, s + t, p, mid + t);
    } else {
      var meta := d.events[key];
      var data := DecodeRawEvent(d, meta, mid[2..]);
      assert Extends(data, DecodeRawEvent(d, meta, mid[2..] + t), t) by {
        FieldsExtends(d.types, d.fuel, meta.fields, mid[2..], t);
      }
      if data.Err? {
        RecordFieldsError(d, s, p, mid, data.error);
        if data.error != Codec(UnexpectedEof) {
          RecordFieldsError(d, s + t, p, mid + t, data.error);
        }
      } else {
        RecordTopicsExtends(d, s, t, p, mid, data.value.0, data.value.1);
      }
    }
  }

  /** A record decodes the same from a longer input: decoding looks only at
      the bytes it consumes. */
  lemma RecordExtends(d: Decoder, s: Bytes, t: Bytes)
    ensures Extends(DecodeRecord(d, s), DecodeRecord(d, s + t), t)
  {
    PhaseExtends(s, t);
    var phase := DecodePhase(s);
    if phase.Err? {
      RecordPhaseError(d, s);
      if phase.error != Codec(UnexpectedEof) {
        RecordPhaseError(d, s + t);
      }
    } else if |phase.value.1| < 2 {
      RecordShort(d, s, phase.value.0, phase.value.1);
    } else {
      RecordBodyExtends(d, s, t, phase.value.0, phase.value.1);
    }
  }

  /** Reading several items looks only at the bytes consumed when each single
      step does. */
  lemma {:induction false} ReadManyExtends<T>(step: Bytes -> Result<(T, Bytes), Error>, count: nat, s: Bytes, t: Bytes)
    requires forall x :: Extends(step(x), step(x + t), t)
    ensures Extends(ReadMany(step, count, s), ReadMany(step, count, s + t), t)
    decreases count
  {
    if count > 0 {
      var head := step(s);
      assert Extends(head, step(s + t), t);
      if head.Ok? {
        ReadManyExtends(step, count - 1, head.value.1, t);
      }
    }
  }

  lemma RecordsExtends(d: Decoder, count: nat, s: Bytes, t: Bytes)
    ensures Extends(DecodeRecords(d, count, s), DecodeRecords(d, count, s + t), t)
  {
    forall x: Bytes
      ensures Extends(DecodeRecord(d, x), DecodeRecord(d, x + t), t)
    {
      RecordExtends(d, x, t);
    }
    ReadManyExtends(x => DecodeRecord(d, x), count, s, t);
  }

  /** A block's event list decodes the same from a longer input. */
  lemma EventsExtends(d: Decoder, s: Bytes, t: Bytes)
    ensures Extends(DecodeEvents(d, s), DecodeEvents(d, s + t), t)
  {
    CompactExtends(4, s, t);
    var count := DecodeCompact(4, s);
    if count.Ok? {
      RecordsExtends(d, count.value.0, count.value.1, t);
    }
  }

  /** Truncation of a block: every proper prefix of a block's encoded event
      list fails for running out of input, never with a wrong list. */
  lemma EventsTruncation(d: Decoder, rs: seq<EventRecord>, p: Bytes)
    requires RecordsTyped(d, rs) && |rs| < 0x1_0000_0000
    requires |p| < |EncodeCompact(|rs|) + EncodeRecords(d, rs)|
    requires p == (EncodeCompact(|rs|) + EncodeRecords(d, rs))[..|p|]
    ensures DecodeEvents(d, p) == Err(Codec(UnexpectedEof))
  {
    var block := EncodeCompact(|rs|) + EncodeRecords(d, rs);
    var t := block[|p|..];
    assert p + t == block;
    Pow256Values();
    EventsRoundTrip(d, rs, []);
    assert block + [] == block;
    EventsExtends(d, p, t);
  }

  /** The catalog's entries for pallet `pallet` are the variants of the
      pallet's event enum `eventType`, as the runtime metadata builds them. */
  predicate CatalogDescribes(d: Decoder, pallet: Byte, eventType: TypeId) {
    && eventType in d.types && d.types[eventType].Variant?
    && forall tag: Byte :: FindVariant(d.types[eventType].variants, tag).Some? ==>
         (pallet, tag) in d.events
         && d.events[(pallet, tag)].fields == FindVariant(d.types[eventType].variants, tag).value.fields
  }

  /** A record carrying an encoded event enum value: its variant index is the
      encoding's first byte and its data is the rest of the encoding. */
  lemma EventEnumRecord(d: Decoder, pallet: Byte, eventType: TypeId, phase: Phase, v: Value, topics: seq<Bytes>)
    requires CatalogDescribes(d, pallet, eventType) && WellTyped(d.types, eventType, v)
    requires Depth(v) <= d.fuel + 1 && ValidPhase(phase) && TopicsTyped(d.hashWidth, topics)
    ensures v.VVariant? && |Encode(d.types, eventType, v)| > 0
    ensures var r := EventRecord(phase, pallet, v.tag, v.fields, topics);
      var e := Encode(d.types, eventType, v);
      && RecordTyped(d, r)
      && EncodeRecord(d, r) == EncodePhase(phase) + [pallet] + e + (EncodeCompact(|topics|) + Concat(topics))
      && RawOf(d, r).1.variantIndex == e[0] && RawOf(d, r).1.data == e[1..]
  {
    WidthBound(4);
    var found := FindVariant(d.types[eventType].variants, v.tag).value;
    var e := Encode(d.types, eventType, v);
    var data := EncodeFields(d.types, found.fields, v.fields);
    assert e == [v.tag] + data;
    var r := EventRecord(phase, pallet, v.tag, v.fields, topics);
    assert RecordTyped(d, r);
    assert EncodeRecord(d, r) == EncodePhase(phase) + [pallet] + e + (EncodeCompact(|topics|) + Concat(topics));
  }

  /** Decode a raw event as the typed event `E` named `pallet::event`: events of
      another name are not this one; the data is handed to `decode` only when
      both names match. */
  function AsEvent<E>(raw: RawEvent, pallet: string, event: string, decode: Bytes -> Result<E, CodecError>): (r: Result<Option<E>, CodecError>)
    ensures raw.pallet != pallet || raw.variant != event ==> r == Ok(None)
    ensures r.Ok? && r.value.Some? ==> raw.pallet == pallet && raw.variant == event && decode(raw.data) == Ok(r.value.value)
    ensures r.Err? ==> decode(raw.data) == Err(r.error)
    ensures raw.pallet == pallet && raw.variant == event ==>
      (r.Ok? <==> decode(raw.data).Ok?) && (r.Ok? ==> r.value == Some(decode(raw.data).value))
  {
    if raw.pallet == pallet && raw.variant == event then
      var e :- decode(raw.data);
      Ok(Some(e))
    else Ok(None)
  }

  /** A raw event carrying the encoding of a typed event under that event's
      names is read back as that event by a decoder that inverts the encoding. */
  lemma AsEventRoundTrip<E>(pallet: string, palletIndex: Byte, event: string, variantIndex: Byte,
                            encode: E -> Bytes, decode: Bytes -> Result<E, CodecError>, e: E)
    requires decode(encode(e)) == Ok(e)
    ensures AsEvent(RawEvent(pallet, palletIndex, event, variantIndex, encode(e)), pallet, event, decode) == Ok(Some(e))
  {
  }
}
