/** The type-directed walker: given a type id and a cursor, consume exactly the
    SCALE encoding of one value of that type and emit its canonical
    re-encoding (`decode_type` in subxt's events decoder).

    Every step returns `(output, rest)`: the re-encoded bytes and the input
    left after the value. The walker is a pure function of the registry, the
    type id and the input. Recursion through the registry may cycle without
    consuming input, so it is bounded by `fuel`; running out stands for the
    stack exhaustion subxt's unbounded `decode_type` would hit. */
module TypeWalker {
  import opened Base
  import opened LittleEndian
  import opened Scale
  import opened TypeRegistry

  /** Why a compact wrapper's inner type was refused. */
  datatype CompactTypeIssue =
    | NotSingleField            // a composite with zero or several fields
    | NotSinglePrimitiveField   // a one-field composite whose field is not primitive
    | NotPrimitiveOrComposite   // any other inner shape

  /** Every way decoding events can fail; each one aborts the whole call. */
  datatype Error =
    | Codec(cause: CodecError)
    | TypeNotFound(id: TypeId)
    | EventNotFound(palletIndex: Byte, variantIndex: Byte)
    | VariantNotFound(tag: Byte)
    | UnsupportedPrimitive(kind: PrimitiveKind)
    | InvalidCompactPrimitive(kind: PrimitiveKind)
    | InvalidCompactType(issue: CompactTypeIssue)
    | Unimplemented
    | RecursionLimit

  /** The result of one decoding step: re-encoded output and the remaining input. */
  type Step = Result<(Bytes, Bytes), Error>

  function Lift<T>(r: Result<T, CodecError>): (l: Result<T, Error>)
    ensures l.Ok? <==> r.Ok?
    ensures l.Ok? ==> l.value == r.value
    ensures l.Err? ==> l.error == Codec(r.error)
  {
    match r
    case Ok(v) => Ok(v)
    case Err(e) => Err(Codec(e))
  }

  /** Interpret `n` as a two's-complement integer `w` bytes wide. */
  function ToSigned(n: nat, w: nat): (i: int)
    requires n < Pow256(w)
    ensures -(Pow256(w) as int) <= 2 * i < Pow256(w)
  {
    if 2 * n >= Pow256(w) then n - Pow256(w) else n
  }

  /** The two's-complement bit pattern of `i` at width `w`. */
  function FromSigned(i: int, w: nat): (n: nat)
    requires -(Pow256(w) as int) <= 2 * i < Pow256(w)
    ensures n < Pow256(w)
  {
    if i < 0 then i + Pow256(w) else i
  }

  lemma SignedBits(n: nat, w: nat)
    requires n < Pow256(w)
    ensures FromSigned(ToSigned(n, w), w) == n
  {
  }

  lemma SignedValue(i: int, w: nat)
    requires -(Pow256(w) as int) <= 2 * i < Pow256(w)
    ensures ToSigned(FromSigned(i, w), w) == i
  {
  }

  /** Whether `i` is representable in the fixed-width integer kind `k`. */
  predicate InIntRange(k: PrimitiveKind, i: int)
    requires IsUnsigned(k) || IsSigned(k)
  {
    if IsSigned(k) then -(Pow256(IntWidth(k)) as int) <= 2 * i < Pow256(IntWidth(k))
    else 0 <= i < Pow256(IntWidth(k))
  }

  /** The native value of a fixed-width integer read from its little-endian bytes. */
  function ReadInt(kind: PrimitiveKind, b: Bytes): (i: int)
    requires IsUnsigned(kind) || IsSigned(kind)
    requires |b| == IntWidth(kind)
    ensures InIntRange(kind, i)
  {
    if IsSigned(kind) then ToSigned(FromLE(b), |b|) else FromLE(b)
  }

  /** The little-endian bytes of a native fixed-width integer. */
  function WriteInt(kind: PrimitiveKind, i: int): (b: Bytes)
    requires IsUnsigned(kind) || IsSigned(kind)
    requires InIntRange(kind, i)
    ensures |b| == IntWidth(kind)
  {
    var w := IntWidth(kind);
    ToLE(if IsSigned(kind) then FromSigned(i, w) else i, w)
  }

  /** Writing back what was read reproduces the bytes. */
  lemma WriteReadInt(kind: PrimitiveKind, b: Bytes)
    requires IsUnsigned(kind) || IsSigned(kind)
    requires |b| == IntWidth(kind)
    ensures WriteInt(kind, ReadInt(kind, b)) == b
  {
    ToFromLE(b);
    if IsSigned(kind) {
      SignedBits(FromLE(b), |b|);
    }
  }

  /** Reading back what was written reproduces the value. */
  lemma ReadWriteInt(kind: PrimitiveKind, i: int)
    requires IsUnsigned(kind) || IsSigned(kind)
    requires InIntRange(kind, i)
    ensures ReadInt(kind, WriteInt(kind, i)) == i
  {
    var w := IntWidth(kind);
    if IsSigned(kind) {
      FromToLE(FromSigned(i, w), w);
      SignedValue(i, w);
    } else {
      FromToLE(i, w);
    }
  }

  /** Decode a fixed-width integer natively and encode it again. */
  function DecodeFixed(kind: PrimitiveKind, input: Bytes): (r: Step)
    requires IsUnsigned(kind) || IsSigned(kind)
    ensures r.Ok? ==> r.value.0 + r.value.1 == input
    ensures r.Ok? <==> IntWidth(kind) <= |input|
    ensures r.Err? ==> r.error == Codec(UnexpectedEof)
  {
    var read :- Lift(ReadBytes(input, IntWidth(kind)));
    var value := ReadInt(kind, read.0);
    WriteReadInt(kind, read.0);
    Ok((WriteInt(kind, value), read.1))
  }

  /** A fixed-width integer is re-emitted byte for byte. */
  lemma FixedAt(kind: PrimitiveKind, input: Bytes)
    requires (IsUnsigned(kind) || IsSigned(kind)) && IntWidth(kind) <= |input|
    ensures DecodeFixed(kind, input) == Ok((input[..IntWidth(kind)], input[IntWidth(kind)..]))
  {
    WriteReadInt(kind, input[..IntWidth(kind)]);
  }

  /** A length-prefixed string: the bytes must be well-formed UTF-8. */
  function DecodeStr(input: Bytes): (r: Step)
    ensures r.Ok? ==> r.value.0 + r.value.1 == input
    ensures r.Err? ==> r.error.Codec?
    ensures var len := DecodeCompact(4, input);
      len.Ok? && len.value.0 <= |len.value.1| ==>
        (r.Ok? <==> WellFormedUtf8(len.value.1[..len.value.0]))
        && (r.Err? ==> r.error == Codec(InvalidUtf8))
  {
    var len :- Lift(DecodeCompact(4, input));
    var body :- Lift(ReadBytes(len.1, len.0));
    if !WellFormedUtf8(body.0) then Err(Codec(InvalidUtf8))
    else
      CompactCanonical(4, input);
      Ok((EncodeCompact(len.0) + body.0, body.1))
  }

  /** How a string whose length prefix decoded is read. */
  lemma StrAt(input: Bytes, n: nat, mid: Bytes)
    requires DecodeCompact(4, input) == Ok((n, mid)) && n <= |mid| && WellFormedUtf8(mid[..n])
    ensures n < U128Limit
    ensures DecodeStr(input) == Ok((EncodeCompact(n) + mid[..n], mid[n..]))
  {
    CompactCanonical(4, input);
  }

  /** A primitive: booleans and fixed-width integers are read and re-emitted,
      strings are length-prefixed; Char, U256 and I256 are refused. */
  function DecodePrimitive(kind: PrimitiveKind, input: Bytes): (r: Step)
    ensures r.Ok? ==> r.value.0 + r.value.1 == input
    ensures r == Err(UnsupportedPrimitive(kind)) <==> kind == Char || kind == U256 || kind == I256
    ensures r.Err? && !r.error.UnsupportedPrimitive? ==> r.error.Codec?
    ensures kind == Bool ==> (r.Ok? <==> 0 < |input| && input[0] <= 1)
  {
    match kind
    case Bool =>
      var read :- Lift(ReadBytes(input, 1));
      if read.0[0] > 1 then Err(Codec(InvalidBool))
      else
        var value := read.0[0] == 1;
        Ok(([if value then 1 else 0], read.1))
    case Char => Err(UnsupportedPrimitive(Char))
    case U256 => Err(UnsupportedPrimitive(U256))
    case I256 => Err(UnsupportedPrimitive(I256))
    case Str => DecodeStr(input)
    case _ => DecodeFixed(kind, input)
  }

  /** A compact integer whose static type is the primitive `kind`. */
  function DecodeCompactPrimitive(kind: PrimitiveKind, input: Bytes): (r: Step)
    ensures r.Ok? ==> r.value.0 + r.value.1 == input
    ensures r == Err(InvalidCompactPrimitive(kind)) <==> !IsUnsigned(kind)
    ensures IsUnsigned(kind) ==> (r.Ok? <==> DecodeCompact(IntWidth(kind), input).Ok?)
    ensures IsUnsigned(kind) && r.Err? ==> r.error == Codec(DecodeCompact(IntWidth(kind), input).error)
  {
    if !IsUnsigned(kind) then Err(InvalidCompactPrimitive(kind))
    else
      var d :- Lift(DecodeCompact(IntWidth(kind), input));
      CompactCanonical(IntWidth(kind), input);
      Ok((EncodeCompact(d.0), d.1))
  }

  /** The `Compact(inner)` shape of type `id`: the inner type must be an
      unsigned primitive or a one-field composite wrapping one. A missing inner
      type is reported under the outer id `id`, as subxt's `decode_type` does. */
  function DecodeCompactType(reg: Registry, id: TypeId, inner: TypeId, input: Bytes): (r: Step)
    ensures r.Ok? ==> r.value.0 + r.value.1 == input
    ensures inner !in reg ==> r == Err(TypeNotFound(id))
    ensures inner in reg && reg[inner].Primitive? ==> r == DecodeCompactPrimitive(reg[inner].kind, input)
    ensures inner in reg && reg[inner].Composite? && |reg[inner].fields| != 1 ==>
      r == Err(InvalidCompactType(NotSingleField))
    ensures inner in reg && reg[inner].Composite? && |reg[inner].fields| == 1 ==>
      var field := reg[inner].fields[0];
      && (field !in reg ==> r == Err(TypeNotFound(field)))
      && (field in reg && !reg[field].Primitive? ==> r == Err(InvalidCompactType(NotSinglePrimitiveField)))
      && (field in reg && reg[field].Primitive? ==> r == DecodeCompactPrimitive(reg[field].kind, input))
    ensures inner in reg && !reg[inner].Primitive? && !reg[inner].Composite? ==>
      r == Err(InvalidCompactType(NotPrimitiveOrComposite))
  {
    if inner !in reg then Err(TypeNotFound(id))
    else match reg[inner]
      case Primitive(kind) => DecodeCompactPrimitive(kind, input)
      case Composite(fields) =>
        if |fields| != 1 then Err(InvalidCompactType(NotSingleField))
        else if fields[0] !in reg then Err(TypeNotFound(fields[0]))
        else if reg[fields[0]].Primitive? then DecodeCompactPrimitive(reg[fields[0]].kind, input)
        else Err(InvalidCompactType(NotSinglePrimitiveField))
      case _ => Err(InvalidCompactType(NotPrimitiveOrComposite))
  }

  /** Decode one value of type `id`; on success the output followed by the rest
      is exactly the input, so the output is the bytes consumed. */
  function DecodeType(reg: Registry, fuel: nat, id: TypeId, input: Bytes): (r: Step)
    ensures r.Ok? ==> r.value.0 + r.value.1 == input
    ensures id !in reg ==> r == Err(TypeNotFound(id))
    ensures id in reg && fuel == 0 ==> r == Err(RecursionLimit)
    ensures id in reg && 0 < fuel && reg[id].BitSequence? ==> r == Err(Unimplemented)
    decreases fuel, 0, 0
  {
    if id !in reg then Err(TypeNotFound(id))
    else if fuel == 0 then Err(RecursionLimit)
    else match reg[id]
      case Composite(fields) => DecodeFields(reg, fuel - 1, fields, input)
      case Variant(variants) => DecodeVariant(reg, fuel - 1, variants, input)
      case Sequence(element) => DecodeSequence(reg, fuel - 1, element, input)
      case Array(n, element) => DecodeRepeat(reg, fuel - 1, element, n, input)
      case Tuple(elements) => DecodeFields(reg, fuel - 1, elements, input)
      case Primitive(kind) => DecodePrimitive(kind, input)
      case Compact(inner) => DecodeCompactType(reg, id, inner, input)
      case BitSequence => Err(Unimplemented)
  }

  /** An enum value: a tag byte selecting the variant by declared index, then
      that variant's fields. */
  function DecodeVariant(reg: Registry, fuel: nat, variants: seq<VariantDef>, input: Bytes): (r: Step)
    ensures r.Ok? ==> r.value.0 + r.value.1 == input
    ensures |input| == 0 ==> r == Err(Codec(UnexpectedEof))
    ensures 0 < |input| && FindVariant(variants, input[0]).None? ==> r == Err(VariantNotFound(input[0]))
    ensures r.Ok? ==> 0 < |input| && FindVariant(variants, input[0]).Some? && 0 < |r.value.0| && r.value.0[0] == input[0]
    decreases fuel, 2, 0
  {
    var tag :- Lift(ReadBytes(input, 1));
    var found := FindVariant(variants, tag.0[0]);
    if found.None? then Err(VariantNotFound(tag.0[0]))
    else
      var body :- DecodeFields(reg, fuel, found.value.fields, tag.1);
      Ok((tag.0 + body.0, body.1))
  }

  /** A sequence: a compact u32 length, then that many elements. */
  function DecodeSequence(reg: Registry, fuel: nat, element: TypeId, input: Bytes): (r: Step)
    ensures r.Ok? ==> r.value.0 + r.value.1 == input
    decreases fuel, 2, 0
  {
    var len :- Lift(DecodeCompact(4, input));
    var items :- DecodeRepeat(reg, fuel, element, len.0, len.1);
    CompactCanonical(4, input);
    Ok((EncodeCompact(len.0) + items.0, items.1))
  }

  /** Decode the types `ids` one after another, concatenating their outputs. */
  function DecodeFields(reg: Registry, fuel: nat, ids: seq<TypeId>, input: Bytes): (r: Step)
    ensures r.Ok? ==> r.value.0 + r.value.1 == input
    decreases fuel, 1, |ids|
  {
    if |ids| == 0 then Ok(([], input))
    else
      var head :- DecodeType(reg, fuel, ids[0], input);
      var tail :- DecodeFields(reg, fuel, ids[1..], head.1);
      Ok((head.0 + tail.0, tail.1))
  }

  /** Decode `count` values of type `element` one after another. */
  function DecodeRepeat(reg: Registry, fuel: nat, element: TypeId, count: nat, input: Bytes): (r: Step)
    ensures r.Ok? ==> r.value.0 + r.value.1 == input
    decreases fuel, 1, count
  {
    if count == 0 then Ok(([], input))
    else
      var head :- DecodeType(reg, fuel, element, input);
      var tail :- DecodeRepeat(reg, fuel, element, count - 1, head.1);
      Ok((head.0 + tail.0, tail.1))
  }

  /* ---- Which decoder a type id dispatches to ---- */

  lemma FieldsAt(reg: Registry, fuel: nat, id: TypeId, input: Bytes)
    requires id in reg && (reg[id].Composite? || reg[id].Tuple?) && 0 < fuel
    ensures DecodeType(reg, fuel, id, input)
      == DecodeFields(reg, fuel - 1, if reg[id].Composite? then reg[id].fields else reg[id].elements, input)
  {
  }

  lemma ArrayAt(reg: Registry, fuel: nat, id: TypeId, input: Bytes)
    requires id in reg && reg[id].Array? && 0 < fuel
    ensures DecodeType(reg, fuel, id, input) == DecodeRepeat(reg, fuel - 1, reg[id].element, reg[id].len, input)
  {
  }

  lemma CompactTypeAt(reg: Registry, fuel: nat, id: TypeId, input: Bytes)
    requires id in reg && reg[id].Compact? && 0 < fuel
    ensures DecodeType(reg, fuel, id, input) == DecodeCompactType(reg, id, reg[id].inner, input)
  {
  }

  lemma PrimitiveAt(reg: Registry, fuel: nat, id: TypeId, input: Bytes)
    requires id in reg && reg[id].Primitive? && 0 < fuel
    ensures DecodeType(reg, fuel, id, input) == DecodePrimitive(reg[id].kind, input)
  {
  }

  lemma VariantAt(reg: Registry, fuel: nat, id: TypeId, input: Bytes)
    requires id in reg && reg[id].Variant? && 0 < fuel
    ensures DecodeType(reg, fuel, id, input) == DecodeVariant(reg, fuel - 1, reg[id].variants, input)
  {
  }

  lemma SequenceAt(reg: Registry, fuel: nat, id: TypeId, input: Bytes)
    requires id in reg && reg[id].Sequence? && 0 < fuel
    ensures DecodeType(reg, fuel, id, input) == DecodeSequence(reg, fuel - 1, reg[id].element, input)
  {
  }

  /* ---- One step of each recursive shape, stated from its parts ---- */

  lemma FieldsStep(reg: Registry, fuel: nat, ids: seq<TypeId>, input: Bytes, head: Bytes, mid: Bytes, tail: Bytes, rest: Bytes)
    requires |ids| > 0
    requires DecodeType(reg, fuel, ids[0], input) == Ok((head, mid))
    requires DecodeFields(reg, fuel, ids[1..], mid) == Ok((tail, rest))
    ensures DecodeFields(reg, fuel, ids, input) == Ok((head + tail, rest))
  {
  }

  lemma RepeatStep(reg: Registry, fuel: nat, element: TypeId, count: nat, input: Bytes, head: Bytes, mid: Bytes, tail: Bytes, rest: Bytes)
    requires count > 0
    requires DecodeType(reg, fuel, element, input) == Ok((head, mid))
    requires DecodeRepeat(reg, fuel, element, count - 1, mid) == Ok((tail, rest))
    ensures DecodeRepeat(reg, fuel, element, count, input) == Ok((head + tail, rest))
  {
  }

  lemma SequenceStep(reg: Registry, fuel: nat, element: TypeId, input: Bytes, n: nat, mid: Bytes, items: Bytes, rest: Bytes)
    requires DecodeCompact(4, input) == Ok((n, mid))
    requires DecodeRepeat(reg, fuel, element, n, mid) == Ok((items, rest))
    ensures n < U128Limit
    ensures DecodeSequence(reg, fuel, element, input) == Ok((EncodeCompact(n) + items, rest))
  {
    Pow256Values();
  }

  lemma VariantStep(reg: Registry, fuel: nat, variants: seq<VariantDef>, input: Bytes, v: VariantDef, body: Bytes, rest: Bytes)
    requires |input| > 0
    requires FindVariant(variants, input[0]) == Some(v)
    requires DecodeFields(reg, fuel, v.fields, input[1..]) == Ok((body, rest))
    ensures DecodeVariant(reg, fuel, variants, input) == Ok(([input[0]] + body, rest))
  {
    assert input[..1] == [input[0]];
  }

  /* ---- Decoding only looks at the bytes it consumes ---- */

  /** `b` is how decoding `s + t` turns out when decoding `s` turned out as `a`:
      a success consumes the same bytes and leaves `t` behind them, and a
      refusal that is not a premature end of input is the same refusal. */
  predicate Extends<T(==)>(a: Result<(T, Bytes), Error>, b: Result<(T, Bytes), Error>, t: Bytes) {
    && (a.Ok? ==> b == Ok((a.value.0, a.value.1 + t)))
    && (a.Err? && a.error != Codec(UnexpectedEof) ==> b == a)
  }

  lemma ReadExtends(s: Bytes, t: Bytes, n: nat)
    requires n <= |s|
    ensures ReadBytes(s + t, n) == Ok((s[..n], s[n..] + t))
  {
    assert (s + t)[..n] == s[..n];
    assert (s + t)[n..] == s[n..] + t;
  }

  lemma FixedExtends(kind: PrimitiveKind, s: Bytes, t: Bytes)
    requires IsUnsigned(kind) || IsSigned(kind)
    ensures Extends(DecodeFixed(kind, s), DecodeFixed(kind, s + t), t)
  {
    if IntWidth(kind) <= |s| {
      ReadExtends(s, t, IntWidth(kind));
    }
  }

  lemma StrExtends(s: Bytes, t: Bytes)
    ensures Extends(DecodeStr(s), DecodeStr(s + t), t)
  {
    CompactExtends(4, s, t);
    var len := DecodeCompact(4, s);
    if len.Ok? && len.value.0 <= |len.value.1| {
      ReadExtends(len.value.1, t, len.value.0);
    }
  }

  lemma PrimitiveExtends(kind: PrimitiveKind, s: Bytes, t: Bytes)
    ensures Extends(DecodePrimitive(kind, s), DecodePrimitive(kind, s + t), t)
  {
    match kind
    case Bool =>
      if |s| >= 1 {
        ReadExtends(s, t, 1);
      }
    case Str => StrExtends(s, t);
    case Char =>
    case U256 =>
    case I256 =>
    case _ => FixedExtends(kind, s, t);
  }

  lemma CompactPrimitiveExtends(kind: PrimitiveKind, s: Bytes, t: Bytes)
    ensures Extends(DecodeCompactPrimitive(kind, s), DecodeCompactPrimitive(kind, s + t), t)
  {
    if IsUnsigned(kind) {
      CompactExtends(IntWidth(kind), s, t);
    }
  }

  lemma CompactTypeExtends(reg: Registry, id: TypeId, inner: TypeId, s: Bytes, t: Bytes)
    ensures Extends(DecodeCompactType(reg, id, inner, s), DecodeCompactType(reg, id, inner, s + t), t)
  {
    if inner in reg {
      match reg[inner]
      case Primitive(kind) => CompactPrimitiveExtends(kind, s, t);
      case Composite(fields) =>
        if |fields| == 1 && fields[0] in reg && reg[fields[0]].Primitive? {
          CompactPrimitiveExtends(reg[fields[0]].kind, s, t);
        }
      case _ =>
    }
  }

  /** Decoding a value from `s` and from `s` followed by more bytes agree. */
  lemma {:induction false} TypeExtends(reg: Registry, fuel: nat, id: TypeId, s: Bytes, t: Bytes)
    ensures Extends(DecodeType(reg, fuel, id, s), DecodeType(reg, fuel, id, s + t), t)
    decreases fuel, 0, 0
  {
    if id in reg && fuel > 0 {
      match reg[id]
      case Composite(fields) => FieldsExtends(reg, fuel - 1, fields, s, t);
      case Variant(variants) => VariantExtends(reg, fuel - 1, variants, s, t);
      case Sequence(element) => SequenceExtends(reg, fuel - 1, element, s, t);
      case Array(n, element) => RepeatExtends(reg, fuel - 1, element, n, s, t);
      case Tuple(elements) => FieldsExtends(reg, fuel - 1, elements, s, t);
      case Primitive(kind) => PrimitiveExtends(kind, s, t);
      case Compact(inner) => CompactTypeExtends(reg, id, inner, s, t);
      case BitSequence =>
    }
  }

  lemma {:induction false} VariantExtends(reg: Registry, fuel: nat, variants: seq<VariantDef>, s: Bytes, t: Bytes)
    ensures Extends(DecodeVariant(reg, fuel, variants, s), DecodeVariant(reg, fuel, variants, s + t), t)
    decreases fuel, 2, 0
  {
    if |s| >= 1 {
      ReadExtends(s, t, 1);
      var found := FindVariant(variants, s[0]);
      if found.Some? {
        FieldsExtends(reg, fuel, found.value.fields, s[1..], t);
      }
    }
  }

  lemma {:induction false} SequenceExtends(reg: Registry, fuel: nat, element: TypeId, s: Bytes, t: Bytes)
    ensures Extends(DecodeSequence(reg, fuel, element, s), DecodeSequence(reg, fuel, element, s + t), t)
    decreases fuel, 2, 0
  {
    CompactExtends(4, s, t);
    var len := DecodeCompact(4, s);
    if len.Ok? {
      RepeatExtends(reg, fuel, element, len.value.0, len.value.1, t);
    }
  }

  lemma {:induction false} FieldsExtends(reg: Registry, fuel: nat, ids: seq<TypeId>, s: Bytes, t: Bytes)
    ensures Extends(DecodeFields(reg, fuel, ids, s), DecodeFields(reg, fuel, ids, s + t), t)
    decreases fuel, 1, |ids|
  {
    if |ids| > 0 {
      TypeExtends(reg, fuel, ids[0], s, t);
      var head := DecodeType(reg, fuel, ids[0], s);
      if head.Ok? {
        FieldsExtends(reg, fuel, ids[1..], head.value.1, t);
      }
    }
  }

  lemma {:induction false} RepeatExtends(reg: Registry, fuel: nat, element: TypeId, count: nat, s: Bytes, t: Bytes)
    ensures Extends(DecodeRepeat(reg, fuel, element, count, s), DecodeRepeat(reg, fuel, element, count, s + t), t)
    decreases fuel, 1, count
  {
    if count > 0 {
      TypeExtends(reg, fuel, element, s, t);
      var head := DecodeType(reg, fuel, element, s);
      if head.Ok? {
        RepeatExtends(reg, fuel, element, count - 1, head.value.1, t);
      }
    }
  }
}
