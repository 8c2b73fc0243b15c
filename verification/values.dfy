/** Typed values and their SCALE encoding, the reference the walker is proved
    against: decoding the encoding of a well-typed value re-emits exactly that
    encoding and leaves what followed it, and every truncation of it fails
    with an unexpected end of input. */
module TypedValues {
  import opened Base
  import opened LittleEndian
  import opened Scale
  import opened TypeRegistry
  import opened TypeWalker

  /** A value of the metadata's type language. Integers of every fixed width,
      signed or not, are `VInt`; the registry says which width. */
  datatype Value =
    | VBool(b: bool)
    | VInt(i: int)
    | VStr(bytes: Bytes)
    | VCompact(n: nat)
    | VComposite(fields: seq<Value>)
    | VVariant(tag: Byte, fields: seq<Value>)
    | VSequence(items: seq<Value>)
    | VArray(items: seq<Value>)
    | VTuple(items: seq<Value>)

  /** The byte width of the unsigned integer a `Compact(inner)` carries: `inner`
      is that primitive or a one-field composite wrapping it. */
  function CompactWidth(reg: Registry, inner: TypeId): Option<nat> {
    if inner !in reg then None
    else match reg[inner]
      case Primitive(k) => if IsUnsigned(k) then Some(IntWidth(k)) else None
      case Composite(fields) =>
        if |fields| == 1 && fields[0] in reg && reg[fields[0]].Primitive? && IsUnsigned(reg[fields[0]].kind)
        then Some(IntWidth(reg[fields[0]].kind))
        else None
      case _ => None
  }

  /** `v` is a value of type `id`: its shape follows the type's, every id it
      reaches resolves, lengths fit a compact u32, strings are UTF-8, and no
      unsupported primitive or bit sequence is involved. */
  predicate WellTyped(reg: Registry, id: TypeId, v: Value)
    decreases v
  {
    id in reg &&
    match reg[id]
    case Composite(fs) => v.VComposite? && FieldsTyped(reg, fs, v.fields)
    case Variant(vs) =>
      v.VVariant? && FindVariant(vs, v.tag).Some?
      && FieldsTyped(reg, FindVariant(vs, v.tag).value.fields, v.fields)
    case Sequence(e) => v.VSequence? && |v.items| < Pow256(4) && ItemsTyped(reg, e, v.items)
    case Array(n, e) => v.VArray? && |v.items| == n && ItemsTyped(reg, e, v.items)
    case Tuple(es) => v.VTuple? && FieldsTyped(reg, es, v.items)
    case Primitive(k) => PrimitiveTyped(k, v)
    case Compact(inner) =>
      v.VCompact? && CompactWidth(reg, inner).Some? && v.n < Pow256(CompactWidth(reg, inner).value)
    case BitSequence => false
  }

  /** `v` is a value of the primitive `k`; Char, U256 and I256 have none. */
  predicate PrimitiveTyped(k: PrimitiveKind, v: Value) {
    if k.Bool? then v.VBool?
    else if k.Str? then v.VStr? && |v.bytes| < Pow256(4) && WellFormedUtf8(v.bytes)
    else if IsUnsigned(k) || IsSigned(k) then v.VInt? && InIntRange(k, v.i)
    else false
  }

  /** `vs[i]` is a value of type `ids[i]` for every position. */
  predicate FieldsTyped(reg: Registry, ids: seq<TypeId>, vs: seq<Value>)
    decreases vs
  {
    |ids| == |vs| && (|vs| == 0 || (WellTyped(reg, ids[0], vs[0]) && FieldsTyped(reg, ids[1..], vs[1..])))
  }

  /** Every element of `vs` is a value of type `e`. */
  predicate ItemsTyped(reg: Registry, e: TypeId, vs: seq<Value>)
    decreases vs
  {
    |vs| == 0 || (WellTyped(reg, e, vs[0]) && ItemsTyped(reg, e, vs[1..]))
  }

  /** The SCALE encoding of a value of type `id`. */
  function Encode(reg: Registry, id: TypeId, v: Value): Bytes
    requires WellTyped(reg, id, v)
    decreases v
  {
    Pow256Values();
    match v
    case VBool(_) | VInt(_) | VStr(_) => EncodePrimitive(reg[id].kind, v)
    case VCompact(n) =>
      WidthBound(CompactWidth(reg, reg[id].inner).value);
      EncodeCompact(n)
    case VComposite(fs) => EncodeFields(reg, reg[id].fields, fs)
    case VVariant(tag, fs) => [tag] + EncodeFields(reg, FindVariant(reg[id].variants, tag).value.fields, fs)
    case VSequence(items) => EncodeCompact(|items|) + EncodeItems(reg, reg[id].element, items)
    case VArray(items) => EncodeItems(reg, reg[id].element, items)
    case VTuple(items) => EncodeFields(reg, reg[id].elements, items)
  }

  /** A boolean is one byte, an integer its little-endian bytes, a string its
      compact length followed by its bytes. */
  function EncodePrimitive(k: PrimitiveKind, v: Value): Bytes
    requires PrimitiveTyped(k, v)
  {
    Pow256Values();
    if v.VBool? then [if v.b then 1 else 0]
    else if v.VStr? then EncodeCompact(|v.bytes|) + v.bytes
    else WriteInt(k, v.i)
  }

  function EncodeFields(reg: Registry, ids: seq<TypeId>, vs: seq<Value>): Bytes
    requires FieldsTyped(reg, ids, vs)
    decreases vs
  {
    if |vs| == 0 then [] else Encode(reg, ids[0], vs[0]) + EncodeFields(reg, ids[1..], vs[1..])
  }

  function EncodeItems(reg: Registry, e: TypeId, vs: seq<Value>): Bytes
    requires ItemsTyped(reg, e, vs)
    decreases vs
  {
    if |vs| == 0 then [] else Encode(reg, e, vs[0]) + EncodeItems(reg, e, vs[1..])
  }

  /** Nesting depth of a value: the recursion the walker needs to decode it. */
  function Depth(v: Value): nat
    decreases v
  {
    match v
    case VComposite(fs) => 1 + MaxDepth(fs)
    case VVariant(_, fs) => 1 + MaxDepth(fs)
    case VSequence(items) => 1 + MaxDepth(items)
    case VArray(items) => 1 + MaxDepth(items)
    case VTuple(items) => 1 + MaxDepth(items)
    case _ => 1
  }

  function MaxDepth(vs: seq<Value>): nat
    decreases vs
  {
    if |vs| == 0 then 0 else Max(Depth(vs[0]), MaxDepth(vs[1..]))
  }

  /* ---- Round trip ---- */

  lemma FixedRoundTrip(kind: PrimitiveKind, i: int, t: Bytes)
    requires (IsUnsigned(kind) || IsSigned(kind)) && InIntRange(kind, i)
    ensures DecodeFixed(kind, WriteInt(kind, i) + t) == Ok((WriteInt(kind, i), t))
  {
    var e := WriteInt(kind, i);
    var w := IntWidth(kind);
    assert (e + t)[..w] == e && (e + t)[w..] == t;
    FixedAt(kind, e + t);
  }

  lemma StrRoundTrip(bytes: Bytes, t: Bytes)
    requires |bytes| < Pow256(4) && WellFormedUtf8(bytes)
    ensures |bytes| < U128Limit
    ensures DecodeStr(EncodeCompact(|bytes|) + bytes + t) == Ok((EncodeCompact(|bytes|) + bytes, t))
  {
    var n := |bytes|;
    CompactRoundTrip(4, n, bytes + t);
    SplitAt(bytes, t);
    Assoc(EncodeCompact(n), bytes, t);
    StrAt(EncodeCompact(n) + (bytes + t), n, bytes + t);
  }

  lemma PrimitiveRoundTrip(k: PrimitiveKind, v: Value, t: Bytes)
    requires PrimitiveTyped(k, v)
    ensures DecodePrimitive(k, EncodePrimitive(k, v) + t) == Ok((EncodePrimitive(k, v), t))
  {
    if k.Bool? {
      SplitAt(EncodePrimitive(k, v), t);
    } else if k.Str? {
      StrRoundTrip(v.bytes, t);
    } else {
      FixedRoundTrip(k, v.i, t);
    }
  }

  lemma CompactRoundTripAt(reg: Registry, fuel: nat, id: TypeId, n: nat, t: Bytes)
    requires id in reg && reg[id].Compact? && 0 < fuel
    requires CompactWidth(reg, reg[id].inner).Some? && n < Pow256(CompactWidth(reg, reg[id].inner).value)
    ensures n < U128Limit
    ensures DecodeType(reg, fuel, id, EncodeCompact(n) + t) == Ok((EncodeCompact(n), t))
  {
    var inner := reg[id].inner;
    CompactRoundTrip(CompactWidth(reg, inner).value, n, t);
    CompactTypeAt(reg, fuel, id, EncodeCompact(n) + t);
  }

  lemma VariantRoundTrip(reg: Registry, fuel: nat, id: TypeId, tag: Byte, found: VariantDef, body: Bytes, t: Bytes)
    requires id in reg && reg[id].Variant? && 0 < fuel
    requires FindVariant(reg[id].variants, tag) == Some(found)
    requires DecodeFields(reg, fuel - 1, found.fields, body + t) == Ok((body, t))
    ensures DecodeType(reg, fuel, id, [tag] + body + t) == Ok(([tag] + body, t))
  {
    var input := [tag] + (body + t);
    assert [tag] + body + t == input;
    assert input[0] == tag && input[1..] == body + t;
    VariantStep(reg, fuel - 1, reg[id].variants, input, found, body, t);
    VariantAt(reg, fuel, id, input);
  }

  lemma SequenceRoundTrip(reg: Registry, fuel: nat, id: TypeId, n: nat, body: Bytes, t: Bytes)
    requires id in reg && reg[id].Sequence? && 0 < fuel && n < Pow256(4)
    requires DecodeRepeat(reg, fuel - 1, reg[id].element, n, body + t) == Ok((body, t))
    ensures n < U128Limit
    ensures DecodeType(reg, fuel, id, EncodeCompact(n) + body + t) == Ok((EncodeCompact(n) + body, t))
  {
    var elem := reg[id].element;
    CompactRoundTrip(4, n, body + t);
    var input := EncodeCompact(n) + (body + t);
    assert EncodeCompact(n) + body + t == input;
    SequenceStep(reg, fuel - 1, elem, input, n, body + t, body, t);
    SequenceAt(reg, fuel, id, input);
  }

  lemma MaxDepthBounds(vs: seq<Value>)
    requires |vs| > 0
    ensures Depth(vs[0]) <= MaxDepth(vs) && MaxDepth(vs[1..]) <= MaxDepth(vs)
  {
  }

  /** Round trip: decoding the encoding of a well-typed value, with enough
      fuel, consumes exactly that encoding, re-emits it unchanged and leaves
      the bytes after it. */
  lemma {:induction false} RoundTrip(reg: Registry, fuel: nat, id: TypeId, v: Value, t: Bytes)
    requires WellTyped(reg, id, v) && Depth(v) <= fuel
    ensures DecodeType(reg, fuel, id, Encode(reg, id, v) + t) == Ok((Encode(reg, id, v), t))
    decreases v, 1
  {
    match reg[id]
    case Composite(_) => ProductCase(reg, fuel, id, v, t);
    case Tuple(_) => ProductCase(reg, fuel, id, v, t);
    case Variant(_) => VariantCase(reg, fuel, id, v, t);
    case Sequence(_) => SequenceCase(reg, fuel, id, v, t);
    case Array(_, _) => ArrayCase(reg, fuel, id, v, t);
    case Primitive(_) => PrimitiveCase(reg, fuel, id, v, t);
    case Compact(_) => CompactCase(reg, fuel, id, v, t);
  }

  lemma {:induction false} ProductCase(reg: Registry, fuel: nat, id: TypeId, v: Value, t: Bytes)
    requires WellTyped(reg, id, v) && Depth(v) <= fuel && (reg[id].Composite? || reg[id].Tuple?)
    ensures DecodeType(reg, fuel, id, Encode(reg, id, v) + t) == Ok((Encode(reg, id, v), t))
    decreases v, 0
  {
    var ids := if reg[id].Composite? then reg[id].fields else reg[id].elements;
    var vs := if v.VComposite? then v.fields else v.items;
    assert Encode(reg, id, v) == EncodeFields(reg, ids, vs);
    FieldsRoundTrip(reg, fuel - 1, ids, vs, t);
    FieldsAt(reg, fuel, id, Encode(reg, id, v) + t);
  }

  lemma {:induction false} VariantCase(reg: Registry, fuel: nat, id: TypeId, v: Value, t: Bytes)
    requires WellTyped(reg, id, v) && Depth(v) <= fuel && reg[id].Variant?
    ensures DecodeType(reg, fuel, id, Encode(reg, id, v) + t) == Ok((Encode(reg, id, v), t))
    decreases v, 0
  {
    var found := FindVariant(reg[id].variants, v.tag).value;
    var body := EncodeFields(reg, found.fields, v.fields);
    FieldsRoundTrip(reg, fuel - 1, found.fields, v.fields, t);
    VariantRoundTrip(reg, fuel, id, v.tag, found, body, t);
    assert Encode(reg, id, v) == [v.tag] + body;
  }

  lemma {:induction false} SequenceCase(reg: Registry, fuel: nat, id: TypeId, v: Value, t: Bytes)
    requires WellTyped(reg, id, v) && Depth(v) <= fuel && reg[id].Sequence?
    ensures DecodeType(reg, fuel, id, Encode(reg, id, v) + t) == Ok((Encode(reg, id, v), t))
    decreases v, 0
  {
    var elem := reg[id].element;
    var body := EncodeItems(reg, elem, v.items);
    ItemsRoundTrip(reg, fuel - 1, elem, v.items, t);
    SequenceRoundTrip(reg, fuel, id, |v.items|, body, t);
    assert Encode(reg, id, v) == EncodeCompact(|v.items|) + body;
  }

  lemma {:induction false} ArrayCase(reg: Registry, fuel: nat, id: TypeId, v: Value, t: Bytes)
    requires WellTyped(reg, id, v) && Depth(v) <= fuel && reg[id].Array?
    ensures DecodeType(reg, fuel, id, Encode(reg, id, v) + t) == Ok((Encode(reg, id, v), t))
    decreases v, 0
  {
    assert Encode(reg, id, v) == EncodeItems(reg, reg[id].element, v.items);
    ItemsRoundTrip(reg, fuel - 1, reg[id].element, v.items, t);
    ArrayAt(reg, fuel, id, Encode(reg, id, v) + t);
  }

  lemma PrimitiveCase(reg: Registry, fuel: nat, id: TypeId, v: Value, t: Bytes)
    requires WellTyped(reg, id, v) && Depth(v) <= fuel && reg[id].Primitive?
    ensures DecodeType(reg, fuel, id, Encode(reg, id, v) + t) == Ok((Encode(reg, id, v), t))
  {
    assert Encode(reg, id, v) == EncodePrimitive(reg[id].kind, v);
    PrimitiveAt(reg, fuel, id, Encode(reg, id, v) + t);
    PrimitiveRoundTrip(reg[id].kind, v, t);
  }

  lemma CompactCase(reg: Registry, fuel: nat, id: TypeId, v: Value, t: Bytes)
    requires WellTyped(reg, id, v) && Depth(v) <= fuel && reg[id].Compact?
    ensures DecodeType(reg, fuel, id, Encode(reg, id, v) + t) == Ok((Encode(reg, id, v), t))
  {
    CompactRoundTripAt(reg, fuel, id, v.n, t);
    assert Encode(reg, id, v) == EncodeCompact(v.n);
  }

  /** Unfolding one field of a field list's encoding. */
  lemma EncodeFieldsCons(reg: Registry, ids: seq<TypeId>, vs: seq<Value>, t: Bytes)
    requires FieldsTyped(reg, ids, vs) && |vs| > 0
    ensures WellTyped(reg, ids[0], vs[0]) && FieldsTyped(reg, ids[1..], vs[1..])
    ensures EncodeFields(reg, ids, vs) + t
      == Encode(reg, ids[0], vs[0]) + (EncodeFields(reg, ids[1..], vs[1..]) + t)
  {
  }

  /** Unfolding one item of an item list's encoding. */
  lemma EncodeItemsCons(reg: Registry, e: TypeId, vs: seq<Value>, t: Bytes)
    requires ItemsTyped(reg, e, vs) && |vs| > 0
    ensures WellTyped(reg, e, vs[0]) && ItemsTyped(reg, e, vs[1..])
    ensures EncodeItems(reg, e, vs) + t == Encode(reg, e, vs[0]) + (EncodeItems(reg, e, vs[1..]) + t)
  {
  }

  lemma {:induction false} FieldsRoundTrip(reg: Registry, fuel: nat, ids: seq<TypeId>, vs: seq<Value>, t: Bytes)
    requires FieldsTyped(reg, ids, vs) && MaxDepth(vs) <= fuel
    ensures DecodeFields(reg, fuel, ids, EncodeFields(reg, ids, vs) + t) == Ok((EncodeFields(reg, ids, vs), t))
    decreases vs, 2
  {
    if |vs| == 0 {
      assert EncodeFields(reg, ids, vs) + t == t;
    } else {
      MaxDepthBounds(vs);
      EncodeFieldsCons(reg, ids, vs, t);
      EncodeFieldsCons(reg, ids, vs, []);
      var head := Encode(reg, ids[0], vs[0]);
      var tail := EncodeFields(reg, ids[1..], vs[1..]);
      RoundTrip(reg, fuel, ids[0], vs[0], tail + t);
      FieldsRoundTrip(reg, fuel, ids[1..], vs[1..], t);
      FieldsStep(reg, fuel, ids, head + (tail + t), head, tail + t, tail, t);
    }
  }

  lemma {:induction false} ItemsRoundTrip(reg: Registry, fuel: nat, e: TypeId, vs: seq<Value>, t: Bytes)
    requires ItemsTyped(reg, e, vs) && MaxDepth(vs) <= fuel
    ensures DecodeRepeat(reg, fuel, e, |vs|, EncodeItems(reg, e, vs) + t) == Ok((EncodeItems(reg, e, vs), t))
    decreases vs, 2
  {
    if |vs| == 0 {
      assert EncodeItems(reg, e, vs) + t == t;
    } else {
      MaxDepthBounds(vs);
      EncodeItemsCons(reg, e, vs, t);
      EncodeItemsCons(reg, e, vs, []);
      var head := Encode(reg, e, vs[0]);
      var tail := EncodeItems(reg, e, vs[1..]);
      RoundTrip(reg, fuel, e, vs[0], tail + t);
      ItemsRoundTrip(reg, fuel, e, vs[1..], t);
      assert |vs[1..]| == |vs| - 1;
      RepeatStep(reg, fuel, e, |vs|, head + (tail + t), head, tail + t, tail, t);
    }
  }

  /** Truncation: every proper prefix of a well-typed value's encoding fails to
      decode, and fails for running out of input, never with a wrong value. */
  lemma Truncation(reg: Registry, fuel: nat, id: TypeId, v: Value, p: Bytes)
    requires WellTyped(reg, id, v) && Depth(v) <= fuel
    requires |p| < |Encode(reg, id, v)| && p == Encode(reg, id, v)[..|p|]
    ensures DecodeType(reg, fuel, id, p) == Err(Codec(UnexpectedEof))
  {
    var e := Encode(reg, id, v);
    var t := e[|p|..];
    assert p + t == e;
    RoundTrip(reg, fuel, id, v, []);
    assert e + [] == e;
    TypeExtends(reg, fuel, id, p, t);
  }
}
