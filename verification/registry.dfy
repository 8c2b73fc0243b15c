/** The runtime type registry and event catalog the decoder is driven by: an
    arena of type definitions keyed by numeric id, and the events of every
    pallet keyed by (pallet index, variant index). Both are read-only. */
module TypeRegistry {
  import opened Base

  type TypeId = nat

  /** The primitive kinds of the metadata's type language. */
  datatype PrimitiveKind =
    | Bool | Char | Str
    | U8 | U16 | U32 | U64 | U128 | U256
    | I8 | I16 | I32 | I64 | I128 | I256

  /** One case of a tagged union: its declared index need not be its position. */
  datatype VariantDef = VariantDef(name: string, index: Byte, fields: seq<TypeId>)

  /** The closed set of type shapes. */
  datatype TypeDef =
    | Composite(fields: seq<TypeId>)
    | Variant(variants: seq<VariantDef>)
    | Sequence(element: TypeId)
    | Array(len: nat, element: TypeId)
    | Tuple(elements: seq<TypeId>)
    | Primitive(kind: PrimitiveKind)
    | Compact(inner: TypeId)
    | BitSequence

  type Registry = map<TypeId, TypeDef>

  /** The unsigned integer kinds, the ones a compact encoding may wrap. */
  predicate IsUnsigned(k: PrimitiveKind) {
    k.U8? || k.U16? || k.U32? || k.U64? || k.U128?
  }

  predicate IsSigned(k: PrimitiveKind) {
    k.I8? || k.I16? || k.I32? || k.I64? || k.I128?
  }

  /** Byte width of a fixed-width integer kind. */
  function IntWidth(k: PrimitiveKind): (w: nat)
    requires IsUnsigned(k) || IsSigned(k)
    ensures w == 1 || w == 2 || w == 4 || w == 8 || w == 16
  {
    match k
    case U8 => 1
    case I8 => 1
    case U16 => 2
    case I16 => 2
    case U32 => 4
    case I32 => 4
    case U64 => 8
    case I64 => 8
    case _ => 16
  }

  /** The first variant, in declared order, whose declared index is `tag`. */
  function FindVariant(vs: seq<VariantDef>, tag: Byte): (r: Option<VariantDef>)
    ensures r.None? <==> forall i :: 0 <= i < |vs| ==> vs[i].index != tag
    ensures r.Some? ==> exists i :: 0 <= i < |vs| && vs[i] == r.value && r.value.index == tag
                                   && forall j :: 0 <= j < i ==> vs[j].index != tag
  {
    if |vs| == 0 then None
    else if vs[0].index == tag then Some(vs[0])
    else
      var r := FindVariant(vs[1..], tag);
      assert r.Some? ==> exists i :: 0 <= i < |vs[1..]| && vs[1..][i] == r.value && r.value.index == tag
                                   && forall j :: 0 <= j < i ==> vs[1..][j].index != tag;
      assert forall i :: 1 <= i < |vs| ==> vs[i] == vs[1..][i - 1];
      r
  }

  /** What the catalog knows of one event: owning pallet, event name and the
      type ids of its fields in declared order. */
  datatype EventMetadata = EventMetadata(pallet: string, event: string, fields: seq<TypeId>)

  type Catalog = map<(Byte, Byte), EventMetadata>
}
