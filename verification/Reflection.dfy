/**
 Type descriptors and the values they describe.

 A field descriptor points at its type (`Alias`, `ConstantArray`, `DynArray`); a type
 descriptor has a serializer of its own or a list of fields. TD_VEC3 and TD_QUAT are
 `ConstantArray`s of a four-byte primitive: their serializer is that same loop.
 */
module Reflection {
  import opened Bytes

  const INVALID_ID: u32 := 0xFFFF_FFFF
  const NUM_ASSET_TYPES: u32 := 7

  /** An asset id: the id proper and the asset type. */
  datatype Maid = Maid(id: u32, kind: u32) {
    predicate IsValid() { id != INVALID_ID && 0 < kind < NUM_ASSET_TYPES }
  }

  /** A reference to an asset; only `id` is serialized. */
  datatype AssetRef = AssetRef(id: Maid, handle: u32, stage: nat, content: nat)

  const NO_MAID := Maid(INVALID_ID, INVALID_ID)
  const HANDLE_INVALID: u32 := 0
  const STAGE_UNLOADED: nat := 0

  /** A reference that holds an id and no runtime state. */
  function PlainRef(m: Maid): AssetRef { AssetRef(m, HANDLE_INVALID, STAGE_UNLOADED, 0) }

  datatype Val =
    | Prim(raw: bytes)
    | Span(data: bytes)
    | Str(text: bytes)
    | Asset(ref: AssetRef)
    | Arr(elems: seq<Val>)
    | Live               // the header's dependency array, which a serialization pass holds a pointer to
    | Rec(members: seq<Val>)

  /** A descriptor; `size` is the number of bytes a value takes up by itself. */
  datatype TypeDesc = TypeDesc(name: string, serializable: bool, size: nat, body: Body) {
    /** Whether the member walk visits a field: it is serializable and has a type. */
    predicate Walked() {
      serializable && (body.AliasOf? || body.ConstantArray? || body.DynArray?)
    }
  }

  datatype Body =
    | Primitive(size: nat)
    | SizedBuffer
    | String
    | AssetReference
    | DynArray(elem: TypeDesc)
    | ConstantArray(elem: TypeDesc, count: nat)
    | AliasOf(target: TypeDesc)
    | Struct(fields: seq<TypeDesc>, defaults: seq<Val>)
    | Disallowed         // StringView: it does not own its bytes
    | Untyped

  function TypeOf(name: string, size: nat, body: Body): TypeDesc { TypeDesc(name, true, size, body) }
  function FieldOf(name: string, t: TypeDesc): TypeDesc { TypeDesc(name, true, t.size, AliasOf(t)) }

  const TD_U32 := TypeOf("unsigned int", 4, Primitive(4))
  const TD_MAID := TypeOf("MAID", 8,
                          Struct([FieldOf("id", TD_U32), FieldOf("type", TD_U32)],
                                 [Prim(LE32(INVALID_ID)), Prim(LE32(INVALID_ID))]))

  function MaidVal(m: Maid): Val { Rec([Prim(LE32(m.id)), Prim(LE32(m.kind))]) }
  function MaidVals(ms: seq<Maid>): (r: seq<Val>)
    ensures |r| == |ms|
  {
    seq(|ms|, i requires 0 <= i < |ms| => MaidVal(ms[i]))
  }

  function Repeat<T>(x: T, n: nat): (r: seq<T>)
    ensures |r| == n && forall i | 0 <= i < n :: r[i] == x
  {
    seq(n, _ => x)
  }

  /** The storage a value of this type starts from. */
  function Default(d: TypeDesc): Val
  {
    match d.body
    case Primitive(n) => Prim(seq(n, _ => 0))
    case SizedBuffer => Span([])
    case String => Str([])
    case AssetReference => Asset(PlainRef(NO_MAID))
    case DynArray(_) => Arr([])
    case ConstantArray(e, n) => var x := Default(e); Arr(Repeat(x, n))
    case AliasOf(t) => Default(t)
    case Struct(_, ds) => Rec(ds)
    case Disallowed => Prim([])
    case Untyped => Prim([])
  }

  /** The value has the shape the descriptor says, at every member the walk visits. */
  ghost predicate Typed(d: TypeDesc, v: Val)
    decreases d, 0
  {
    match d.body
    case Primitive(n) => v.Prim? && |v.raw| == n
    case SizedBuffer => v.Span?
    case String => v.Str?
    case AssetReference => v.Asset?
    case DynArray(e) => (v.Arr? && AllTyped(e, v.elems)) || (v.Live? && e == TD_MAID)
    case ConstantArray(e, n) => v.Arr? && |v.elems| == n && AllTyped(e, v.elems)
    case AliasOf(t) => Typed(t, v)
    case Struct(fs, _) => v.Rec? && |v.members| == |fs| && MembersTyped(fs, v.members)
    case Disallowed => true
    case Untyped => true
  }

  ghost predicate AllTyped(e: TypeDesc, vs: seq<Val>)
    decreases e, 1
  {
    forall i | 0 <= i < |vs| :: Typed(e, vs[i])
  }

  ghost predicate MembersTyped(fs: seq<TypeDesc>, vs: seq<Val>)
    requires |fs| == |vs|
    decreases fs, 0
  {
    forall i | 0 <= i < |fs| :: fs[i].Walked() ==> Typed(fs[i], vs[i])
  }

  /** Every default member initialiser has the type of its member. */
  ghost predicate WellFormed(d: TypeDesc)
  {
    match d.body
    case DynArray(e) => WellFormed(e)
    case ConstantArray(e, _) => WellFormed(e)
    case AliasOf(t) => WellFormed(t)
    case Struct(fs, ds) =>
      && |ds| == |fs| && MembersTyped(fs, ds)
      && forall i | 0 <= i < |fs| :: WellFormed(fs[i])
    case _ => true
  }

  lemma {:induction false} DefaultTyped(d: TypeDesc)
    requires WellFormed(d)
    ensures Typed(d, Default(d))
  {
    match d.body
    case ConstantArray(e, _) => DefaultTyped(e);
    case AliasOf(t) => DefaultTyped(t);
    case _ =>
  }

  lemma MaidTyped(m: Maid)
    ensures WellFormed(TD_MAID) && Typed(TD_MAID, MaidVal(m))
  {
    var fs := TD_MAID.body.fields;
    assert Typed(TD_U32, Prim(LE32(m.id))) && Typed(TD_U32, Prim(LE32(m.kind)));
    assert Typed(fs[0], Prim(LE32(m.id))) && Typed(fs[1], Prim(LE32(m.kind)));
    assert Typed(TD_U32, Prim(LE32(INVALID_ID)));
    assert WellFormed(fs[0]) && WellFormed(fs[1]);
  }
}
