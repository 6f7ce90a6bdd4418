/**
 What the binary walk of `ChunkWithTypeDescriptor` puts into and takes out of a byte
 stream, as functions on values, and the laws that relate the two directions.
 The imperative walk in BinaryWalk is proved to do exactly this.
 */
module BinaryFormat {
  import opened Common
  import opened Bytes
  import opened Reflection

  // ---------------------------------------------------------------- dependencies

  /** The list a pass collects asset ids in: absent, or with its present content. */
  datatype Deps = Off | On(items: seq<Maid>)

  /** One `AddAssetDependency` call. */
  function AddDep(deps: Deps, m: Maid): Deps {
    match deps
    case Off => Off
    case On(items) => if !m.IsValid() || m in items then deps else On(items + [m])
  }

  function AddAll(deps: Deps, ms: seq<Maid>): Deps
    decreases |ms|
  {
    if ms == [] then deps else AddAll(AddDep(deps, ms[0]), ms[1..])
  }

  /** The ids of the asset references the walk meets, in the order it meets them. */
  function Assets(d: TypeDesc, v: Val): seq<Maid>
    decreases d, 0
  {
    if !d.serializable then [] else
    match d.body
    case AssetReference => if v.Asset? then [v.ref.id] else []
    case DynArray(e) => if v.Arr? then AssetsOfAll(e, v.elems) else []
    case ConstantArray(e, _) => if v.Arr? then AssetsOfAll(e, v.elems) else []
    case AliasOf(t) => Assets(t, v)
    case Struct(fs, _) => if v.Rec? then AssetsOfMembers(fs, v.members) else []
    case _ => []
  }

  function AssetsOfAll(e: TypeDesc, vs: seq<Val>): seq<Maid>
    decreases e, |vs|
  {
    if vs == [] then [] else Assets(e, vs[0]) + AssetsOfAll(e, vs[1..])
  }

  function AssetsOfMembers(fs: seq<TypeDesc>, vs: seq<Val>): seq<Maid>
    decreases fs, 0
  {
    if fs == [] || vs == [] then []
    else (if fs[0].Walked() then Assets(fs[0], vs[0]) else []) + AssetsOfMembers(fs[1..], vs[1..])
  }

  lemma {:induction false} AddAllConcat(deps: Deps, a: seq<Maid>, b: seq<Maid>)
    ensures AddAll(deps, a + b) == AddAll(AddAll(deps, a), b)
    decreases |a|
  {
    if a == [] {
      assert a + b == b;
    } else {
      assert (a + b)[0] == a[0] && (a + b)[1..] == a[1..] + b;
      AddAllConcat(AddDep(deps, a[0]), a[1..], b);
    }
  }

  /** Every valid id of `ms` is already in the list (or there is no list). */
  predicate Covered(deps: Deps, ms: seq<Maid>) {
    deps.On? ==> forall m | m in ms :: m.IsValid() ==> m in deps.items
  }

  lemma {:induction false} AddAllCovered(deps: Deps, ms: seq<Maid>)
    requires Covered(deps, ms)
    ensures AddAll(deps, ms) == deps
    decreases |ms|
  {
    if ms != [] {
      AddAllCovered(deps, ms[1..]);
    }
  }

  /** `x` occurs in `ms` before the first occurrence of `y`. */
  ghost predicate FirstBefore(ms: seq<Maid>, x: Maid, y: Maid) {
    exists i | 0 <= i < |ms| :: ms[i] == x && y !in ms[..i + 1]
  }

  /** The duplicate-free list of exactly the valid ids of `ms`, ordered by first occurrence. */
  ghost predicate IsFirstOccurrences(items: seq<Maid>, ms: seq<Maid>) {
    && (forall m :: m in items <==> m in ms && m.IsValid())
    && (forall i, j | 0 <= i < j < |items| :: items[i] != items[j])
    && (forall i, j | 0 <= i < j < |items| :: FirstBefore(ms, items[i], items[j]))
  }

  lemma StillBefore(init: seq<Maid>, last: Maid, x: Maid, y: Maid)
    requires FirstBefore(init, x, y)
    ensures FirstBefore(init + [last], x, y)
  {
    var k :| 0 <= k < |init| && init[k] == x && y !in init[..k + 1];
    assert (init + [last])[..k + 1] == init[..k + 1];
  }

  lemma BeforeNew(init: seq<Maid>, last: Maid, x: Maid)
    requires x in init && last !in init
    ensures FirstBefore(init + [last], x, last)
  {
    var k :| 0 <= k < |init| && init[k] == x;
    assert (init + [last])[..k + 1] == init[..k + 1];
  }

  /** Collecting into an empty list yields the first occurrences, and collecting again changes nothing. */
  lemma {:induction false} CollectFirstOccurrences(ms: seq<Maid>)
    ensures AddAll(On([]), ms).On? && IsFirstOccurrences(AddAll(On([]), ms).items, ms)
    ensures AddAll(AddAll(On([]), ms), ms) == AddAll(On([]), ms)
    decreases |ms|
  {
    if ms != [] {
      var init, x := ms[..|ms| - 1], ms[|ms| - 1];
      assert ms == init + [x];
      CollectFirstOccurrences(init);
      AddAllConcat(On([]), init, [x]);
      var before, after := AddAll(On([]), init).items, AddAll(On([]), ms).items;
      assert On(after) == AddDep(On(before), x);
      forall i, j | 0 <= i < j < |after| ensures FirstBefore(ms, after[i], after[j]) {
        if j < |before| { StillBefore(init, x, after[i], after[j]); } else { BeforeNew(init, x, after[i]); }
      }
    }
    AddAllCovered(AddAll(On([]), ms), ms);
  }

  // ---------------------------------------------------------------- writing

  /** String and buffer lengths are cast to u32 before they are written. */
  function Truncated(s: bytes): (r: bytes)
    ensures |r| == |s| % TWO_32
  {
    s[..|s| % TWO_32]
  }

  function SizedBytes(s: bytes): bytes { LE32(|s| % TWO_32) + Truncated(s) }

  function Join(a: Option<bytes>, b: Option<bytes>): Option<bytes> {
    if a.Some? && b.Some? then Some(a.value + b.value) else None
  }

  /** The elements of an array value; `Live` stands for what the dependency list holds now. */
  function ElemsOf(v: Val, deps: Deps): Option<seq<Val>> {
    match v
    case Arr(vs) => if |vs| < TWO_32 then Some(vs) else None
    case Live => if deps.On? && |deps.items| < TWO_32 then Some(MaidVals(deps.items)) else None
    case _ => None
  }

  /** The bytes a Write or Measure walk accounts for; None when the walk returns false. */
  function Emit(d: TypeDesc, v: Val, deps: Deps): Option<bytes>
    decreases d, 0
  {
    if !d.serializable then Some([]) else
    match d.body
    case Primitive(n) => if v.Prim? then Some(v.raw) else None
    case SizedBuffer => if v.Span? then Some(SizedBytes(v.data)) else None
    case String => if v.Str? then Some(SizedBytes(v.text)) else None
    case AssetReference => if v.Asset? then Some(LE32(v.ref.id.id) + LE32(v.ref.id.kind)) else None
    case DynArray(e) =>
      var vs := ElemsOf(v, deps);
      if vs.None? then None else Join(Some(LE32(|vs.value|)), EmitAll(e, vs.value, deps))
    case ConstantArray(e, n) => if v.Arr? then EmitAll(e, v.elems, deps) else None
    case AliasOf(t) => Emit(t, v, deps)
    case Struct(fs, _) => if v.Rec? && fs != [] then EmitMembers(fs, v.members, deps) else None
    case Disallowed => None
    case Untyped => None
  }

  function EmitAll(e: TypeDesc, vs: seq<Val>, deps: Deps): Option<bytes>
    decreases e, |vs|
  {
    if vs == [] then Some([])
    else Join(Emit(e, vs[0], deps), EmitAll(e, vs[1..], AddAll(deps, Assets(e, vs[0]))))
  }

  function EmitMembers(fs: seq<TypeDesc>, vs: seq<Val>, deps: Deps): Option<bytes>
    decreases fs, 0
  {
    if fs == [] || vs == [] then Some([])
    else if !fs[0].Walked() then EmitMembers(fs[1..], vs[1..], deps)
    else Join(Emit(fs[0], vs[0], deps), EmitMembers(fs[1..], vs[1..], AddAll(deps, Assets(fs[0], vs[0]))))
  }

  // ---------------------------------------------------------------- reading

  /** Outcome of a Read walk: a value and the unread bytes, an overrun, or `false`. */
  datatype Reading<+T> = Got(value: T, rest: bytes) | Overrun | Refused

  function ReadRaw(n: nat, b: bytes): Reading<bytes> {
    if n <= |b| then Got(b[..n], b[n..]) else Overrun
  }

  function ReadU32(b: bytes): Reading<u32> {
    if 4 <= |b| then Got(FromLE32(b[..4]), b[4..]) else Overrun
  }

  function ReadSized(b: bytes): Reading<bytes> {
    match ReadU32(b)
    case Got(n, rest) => ReadRaw(n, rest)
    case Overrun => Overrun
    case Refused => Refused
  }

  function ReadMaid(b: bytes): Reading<Maid> {
    match ReadU32(b)
    case Got(id, rest) =>
      (match ReadU32(rest)
       case Got(kind, rest') => Got(Maid(id, kind), rest')
       case Overrun => Overrun
       case Refused => Refused)
    case Overrun => Overrun
    case Refused => Refused
  }

  function MapReading<S, T>(r: Reading<S>, f: S -> T): Reading<T> {
    match r
    case Got(v, rest) => Got(f(v), rest)
    case Overrun => Overrun
    case Refused => Refused
  }

  /** Reads a value of type `d` into storage that holds `base`. */
  function Decode(d: TypeDesc, base: Val, b: bytes): Reading<Val>
    decreases d, 0
  {
    if !d.serializable then Got(base, b) else
    match d.body
    case Primitive(n) => MapReading(ReadRaw(n, b), r => Prim(r))
    case SizedBuffer => MapReading(ReadSized(b), r => Span(r))
    case String => MapReading(ReadSized(b), r => Str(r))
    case AssetReference => MapReading(ReadMaid(b), m => Asset(PlainRef(m)))
    case DynArray(e) =>
      (match ReadU32(b)
       case Got(n, rest) => var x := Default(e); MapReading(DecodeAll(e, Repeat(x, n), rest), vs => Arr(vs))
       case Overrun => Overrun
       case Refused => Refused)
    case ConstantArray(e, n) =>
      if base.Arr? then MapReading(DecodeAll(e, base.elems, b), vs => Arr(vs)) else Refused
    case AliasOf(t) => Decode(t, base, b)
    case Struct(fs, _) =>
      if base.Rec? && fs != [] then MapReading(DecodeMembers(fs, base.members, b), vs => Rec(vs)) else Refused
    case Disallowed => Refused
    case Untyped => Refused
  }

  function DecodeAll(e: TypeDesc, bases: seq<Val>, b: bytes): Reading<seq<Val>>
    decreases e, |bases|
  {
    if bases == [] then Got([], b) else
    match Decode(e, bases[0], b)
    case Got(v, rest) => Prepend(v, DecodeAll(e, bases[1..], rest))
    case Overrun => Overrun
    case Refused => Refused
  }

  function DecodeMembers(fs: seq<TypeDesc>, bases: seq<Val>, b: bytes): Reading<seq<Val>>
    decreases fs, 0
  {
    if fs == [] || bases == [] then Got(bases, b)
    else if !fs[0].Walked() then Prepend(bases[0], DecodeMembers(fs[1..], bases[1..], b))
    else
      match Decode(fs[0], bases[0], b)
      case Got(v, rest) => Prepend(v, DecodeMembers(fs[1..], bases[1..], rest))
      case Overrun => Overrun
      case Refused => Refused
  }

  function Prepend(v: Val, r: Reading<seq<Val>>): Reading<seq<Val>> {
    match r
    case Got(vs, rest) => Got([v] + vs, rest)
    case Overrun => Overrun
    case Refused => Refused
  }

  // ---------------------------------------------------------------- what a reader gets back

  /**
   The storage `base` after it has received `v`: serializable members come from `v`
   (an asset reference only its id, a string its first `length mod 2^32` bytes, a dynamic
   array with fresh elements), every other member stays what it was in `base`.
   */
  function Merge(d: TypeDesc, base: Val, v: Val, deps: Deps): Val
    decreases d, 0
  {
    if !d.serializable then base else
    match d.body
    case SizedBuffer => if v.Span? then Span(Truncated(v.data)) else v
    case String => if v.Str? then Str(Truncated(v.text)) else v
    case AssetReference => if v.Asset? then Asset(PlainRef(v.ref.id)) else v
    case DynArray(e) =>
      var vs := ElemsOf(v, deps);
      if vs.None? then v else var x := Default(e); Arr(MergeAll(e, Repeat(x, |vs.value|), vs.value, deps))
    case ConstantArray(e, n) => if v.Arr? && base.Arr? then Arr(MergeAll(e, base.elems, v.elems, deps)) else v
    case AliasOf(t) => Merge(t, base, v, deps)
    case Struct(fs, _) => if v.Rec? && base.Rec? then Rec(MergeMembers(fs, base.members, v.members, deps)) else v
    case _ => v
  }

  function MergeAll(e: TypeDesc, bases: seq<Val>, vs: seq<Val>, deps: Deps): seq<Val>
    decreases e, |vs|
  {
    if bases == [] || vs == [] then []
    else [Merge(e, bases[0], vs[0], deps)] + MergeAll(e, bases[1..], vs[1..], deps)
  }

  function MergeMembers(fs: seq<TypeDesc>, bases: seq<Val>, vs: seq<Val>, deps: Deps): seq<Val>
    decreases fs, 0
  {
    if fs == [] || bases == [] || vs == [] then bases
    else [if fs[0].Walked() then Merge(fs[0], bases[0], vs[0], deps) else bases[0]]
         + MergeMembers(fs[1..], bases[1..], vs[1..], deps)
  }
}
