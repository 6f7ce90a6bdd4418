/**
 The text format over abstract JSON trees: what the walk writes for a value, what it reads back, and inheritance from a
 parent. A number stands for the bytes of the primitive it was made from; keys of an object are distinct.
 */
module TextFormat {

  import opened Common
  import opened Bytes
  import opened Reflection

  datatype Json = Null | Number(raw: bytes) | Text(text: bytes) | List(items: seq<Json>) | Object(fields: map<string, Json>)

  type Fields = map<string, Json>

  function Lookup(m: Fields, key: string): Json { if key in m then m[key] else Null }

  // ---------------------------------------------------------------- writing

  function MaidJson(m: Maid): Json { Object(map["id" := Number(LE32(m.id)), "type" := Number(LE32(m.kind))]) }

  /** What the walk leaves at the current place, which holds `here` before; `None` when the walk returns false. */
  function Emit(d: TypeDesc, v: Val, here: Json): Option<Json>
    decreases d, 0
  {
    if !d.serializable then Some(here) else
    match d.body
    case Primitive(n) => if v.Prim? then Some(Number(v.raw)) else None
    case SizedBuffer => if v.Span? then Some(Text(v.data)) else None
    case String => if v.Str? then Some(Text(v.text)) else None
    case AssetReference => if v.Asset? then Some(MaidJson(v.ref.id)) else None
    case DynArray(e) => if v.Arr? && |v.elems| < TWO_32 then EmitList(e, v.elems) else None
    case ConstantArray(e, _) => if v.Arr? && |v.elems| < TWO_32 then EmitList(e, v.elems) else None
    case AliasOf(t) => Emit(t, v, here)
    case Struct(fs, _) =>
      if v.Rec? && |v.members| == |fs| && fs != [] then
        var m := EmitMembers(fs, v.members, map[]);
        if m.Some? then Some(Object(m.value)) else None
      else None
    case Disallowed => None
    case Untyped => None
  }

  function EmitList(e: TypeDesc, vs: seq<Val>): Option<Json>
    decreases e, 2, |vs|
  {
    var r := EmitAll(e, vs);
    if r.Some? then Some(List(r.value)) else None
  }

  function EmitAll(e: TypeDesc, vs: seq<Val>): (r: Option<seq<Json>>)
    ensures r.Some? ==> |r.value| == |vs|
    decreases e, 1, |vs|
  {
    if vs == [] then Some([])
    else
      var front := EmitAll(e, vs[..|vs| - 1]);
      if front.None? then None
      else
        var last := Emit(e, vs[|vs| - 1], Null);
        if last.None? then None else Some(front.value + [last.value])
  }

  /** One key per member the walk visits, in order; a repeated name overwrites. */
  function EmitMembers(fs: seq<TypeDesc>, vs: seq<Val>, m: Fields): Option<Fields>
    requires |fs| == |vs|
    decreases fs, 0
  {
    if fs == [] then Some(m)
    else
      var n := |fs| - 1;
      var front := EmitMembers(fs[..n], vs[..n], m);
      if front.None? || !fs[n].Walked() then front
      else
        var j := Emit(fs[n], vs[n], Lookup(front.value, fs[n].name));
        if j.None? then None else Some(front.value[fs[n].name := j.value])
  }

  // ---------------------------------------------------------------- reading

  function ReadWord(m: Fields, key: string): Option<u32> {
    if key !in m then Some(INVALID_ID)
    else if m[key].Number? && |m[key].raw| == 4 then Some(FromLE32(m[key].raw))
    else None
  }

  /** An id object; a missing key leaves that half invalid. */
  function ReadMaid(j: Json): Option<Maid> {
    if !j.Object? || ReadWord(j.fields, "id").None? || ReadWord(j.fields, "type").None? then None
    else Some(Maid(ReadWord(j.fields, "id").value, ReadWord(j.fields, "type").value))
  }

  /**
   Reads `j` into storage that holds `base`; `None` when the read fails. A member whose key is missing keeps what it
   holds. With `reset` a member whose key is present is first set to its type's default; that goes one level deep.
   */
  function Decode(d: TypeDesc, base: Val, j: Json, reset: bool): Option<Val>
    decreases d, 0
  {
    if !d.serializable then Some(base) else
    match d.body
    case Primitive(n) => if j.Number? && |j.raw| == n then Some(Prim(j.raw)) else None
    case SizedBuffer => if j.Text? then Some(Span(j.text)) else None
    case String => if j.Text? then Some(Str(j.text)) else None
    case AssetReference => if ReadMaid(j).Some? then Some(Asset(PlainRef(ReadMaid(j).value))) else None
    case DynArray(e) =>
      if !j.List? then None
      else
        var x := Default(e);
        var count := |j.items| % TWO_32;
        DecodeList(e, Repeat(x, count), j.items[..count], false)
    case ConstantArray(e, n) =>
      if j.List? && |j.items| % TWO_32 == n && base.Arr? && |base.elems| == n then DecodeList(e, base.elems, j.items[..n], reset) else None
    case AliasOf(t) => Decode(t, base, j, reset)
    case Struct(fs, _) =>
      if j.Object? && base.Rec? && |base.members| == |fs| && fs != [] then
        var r := DecodeMembers(fs, base.members, j.fields, reset);
        if r.Some? then Some(Rec(r.value)) else None
      else None
    case Disallowed => None
    case Untyped => None
  }

  function DecodeList(e: TypeDesc, bases: seq<Val>, js: seq<Json>, reset: bool): Option<Val>
    requires |bases| == |js|
    decreases e, 2, |bases|
  {
    var r := DecodeAll(e, bases, js, reset);
    if r.Some? then Some(Arr(r.value)) else None
  }

  function DecodeAll(e: TypeDesc, bases: seq<Val>, js: seq<Json>, reset: bool): (r: Option<seq<Val>>)
    requires |bases| == |js|
    ensures r.Some? ==> |r.value| == |bases|
    decreases e, 1, |bases|
  {
    if bases == [] then Some([])
    else
      var n := |bases| - 1;
      var front := DecodeAll(e, bases[..n], js[..n], reset);
      if front.None? then None
      else
        var last := Decode(e, bases[n], js[n], reset);
        if last.None? then None else Some(front.value + [last.value])
  }

  /** The value of one member. */
  function DecodeMember(f: TypeDesc, base: Val, m: Fields, reset: bool): Option<Val>
    decreases f, 1
  {
    if !f.Walked() || f.name !in m then Some(base)
    else Decode(f, if reset then Default(f) else base, m[f.name], false)
  }

  function DecodeMembers(fs: seq<TypeDesc>, bases: seq<Val>, m: Fields, reset: bool): (r: Option<seq<Val>>)
    requires |fs| == |bases|
    ensures r.Some? ==> |r.value| == |fs|
    decreases fs, 0
  {
    if fs == [] then Some([])
    else
      var n := |fs| - 1;
      var front := DecodeMembers(fs[..n], bases[..n], m, reset);
      if front.None? then None
      else
        var last := DecodeMember(fs[n], bases[n], m, reset);
        if last.None? then None else Some(front.value + [last.value])
  }

  // ---------------------------------------------------------------- round trip

  /** No two visited members of a struct have the same name, anywhere. */
  ghost predicate WellNamed(d: TypeDesc) {
    match d.body
    case DynArray(e) => WellNamed(e)
    case ConstantArray(e, _) => WellNamed(e)
    case AliasOf(t) => WellNamed(t)
    case Struct(fs, _) =>
      && (forall i, j | 0 <= i < j < |fs| && fs[i].Walked() && fs[j].Walked() :: fs[i].name != fs[j].name)
      && forall i | 0 <= i < |fs| :: WellNamed(fs[i])
    case _ => true
  }

  /** `w` holds what `v` was written with, at every member the walk visits. */
  ghost predicate Restored(d: TypeDesc, v: Val, w: Val)
    decreases d, 0
  {
    d.serializable ==>
      match d.body
      case AssetReference => v.Asset? && w.Asset? && v.ref.id == w.ref.id
      case DynArray(e) => v.Arr? && w.Arr? && AllRestored(e, v.elems, w.elems)
      case ConstantArray(e, _) => v.Arr? && w.Arr? && AllRestored(e, v.elems, w.elems)
      case AliasOf(t) => Restored(t, v, w)
      case Struct(fs, _) => v.Rec? && w.Rec? && |v.members| == |w.members| == |fs| && MembersRestored(fs, v.members, w.members)
      case _ => v == w
  }

  ghost predicate AllRestored(e: TypeDesc, vs: seq<Val>, ws: seq<Val>)
    decreases e, 1
  {
    |vs| == |ws| && forall i | 0 <= i < |vs| :: Restored(e, vs[i], ws[i])
  }

  ghost predicate MembersRestored(fs: seq<TypeDesc>, vs: seq<Val>, ws: seq<Val>)
    requires |fs| == |vs| == |ws|
    decreases fs, 0
  {
    forall i | 0 <= i < |fs| :: fs[i].Walked() ==> Restored(fs[i], vs[i], ws[i])
  }


  /** Reading what was written restores the value, whatever the storage held. */
  lemma {:induction false} DecodeEmit(d: TypeDesc, base: Val, v: Val, here: Json, reset: bool)
    requires WellFormed(d) && WellNamed(d) && Typed(d, base) && Typed(d, v) && Emit(d, v, here).Some?
    ensures var r := Decode(d, base, Emit(d, v, here).value, reset);
            r.Some? && Typed(d, r.value) && Restored(d, v, r.value)
    decreases d, 1
  {
    if d.serializable {
      match d.body
      case AssetReference => MaidRoundTrip(v.ref.id);
      case DynArray(e) => DecodeEmitArray(d, e, base, v, reset);
      case ConstantArray(e, n) => DecodeEmitFixed(d, e, n, base, v, reset);
      case AliasOf(t) => DecodeEmit(t, base, v, here, reset);
      case Struct(fs, ds) => DecodeEmitStruct(d, fs, ds, base, v, reset);
      case _ =>
    }
  }

  lemma {:induction false} DecodeEmitArray(d: TypeDesc, e: TypeDesc, base: Val, v: Val, reset: bool)
    requires d.serializable && d.body == DynArray(e) && WellFormed(e) && WellNamed(e) && Typed(d, v) && Emit(d, v, Null).Some?
    ensures var r := Decode(d, base, Emit(d, v, Null).value, reset);
            r.Some? && Typed(d, r.value) && Restored(d, v, r.value)
    decreases d, 0
  {
    DefaultTyped(e);
    var js := EmitAll(e, v.elems).value;
    var bases := Repeat(Default(e), |js|);
    DecodeEmitAll(e, bases, v.elems, false);
    ReadsWholeList(d, e, base, js, reset);
  }

  lemma ReadsWholeList(d: TypeDesc, e: TypeDesc, base: Val, js: seq<Json>, reset: bool)
    requires d.serializable && d.body == DynArray(e) && |js| < TWO_32
    ensures Decode(d, base, List(js), reset) == DecodeList(e, Repeat(Default(e), |js|), js, false)
  {
    assert js[..|js|] == js;
  }

  lemma {:induction false} DecodeEmitFixed(d: TypeDesc, e: TypeDesc, n: nat, base: Val, v: Val, reset: bool)
    requires d.serializable && d.body == ConstantArray(e, n) && WellFormed(e) && WellNamed(e)
    requires Typed(d, base) && Typed(d, v) && Emit(d, v, Null).Some?
    ensures var r := Decode(d, base, Emit(d, v, Null).value, reset);
            r.Some? && Typed(d, r.value) && Restored(d, v, r.value)
    decreases d, 0
  {
    var js := EmitAll(e, v.elems).value;
    assert js[..|js|] == js;
    DecodeEmitAll(e, base.elems, v.elems, reset);
  }

  lemma {:induction false} DecodeEmitStruct(d: TypeDesc, fs: seq<TypeDesc>, ds: seq<Val>, base: Val, v: Val, reset: bool)
    requires d.serializable && d.body == Struct(fs, ds) && WellFormed(d) && WellNamed(d)
    requires Typed(d, base) && Typed(d, v) && Emit(d, v, Null).Some?
    ensures var r := Decode(d, base, Emit(d, v, Null).value, reset);
            r.Some? && Typed(d, r.value) && Restored(d, v, r.value)
    decreases d, 0
  {
    var m := EmitMembers(fs, v.members, map[]).value;
    DecodeEmitMembers(fs, base.members, v.members, m, reset);
  }

  lemma MaidRoundTrip(m: Maid)
    ensures ReadMaid(MaidJson(m)) == Some(m)
  {
    LE32RoundTrip(m.id);
    LE32RoundTrip(m.kind);
    var fields := MaidJson(m).fields;
    assert "id" in fields && "type" in fields && "id" != "type";
  }

  lemma {:induction false} DecodeEmitAll(e: TypeDesc, bases: seq<Val>, vs: seq<Val>, reset: bool)
    requires WellFormed(e) && WellNamed(e) && |bases| == |vs| && AllTyped(e, bases) && AllTyped(e, vs) && EmitAll(e, vs).Some?
    ensures var r := DecodeAll(e, bases, EmitAll(e, vs).value, reset);
            r.Some? && AllTyped(e, r.value) && AllRestored(e, vs, r.value)
    decreases e, 2, |vs|
  {
    if vs != [] {
      var n := |vs| - 1;
      var js := EmitAll(e, vs).value;
      DecodeEmitAll(e, bases[..n], vs[..n], reset);
      DecodeEmit(e, bases[n], vs[n], Null, reset);
      assert js[..n] == EmitAll(e, vs[..n]).value;
      var front := DecodeAll(e, bases[..n], js[..n], reset).value;
      var ws := DecodeAll(e, bases, js, reset).value;
      forall i | 0 <= i < |vs| ensures Typed(e, ws[i]) && Restored(e, vs[i], ws[i]) {
        if i < n { assert ws[i] == front[i] && vs[i] == vs[..n][i]; }
      }
    }
  }

  /** The keys of the first members are untouched by the later ones. */
  lemma {:induction false} KeyWritten(fs: seq<TypeDesc>, vs: seq<Val>, i: nat)
    requires |fs| == |vs| && i < |fs| && fs[i].Walked() && EmitMembers(fs, vs, map[]).Some?
    requires forall k, l | 0 <= k < l < |fs| && fs[k].Walked() && fs[l].Walked() :: fs[k].name != fs[l].name
    ensures var m := EmitMembers(fs, vs, map[]).value;
            fs[i].name in m && exists here :: Emit(fs[i], vs[i], here) == Some(m[fs[i].name])
    decreases |fs|
  {
    var n := |fs| - 1;
    var front := EmitMembers(fs[..n], vs[..n], map[]).value;
    if i < n {
      KeyWritten(fs[..n], vs[..n], i);
      assert fs[..n][i] == fs[i] && vs[..n][i] == vs[i];
      var here :| Emit(fs[..n][i], vs[..n][i], here) == Some(front[fs[i].name]);
      assert Emit(fs[i], vs[i], here) == Some(EmitMembers(fs, vs, map[]).value[fs[i].name]);
    } else {
      assert Emit(fs[i], vs[i], Lookup(front, fs[n].name)) == Some(EmitMembers(fs, vs, map[]).value[fs[i].name]);
    }
  }

  lemma {:induction false} DecodeEmitMembers(fs: seq<TypeDesc>, bases: seq<Val>, vs: seq<Val>, m: Fields, reset: bool)
    requires |fs| == |bases| == |vs| && EmitMembers(fs, vs, map[]) == Some(m)
    requires forall k, l | 0 <= k < l < |fs| && fs[k].Walked() && fs[l].Walked() :: fs[k].name != fs[l].name
    requires (forall i | 0 <= i < |fs| :: WellFormed(fs[i]) && WellNamed(fs[i])) && MembersTyped(fs, bases) && MembersTyped(fs, vs)
    ensures var r := DecodeMembers(fs, bases, m, reset);
            r.Some? && MembersTyped(fs, r.value) && MembersRestored(fs, vs, r.value)
    decreases fs, 0
  {
    forall i | 0 <= i < |fs| && fs[i].Walked()
      ensures var r := DecodeMember(fs[i], bases[i], m, reset); r.Some? && Typed(fs[i], r.value) && Restored(fs[i], vs[i], r.value)
    {
      KeyWritten(fs, vs, i);
      var here :| Emit(fs[i], vs[i], here) == Some(m[fs[i].name]);
      DefaultTyped(fs[i]);
      DecodeEmit(fs[i], if reset then Default(fs[i]) else bases[i], vs[i], here, false);
    }
    AllMembers(fs, bases, m, reset);
  }

  /** A struct is read when all its members can be, each by itself. */
  lemma {:induction false} AllMembers(fs: seq<TypeDesc>, bases: seq<Val>, m: Fields, reset: bool)
    requires |fs| == |bases|
    ensures DecodeMembers(fs, bases, m, reset).Some? <==> forall i | 0 <= i < |fs| :: DecodeMember(fs[i], bases[i], m, reset).Some?
    ensures DecodeMembers(fs, bases, m, reset).Some? ==>
              forall i | 0 <= i < |fs| :: DecodeMember(fs[i], bases[i], m, reset) == Some(DecodeMembers(fs, bases, m, reset).value[i])
    decreases |fs|
  {
    if fs != [] {
      var n := |fs| - 1;
      AllMembers(fs[..n], bases[..n], m, reset);
      assert forall i | 0 <= i < n :: fs[..n][i] == fs[i] && bases[..n][i] == bases[i];
      assert DecodeMembers(fs, bases, m, reset).Some? ==>
        DecodeMembers(fs, bases, m, reset).value[..n] == DecodeMembers(fs[..n], bases[..n], m, reset).value;
    }
  }

  // ---------------------------------------------------------------- inheritance

  /**
   A document read over a parent's copy: one level of overlay. A visited member takes the document's value when its key
   is there, read over the default of its own type, and the parent's value when it is not; other members are the parent's.
   */
  lemma Overlay(d: TypeDesc, fs: seq<TypeDesc>, ds: seq<Val>, parent: Val, m: Fields, i: nat)
    requires d.serializable && d.body == Struct(fs, ds) && parent.Rec? && |parent.members| == |fs| && i < |fs|
    requires Decode(d, parent, Object(m), true).Some?
    ensures var out := Decode(d, parent, Object(m), true).value;
            && out.Rec? && |out.members| == |fs|
            && (!fs[i].Walked() || fs[i].name !in m ==> out.members[i] == parent.members[i])
            && (fs[i].Walked() && fs[i].name in m ==> Some(out.members[i]) == Decode(fs[i], Default(fs[i]), m[fs[i].name], false))
  {
    AllMembers(fs, parent.members, m, true);
    assert DecodeMember(fs[i], parent.members[i], m, true).Some?;
  }

  /** Below the first level nothing comes from the parent: a key missing there leaves the default. */
  lemma NestedMissingKey(t: TypeDesc, fs: seq<TypeDesc>, ds: seq<Val>, m: Fields, k: nat)
    requires t.serializable && t.body == Struct(fs, ds) && |ds| == |fs| && k < |fs|
    requires Decode(t, Default(t), Object(m), false).Some? && fs[k].name !in m
    ensures Decode(t, Default(t), Object(m), false).value.members[k] == ds[k]
  {
    AllMembers(fs, ds, m, false);
    assert DecodeMember(fs[k], ds[k], m, false).Some?;
  }

  /** Hence two parents can only differ in members the document leaves out. */
  lemma ParentShowsOnlyInGaps(d: TypeDesc, fs: seq<TypeDesc>, ds: seq<Val>, p: Val, q: Val, m: Fields, i: nat)
    requires d.serializable && d.body == Struct(fs, ds) && p.Rec? && q.Rec? && |p.members| == |q.members| == |fs| && i < |fs|
    requires Decode(d, p, Object(m), true).Some? && fs[i].Walked() && fs[i].name in m
    ensures Decode(d, q, Object(m), true).Some? ==>
              Decode(d, p, Object(m), true).value.members[i] == Decode(d, q, Object(m), true).value.members[i]
    ensures (forall k | 0 <= k < |fs| :: fs[k].Walked() ==> fs[k].name in m) ==> Decode(d, q, Object(m), true).Some?
  {
    Overlay(d, fs, ds, p, m, i);
    if Decode(d, q, Object(m), true).Some? { Overlay(d, fs, ds, q, m, i); }
    AllMembers(fs, p.members, m, true);
    AllMembers(fs, q.members, m, true);
    if forall k | 0 <= k < |fs| :: fs[k].Walked() ==> fs[k].name in m {
      forall k | 0 <= k < |fs| ensures DecodeMember(fs[k], q.members[k], m, true).Some? {
        assert DecodeMember(fs[k], p.members[k], m, true).Some?;
      }
    }
  }

  /** A document the walk wrote restores the value over the defaults and over every parent alike. */
  lemma WrittenDocumentRestores(d: TypeDesc, v: Val, parent: Val)
    requires WellFormed(d) && WellNamed(d) && Typed(d, parent) && Typed(d, v) && Emit(d, v, Object(map[])).Some?
    ensures var j := Emit(d, v, Object(map[])).value;
            && Decode(d, parent, j, true).Some? && Restored(d, v, Decode(d, parent, j, true).value)
            && Decode(d, Default(d), j, false).Some? && Restored(d, v, Decode(d, Default(d), j, false).value)
  {
    DecodeEmit(d, parent, v, Object(map[]), true);
    DefaultTyped(d);
    DecodeEmit(d, Default(d), v, Object(map[]), false);
  }
}
