/** The text format seen from outside: which keys and items a document has, when one can be written, and what a reader makes of gaps. */
module TextLayout {
  import opened Common
  import opened Bytes
  import opened Reflection
  import opened TextFormat
  import L = BinaryLayout

  // ---------------------------------------------------------------- what stands in a document

  /** The names of the members the walk visits. */
  function Names(fs: seq<TypeDesc>): set<string> { set i | 0 <= i < |fs| && fs[i].Walked() :: fs[i].name }

  /** An object has one key for every visited member and no other. */
  lemma {:induction false} KeysExact(fs: seq<TypeDesc>, vs: seq<Val>, m: Fields)
    requires |fs| == |vs| && EmitMembers(fs, vs, m).Some?
    ensures EmitMembers(fs, vs, m).value.Keys == m.Keys + Names(fs)
    decreases |fs|
  {
    if fs != [] {
      var n := |fs| - 1;
      KeysExact(fs[..n], vs[..n], m);
      assert Names(fs) == Names(fs[..n]) + (if fs[n].Walked() then {fs[n].name} else {}) by {
        forall i | 0 <= i < |fs| && fs[i].Walked() && i != n ensures fs[i].name in Names(fs[..n]) { assert fs[..n][i] == fs[i]; }
      }
    }
  }

  /** A list has the elements in order, each written as if nothing stood there before. */
  lemma {:induction false} ItemsInOrder(e: TypeDesc, vs: seq<Val>, i: nat)
    requires EmitAll(e, vs).Some? && i < |vs|
    ensures Emit(e, vs[i], Null) == Some(EmitAll(e, vs).value[i])
    decreases |vs|
  {
    if i < |vs| - 1 { ItemsInOrder(e, vs[..|vs| - 1], i); }
  }

  /** What a value looks like in a document. */
  ghost predicate Shaped(d: TypeDesc, v: Val, here: Json, j: Json)
    requires Typed(d, v)
  {
    match d.body
    case Primitive(_) => j == Number(v.raw)
    case SizedBuffer => j == Text(v.data)
    case String => j == Text(v.text)
    case AssetReference =>
      && j.Object? && j.fields.Keys == {"id", "type"}
      && j.fields["id"] == Number(LE32(v.ref.id.id)) && j.fields["type"] == Number(LE32(v.ref.id.kind))
    case AliasOf(t) => Emit(t, v, here) == Some(j)
    case Struct(fs, _) => j.Object? && j.fields.Keys == Names(fs)
    case DynArray(e) => v.Arr? && j.List? && ItemsOf(e, v.elems, j.items)
    case ConstantArray(e, _) => j.List? && ItemsOf(e, v.elems, j.items)
    case _ => false
  }

  ghost predicate ItemsOf(e: TypeDesc, vs: seq<Val>, js: seq<Json>) {
    |js| == |vs| && forall i | 0 <= i < |vs| :: Emit(e, vs[i], Null) == Some(js[i])
  }

  /** Whatever stood in its place before. */
  lemma DocumentShape(d: TypeDesc, v: Val, here: Json)
    requires d.serializable && Typed(d, v) && Emit(d, v, here).Some?
    ensures Shaped(d, v, here, Emit(d, v, here).value)
  {
    match d.body
    case Struct(fs, _) => KeysExact(fs, v.members, map[]);
    case DynArray(e) => forall i | 0 <= i < |v.elems| ensures Emit(e, v.elems[i], Null) == Some(EmitAll(e, v.elems).value[i]) { ItemsInOrder(e, v.elems, i); }
    case ConstantArray(e, _) => forall i | 0 <= i < |v.elems| ensures Emit(e, v.elems[i], Null) == Some(EmitAll(e, v.elems).value[i]) { ItemsInOrder(e, v.elems, i); }
    case AssetReference => assert MaidJson(v.ref.id).fields.Keys == {"id", "type"};
    case _ =>
  }

  // ---------------------------------------------------------------- when writing succeeds

  /** Where the text walk fails: a view, a member without a type, a struct without members, an array whose count is no u32. */
  predicate RefusesHere(p: L.Place) {
    p.desc.serializable &&
    match p.desc.body
    case Disallowed => true
    case Untyped => true
    case Struct(fs, _) => fs == []
    case DynArray(_) => !p.value.Arr? || |p.value.elems| >= TWO_32
    case ConstantArray(_, n) => n >= TWO_32
    case _ => false
  }

  ghost predicate Refuses(d: TypeDesc, v: Val) {
    exists path :: L.At(d, v, path).Some? && RefusesHere(L.At(d, v, path).value)
  }

  lemma RefusesThrough(d: TypeDesc, v: Val, k: nat, e: TypeDesc, x: Val)
    requires d.serializable && forall rest :: L.At(d, v, [k] + rest) == L.At(e, x, rest)
    requires Refuses(e, x)
    ensures Refuses(d, v)
  {
    var path :| L.At(e, x, path).Some? && RefusesHere(L.At(e, x, path).value);
    assert L.At(d, v, [k] + path) == L.At(e, x, path);
  }

  /** A document can be written if and only if the walk meets no place it refuses, wherever it is put. */
  lemma EmitExact(d: TypeDesc, v: Val, here: Json)
    requires Typed(d, v)
    ensures Emit(d, v, here).Some? <==> !Refuses(d, v)
  {
    if Emit(d, v, here).None? { RefusedSomewhere(d, v, here); }
    if Refuses(d, v) {
      var path :| L.At(d, v, path).Some? && RefusesHere(L.At(d, v, path).value);
      RefusedFails(d, v, here, path);
    }
  }

  lemma {:induction false} RefusedFails(d: TypeDesc, v: Val, here: Json, path: seq<nat>)
    requires Typed(d, v) && L.At(d, v, path).Some? && RefusesHere(L.At(d, v, path).value)
    ensures Emit(d, v, here).None?
    decreases |path|
  {
    if path != [] {
      var k, rest := path[0], path[1..];
      match d.body
      case AliasOf(t) => RefusedFails(t, v, here, rest);
      case DynArray(e) =>
        RefusedFails(e, v.elems[k], Null, rest);
        if EmitAll(e, v.elems).Some? { ItemsInOrder(e, v.elems, k); }
      case ConstantArray(e, _) =>
        RefusedFails(e, v.elems[k], Null, rest);
        if EmitAll(e, v.elems).Some? { ItemsInOrder(e, v.elems, k); }
      case Struct(fs, _) =>
        if EmitMembers(fs, v.members, map[]).Some? {
          var before := EmittedMember(fs, v.members, k);
          RefusedFails(fs[k], v.members[k], before, rest);
        }
    }
  }

  lemma {:induction false} EmittedMember(fs: seq<TypeDesc>, vs: seq<Val>, k: nat) returns (here: Json)
    requires |fs| == |vs| && k < |fs| && fs[k].Walked() && EmitMembers(fs, vs, map[]).Some?
    ensures Emit(fs[k], vs[k], here).Some?
    decreases |fs|
  {
    var n := |fs| - 1;
    if k < n {
      assert fs[..n][k] == fs[k] && vs[..n][k] == vs[k];
      here := EmittedMember(fs[..n], vs[..n], k);
    } else {
      here := Lookup(EmitMembers(fs[..n], vs[..n], map[]).value, fs[n].name);
    }
  }

  lemma {:induction false} RefusedSomewhere(d: TypeDesc, v: Val, here: Json)
    requires Typed(d, v) && Emit(d, v, here).None?
    ensures Refuses(d, v)
    decreases d, 0
  {
    if RefusesHere(L.Place(d, v)) {
      assert L.At(d, v, []) == Some(L.Place(d, v));
    } else {
      match d.body
      case AliasOf(t) =>
        RefusedSomewhere(t, v, here);
        L.StepIn(d, v, 0, t, v);
        RefusesThrough(d, v, 0, t, v);
      case DynArray(e) =>
        var k := RefusedInAll(e, v.elems);
        L.StepIn(d, v, k, e, v.elems[k]);
        RefusesThrough(d, v, k, e, v.elems[k]);
      case ConstantArray(e, _) =>
        var k := RefusedInAll(e, v.elems);
        L.StepIn(d, v, k, e, v.elems[k]);
        RefusesThrough(d, v, k, e, v.elems[k]);
      case Struct(fs, _) =>
        var k := RefusedInMembers(fs, v.members, map[]);
        L.StepIn(d, v, k, fs[k], v.members[k]);
        RefusesThrough(d, v, k, fs[k], v.members[k]);
    }
  }

  lemma {:induction false} RefusedInAll(e: TypeDesc, vs: seq<Val>) returns (k: nat)
    requires AllTyped(e, vs) && EmitAll(e, vs).None?
    ensures k < |vs| && Refuses(e, vs[k])
    decreases e, 1, |vs|
  {
    var n := |vs| - 1;
    if EmitAll(e, vs[..n]).None? {
      k := RefusedInAll(e, vs[..n]);
    } else {
      RefusedSomewhere(e, vs[n], Null);
      k := n;
    }
  }

  lemma {:induction false} RefusedInMembers(fs: seq<TypeDesc>, vs: seq<Val>, m: Fields) returns (k: nat)
    requires |fs| == |vs| && MembersTyped(fs, vs) && EmitMembers(fs, vs, m).None?
    ensures k < |fs| && fs[k].Walked() && Refuses(fs[k], vs[k])
    decreases fs, 0
  {
    var n := |fs| - 1;
    var front := EmitMembers(fs[..n], vs[..n], m);
    if front.None? {
      k := RefusedInMembers(fs[..n], vs[..n], m);
    } else {
      RefusedSomewhere(fs[n], vs[n], Lookup(front.value, fs[n].name));
      k := n;
    }
  }

  // ---------------------------------------------------------------- gaps

  /** A half of an id that has no key stays invalid, and one that is no four-byte number makes the read fail. */
  lemma IdHalves(m: Fields)
    ensures ReadMaid(Object(m)).Some? <==>
            ("id" in m ==> m["id"].Number? && |m["id"].raw| == 4) && ("type" in m ==> m["type"].Number? && |m["type"].raw| == 4)
    ensures ReadMaid(Object(m)).Some? ==>
              var r := ReadMaid(Object(m)).value;
              && (if "id" in m then m["id"] == Number(LE32(r.id)) else r.id == INVALID_ID)
              && (if "type" in m then m["type"] == Number(LE32(r.kind)) else r.kind == INVALID_ID)
  {
    if ReadMaid(Object(m)).Some? {
      if "id" in m { LowestFirst(m["id"].raw); }
      if "type" in m { LowestFirst(m["type"].raw); }
    }
  }

  // ---------------------------------------------------------------- what can be read

  /** The document has the shape of the type: keys may be missing or unknown, but what is there fits. */
  ghost predicate Fits(d: TypeDesc, j: Json)
    decreases d, 0
  {
    d.serializable ==>
      match d.body
      case Primitive(n) => j.Number? && |j.raw| == n
      case SizedBuffer => j.Text?
      case String => j.Text?
      case AssetReference => j.Object? && HalfFits(j.fields, "id") && HalfFits(j.fields, "type")
      case DynArray(e) => j.List? && FirstFit(e, j.items, |j.items| % TWO_32)
      case ConstantArray(e, n) => j.List? && |j.items| % TWO_32 == n && FirstFit(e, j.items, n)
      case AliasOf(t) => Fits(t, j)
      case Struct(fs, _) => j.Object? && fs != [] && MembersFit(fs, j.fields)
      case Disallowed => false
      case Untyped => false
  }

  predicate HalfFits(m: Fields, key: string) { key in m ==> m[key].Number? && |m[key].raw| == 4 }

  ghost predicate FirstFit(e: TypeDesc, js: seq<Json>, n: nat)
    decreases e, 1
  {
    n <= |js| && forall i | 0 <= i < n :: Fits(e, js[i])
  }

  ghost predicate MembersFit(fs: seq<TypeDesc>, m: Fields)
    decreases fs, 0
  {
    forall i | 0 <= i < |fs| :: fs[i].Walked() && fs[i].name in m ==> Fits(fs[i], m[fs[i].name])
  }

  /** Whether a document can be read depends on it and on the type alone, not on what is read over. */
  lemma {:induction false} ReadExact(d: TypeDesc, base: Val, j: Json, reset: bool)
    requires WellFormed(d) && Typed(d, base)
    ensures Decode(d, base, j, reset).Some? <==> Fits(d, j)
    decreases d, 0
  {
    if d.serializable {
      match d.body
      case AssetReference => if j.Object? { IdHalves(j.fields); }
      case DynArray(e) =>
        DefaultTyped(e);
        if j.List? {
          var n := |j.items| % TWO_32;
          ReadAllExact(e, Repeat(Default(e), n), j.items[..n], false);
        }
      case ConstantArray(e, n) => if j.List? && |j.items| % TWO_32 == n { ReadAllExact(e, base.elems, j.items[..n], reset); }
      case AliasOf(t) => ReadExact(t, base, j, reset);
      case Struct(fs, _) => if j.Object? { ReadMembersExact(fs, base.members, j.fields, reset); }
      case _ =>
    }
  }

  lemma {:induction false} ReadAllExact(e: TypeDesc, bases: seq<Val>, js: seq<Json>, reset: bool)
    requires WellFormed(e) && |bases| == |js| && AllTyped(e, bases)
    ensures DecodeAll(e, bases, js, reset).Some? <==> FirstFit(e, js, |js|)
    decreases e, 1, |bases|
  {
    if bases != [] {
      var n := |bases| - 1;
      ReadAllExact(e, bases[..n], js[..n], reset);
      ReadExact(e, bases[n], js[n], reset);
      assert FirstFit(e, js, |js|) <==> FirstFit(e, js[..n], n) && Fits(e, js[n]) by {
        if FirstFit(e, js, |js|) { forall i | 0 <= i < n ensures Fits(e, js[..n][i]) { assert js[..n][i] == js[i]; } }
        if FirstFit(e, js[..n], n) && Fits(e, js[n]) { forall i | 0 <= i < |js| ensures Fits(e, js[i]) { if i < n { assert js[..n][i] == js[i]; } } }
      }
    }
  }

  lemma {:induction false} ReadMembersExact(fs: seq<TypeDesc>, bases: seq<Val>, m: Fields, reset: bool)
    requires |fs| == |bases| && MembersTyped(fs, bases) && forall i | 0 <= i < |fs| :: WellFormed(fs[i])
    ensures DecodeMembers(fs, bases, m, reset).Some? <==> MembersFit(fs, m)
    decreases fs, 0
  {
    AllMembers(fs, bases, m, reset);
    forall i | 0 <= i < |fs| ensures DecodeMember(fs[i], bases[i], m, reset).Some? <==> (fs[i].Walked() && fs[i].name in m ==> Fits(fs[i], m[fs[i].name])) {
      if fs[i].Walked() && fs[i].name in m {
        DefaultTyped(fs[i]);
        ReadExact(fs[i], if reset then Default(fs[i]) else bases[i], m[fs[i].name], false);
      }
    }
  }
}
