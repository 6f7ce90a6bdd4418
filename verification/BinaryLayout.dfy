/**
 The binary format seen from outside: which places of a value the walk reaches, when it succeeds, which ids it collects,
 and which bytes stand where.
 */
module BinaryLayout {
  import opened Common
  import opened Bytes
  import opened Reflection
  import opened BinaryFormat
  import BinaryLaws
  import Serialize
  import SerializeLaws
  import TextSerialize

  // ---------------------------------------------------------------- the places of a value

  datatype Place = Place(desc: TypeDesc, value: Val)

  /** The place at the end of a path: an index at every array and struct, and 0 through an alias. */
  function At(d: TypeDesc, v: Val, path: seq<nat>): Option<Place> {
    if path == [] then Some(Place(d, v))
    else if !d.serializable then None
    else
      var k, rest := path[0], path[1..];
      match d.body
      case AliasOf(t) => if k == 0 then At(t, v, rest) else None
      case DynArray(e) => if v.Arr? && k < |v.elems| then At(e, v.elems[k], rest) else None
      case ConstantArray(e, _) => if v.Arr? && k < |v.elems| then At(e, v.elems[k], rest) else None
      case Struct(fs, _) =>
        if v.Rec? && k < |fs| && k < |v.members| && fs[k].Walked() then At(fs[k], v.members[k], rest) else None
      case _ => None
  }

  predicate RefersHere(p: Place, m: Maid) {
    p.desc.serializable && p.desc.body.AssetReference? && p.value.Asset? && p.value.ref.id == m
  }

  ghost predicate Refers(d: TypeDesc, v: Val, m: Maid) {
    exists path :: At(d, v, path).Some? && RefersHere(At(d, v, path).value, m)
  }

  /** One step further in. */
  lemma RefersThrough(d: TypeDesc, v: Val, k: nat, e: TypeDesc, x: Val, m: Maid)
    requires d.serializable && forall rest :: At(d, v, [k] + rest) == At(e, x, rest)
    requires Refers(e, x, m)
    ensures Refers(d, v, m)
  {
    var path :| At(e, x, path).Some? && RefersHere(At(e, x, path).value, m);
    assert At(d, v, [k] + path) == At(e, x, path);
  }

  lemma StepIn(d: TypeDesc, v: Val, k: nat, e: TypeDesc, x: Val)
    requires d.serializable
    requires match d.body
             case AliasOf(t) => k == 0 && e == t && x == v
             case DynArray(t) => v.Arr? && k < |v.elems| && e == t && x == v.elems[k]
             case ConstantArray(t, _) => v.Arr? && k < |v.elems| && e == t && x == v.elems[k]
             case Struct(fs, _) => v.Rec? && k < |fs| && k < |v.members| && fs[k].Walked() && e == fs[k] && x == v.members[k]
             case _ => false
    ensures forall rest :: At(d, v, [k] + rest) == At(e, x, rest)
  {
    forall rest ensures At(d, v, [k] + rest) == At(e, x, rest) { assert ([k] + rest)[1..] == rest; }
  }

  /** The ids the walk collects are exactly those of the asset references it reaches. */
  lemma {:induction false} AssetsExact(d: TypeDesc, v: Val, m: Maid)
    ensures m in Assets(d, v) <==> Refers(d, v, m)
    decreases d
  {
    AssetsReached(d, v, m);
    if Refers(d, v, m) {
      var path :| At(d, v, path).Some? && RefersHere(At(d, v, path).value, m);
      ReachedCollected(d, v, path, m);
    }
  }

  lemma {:induction false} ReachedCollected(d: TypeDesc, v: Val, path: seq<nat>, m: Maid)
    requires At(d, v, path).Some? && RefersHere(At(d, v, path).value, m)
    ensures m in Assets(d, v)
    decreases |path|
  {
    if path != [] {
      var k, rest := path[0], path[1..];
      match d.body
      case AliasOf(t) => ReachedCollected(t, v, rest, m);
      case DynArray(e) =>
        ReachedCollected(e, v.elems[k], rest, m);
        CollectedOfAll(e, v.elems, k, m);
      case ConstantArray(e, _) =>
        ReachedCollected(e, v.elems[k], rest, m);
        CollectedOfAll(e, v.elems, k, m);
      case Struct(fs, _) =>
        ReachedCollected(fs[k], v.members[k], rest, m);
        CollectedOfMembers(fs, v.members, k, m);
    }
  }

  lemma {:induction false} CollectedOfAll(e: TypeDesc, vs: seq<Val>, k: nat, m: Maid)
    requires k < |vs| && m in Assets(e, vs[k])
    ensures m in AssetsOfAll(e, vs)
    decreases k
  {
    if k > 0 { CollectedOfAll(e, vs[1..], k - 1, m); }
  }

  lemma {:induction false} CollectedOfMembers(fs: seq<TypeDesc>, vs: seq<Val>, k: nat, m: Maid)
    requires k < |fs| && k < |vs| && fs[k].Walked() && m in Assets(fs[k], vs[k])
    ensures m in AssetsOfMembers(fs, vs)
    decreases k
  {
    if k > 0 { CollectedOfMembers(fs[1..], vs[1..], k - 1, m); }
  }

  lemma {:induction false} AssetsReached(d: TypeDesc, v: Val, m: Maid)
    ensures m in Assets(d, v) ==> Refers(d, v, m)
    decreases d, 0
  {
    if m in Assets(d, v) {
      match d.body
      case AssetReference => assert At(d, v, []) == Some(Place(d, v));
      case AliasOf(t) =>
        AssetsReached(t, v, m);
        StepIn(d, v, 0, t, v);
        RefersThrough(d, v, 0, t, v, m);
      case DynArray(e) =>
        var k := FoundInAll(e, v.elems, m);
        StepIn(d, v, k, e, v.elems[k]);
        RefersThrough(d, v, k, e, v.elems[k], m);
      case ConstantArray(e, _) =>
        var k := FoundInAll(e, v.elems, m);
        StepIn(d, v, k, e, v.elems[k]);
        RefersThrough(d, v, k, e, v.elems[k], m);
      case Struct(fs, _) =>
        var k := FoundInMembers(fs, v.members, m);
        StepIn(d, v, k, fs[k], v.members[k]);
        RefersThrough(d, v, k, fs[k], v.members[k], m);
    }
  }

  lemma {:induction false} FoundInAll(e: TypeDesc, vs: seq<Val>, m: Maid) returns (k: nat)
    requires m in AssetsOfAll(e, vs)
    ensures k < |vs| && Refers(e, vs[k], m)
    decreases e, |vs|
  {
    if m in Assets(e, vs[0]) {
      AssetsReached(e, vs[0], m);
      k := 0;
    } else {
      var j := FoundInAll(e, vs[1..], m);
      k := j + 1;
    }
  }

  lemma {:induction false} FoundInMembers(fs: seq<TypeDesc>, vs: seq<Val>, m: Maid) returns (k: nat)
    requires m in AssetsOfMembers(fs, vs)
    ensures k < |fs| && k < |vs| && fs[k].Walked() && Refers(fs[k], vs[k], m)
    decreases fs, 0
  {
    if fs[0].Walked() && m in Assets(fs[0], vs[0]) {
      AssetsReached(fs[0], vs[0], m);
      k := 0;
    } else {
      var j := FoundInMembers(fs[1..], vs[1..], m);
      k := j + 1;
    }
  }

  // ---------------------------------------------------------------- when writing succeeds

  /** The walk cannot write what it meets here: a view, a member without a type, a struct without members, too long an array. */
  predicate RefusesHere(p: Place, deps: Deps) {
    p.desc.serializable &&
    match p.desc.body
    case Disallowed => true
    case Untyped => true
    case Struct(fs, _) => fs == []
    case DynArray(_) => if p.value.Arr? then |p.value.elems| >= TWO_32 else deps.Off? || |deps.items| >= TWO_32
    case _ => false
  }

  ghost predicate Refuses(d: TypeDesc, v: Val, deps: Deps) {
    exists path :: At(d, v, path).Some? && RefusesHere(At(d, v, path).value, deps)
  }

  lemma RefusesThrough(d: TypeDesc, v: Val, k: nat, e: TypeDesc, x: Val, deps: Deps)
    requires d.serializable && forall rest :: At(d, v, [k] + rest) == At(e, x, rest)
    requires Refuses(e, x, deps)
    ensures Refuses(d, v, deps)
  {
    var path :| At(e, x, path).Some? && RefusesHere(At(e, x, path).value, deps);
    assert At(d, v, [k] + path) == At(e, x, path);
  }

  /** Writing with the complete list of ids succeeds if and only if the walk meets no place it refuses. */
  lemma EmitExact(d: TypeDesc, v: Val, deps: Deps)
    requires Typed(d, v) && Covered(deps, Assets(d, v))
    ensures Emit(d, v, deps).Some? <==> !Refuses(d, v, deps)
  {
    if Emit(d, v, deps).None? { RefusedSomewhere(d, v, deps); }
    if Refuses(d, v, deps) {
      var path :| At(d, v, path).Some? && RefusesHere(At(d, v, path).value, deps);
      RefusedFails(d, v, deps, path);
    }
  }

  lemma {:induction false} RefusedFails(d: TypeDesc, v: Val, deps: Deps, path: seq<nat>)
    requires Typed(d, v) && Covered(deps, Assets(d, v))
    requires At(d, v, path).Some? && RefusesHere(At(d, v, path).value, deps)
    ensures Emit(d, v, deps).None?
    decreases |path|
  {
    if path != [] {
      var k, rest := path[0], path[1..];
      match d.body
      case AliasOf(t) => RefusedFails(t, v, deps, rest);
      case DynArray(e) =>
        CoveredInAll(e, v.elems, deps, k);
        RefusedFails(e, v.elems[k], deps, rest);
        FailsInAll(e, v.elems, deps, k);
      case ConstantArray(e, _) =>
        CoveredInAll(e, v.elems, deps, k);
        RefusedFails(e, v.elems[k], deps, rest);
        FailsInAll(e, v.elems, deps, k);
      case Struct(fs, _) =>
        CoveredInMembers(fs, v.members, deps, k);
        RefusedFails(fs[k], v.members[k], deps, rest);
        FailsInMembers(fs, v.members, deps, k);
    }
  }

  lemma {:induction false} CoveredInAll(e: TypeDesc, vs: seq<Val>, deps: Deps, k: nat)
    requires k < |vs| && Covered(deps, AssetsOfAll(e, vs))
    ensures Covered(deps, Assets(e, vs[k]))
    decreases k
  {
    if k > 0 { CoveredInAll(e, vs[1..], deps, k - 1); }
  }

  lemma {:induction false} CoveredInMembers(fs: seq<TypeDesc>, vs: seq<Val>, deps: Deps, k: nat)
    requires k < |fs| && k < |vs| && fs[k].Walked() && Covered(deps, AssetsOfMembers(fs, vs))
    ensures Covered(deps, Assets(fs[k], vs[k]))
    decreases k
  {
    if k > 0 { CoveredInMembers(fs[1..], vs[1..], deps, k - 1); }
  }

  lemma {:induction false} FailsInAll(e: TypeDesc, vs: seq<Val>, deps: Deps, k: nat)
    requires k < |vs| && Covered(deps, AssetsOfAll(e, vs)) && Emit(e, vs[k], deps).None?
    ensures EmitAll(e, vs, deps).None?
    decreases k
  {
    if k > 0 {
      AddAllCovered(deps, Assets(e, vs[0]));
      FailsInAll(e, vs[1..], deps, k - 1);
    }
  }

  lemma {:induction false} FailsInMembers(fs: seq<TypeDesc>, vs: seq<Val>, deps: Deps, k: nat)
    requires k < |fs| && k < |vs| && fs[k].Walked() && Covered(deps, AssetsOfMembers(fs, vs)) && Emit(fs[k], vs[k], deps).None?
    ensures EmitMembers(fs, vs, deps).None?
    decreases k
  {
    if k > 0 {
      if fs[0].Walked() { AddAllCovered(deps, Assets(fs[0], vs[0])); }
      FailsInMembers(fs[1..], vs[1..], deps, k - 1);
    }
  }

  lemma {:induction false} RefusedSomewhere(d: TypeDesc, v: Val, deps: Deps)
    requires Typed(d, v) && Covered(deps, Assets(d, v)) && Emit(d, v, deps).None?
    ensures Refuses(d, v, deps)
    decreases d, 0
  {
    if RefusesHere(Place(d, v), deps) {
      assert At(d, v, []) == Some(Place(d, v));
    } else {
      match d.body
      case AliasOf(t) =>
        RefusedSomewhere(t, v, deps);
        StepIn(d, v, 0, t, v);
        RefusesThrough(d, v, 0, t, v, deps);
      case DynArray(e) => RefusedInArray(d, e, v, deps);
      case ConstantArray(e, _) => RefusedInArray(d, e, v, deps);
      case Struct(fs, _) =>
        var k := RefusedInMembers(fs, v.members, deps);
        StepIn(d, v, k, fs[k], v.members[k]);
        RefusesThrough(d, v, k, fs[k], v.members[k], deps);
    }
  }

  lemma {:induction false} RefusedInArray(d: TypeDesc, e: TypeDesc, v: Val, deps: Deps)
    requires d.serializable && Typed(d, v) && Covered(deps, Assets(d, v)) && Emit(d, v, deps).None? && !RefusesHere(Place(d, v), deps)
    requires d.body == DynArray(e) || (d.body.ConstantArray? && d.body.elem == e)
    ensures Refuses(d, v, deps)
    decreases e, 2
  {
    if v.Live? {
      Serialize.MaidsEmit(deps.items, deps);
    } else {
      var k := RefusedInAll(e, v.elems, deps);
      StepIn(d, v, k, e, v.elems[k]);
      RefusesThrough(d, v, k, e, v.elems[k], deps);
    }
  }

  lemma {:induction false} RefusedInAll(e: TypeDesc, vs: seq<Val>, deps: Deps) returns (k: nat)
    requires AllTyped(e, vs) && Covered(deps, AssetsOfAll(e, vs)) && EmitAll(e, vs, deps).None?
    ensures k < |vs| && Refuses(e, vs[k], deps)
    decreases e, 1, |vs|
  {
    CoveredInAll(e, vs, deps, 0);
    if Emit(e, vs[0], deps).None? {
      RefusedSomewhere(e, vs[0], deps);
      k := 0;
    } else {
      AddAllCovered(deps, Assets(e, vs[0]));
      var j := RefusedInAll(e, vs[1..], deps);
      k := j + 1;
    }
  }

  lemma {:induction false} RefusedInMembers(fs: seq<TypeDesc>, vs: seq<Val>, deps: Deps) returns (k: nat)
    requires |fs| == |vs| && MembersTyped(fs, vs) && Covered(deps, AssetsOfMembers(fs, vs)) && EmitMembers(fs, vs, deps).None?
    ensures k < |fs| && fs[k].Walked() && Refuses(fs[k], vs[k], deps)
    decreases fs, 0
  {
    if fs[0].Walked() {
      CoveredInMembers(fs, vs, deps, 0);
      AddAllCovered(deps, Assets(fs[0], vs[0]));
    }
    if fs[0].Walked() && Emit(fs[0], vs[0], deps).None? {
      RefusedSomewhere(fs[0], vs[0], deps);
      k := 0;
    } else {
      var j := RefusedInMembers(fs[1..], vs[1..], deps);
      k := j + 1;
    }
  }

  /** The list saved with an object holds exactly the valid ids the walk reaches in it. */
  lemma SavedDependencies(t: Serialize.AssetType, obj: Val, m: Maid)
    requires Serialize.IsObject(t.desc, obj) && Serialize.HasHeader(t.desc)
    ensures Serialize.HeaderOf(t.desc, obj).Rec? && |Serialize.HeaderOf(t.desc, obj).members| == 8
    ensures var found := SerializeLaws.Collected(t, Serialize.Prepared(t, obj));
            found.On? && (m in found.items <==> m.IsValid() && Refers(t.desc, obj, m))
  {
    Serialize.PreparedKeeps(t, obj);
    var fs, k, p := t.desc.body.fields, Serialize.HeaderIndex(t.desc.body.fields), Serialize.Prepared(t, obj);
    TextSerialize.HeaderHasNoAssets(obj.members[k]);
    TextSerialize.HeaderHasNoAssets(p.members[k]);
    assert Assets(fs[k], obj.members[k]) == [] && Assets(fs[k], p.members[k]) == [];
    TextSerialize.SplitMembers(fs, obj.members, k);
    TextSerialize.SplitMembers(fs, p.members, k);
    assert p.members[..k] == obj.members[..k] && p.members[k..][1..] == obj.members[k..][1..];
    assert Assets(t.desc, p) == Assets(t.desc, obj);
    CollectFirstOccurrences(Assets(t.desc, obj));
    AssetsExact(t.desc, obj, m);
  }

  // ---------------------------------------------------------------- which bytes stand where

  function Concat(parts: seq<bytes>): bytes {
    if parts == [] then [] else parts[0] + Concat(parts[1..])
  }

  /** The bytes of one member or element by itself; none for a member the walk does not visit. */
  function Part(d: TypeDesc, v: Val, deps: Deps): bytes {
    if Emit(d, v, deps).Some? then Emit(d, v, deps).value else []
  }

  function MemberParts(fs: seq<TypeDesc>, vs: seq<Val>, deps: Deps): seq<bytes>
    requires |fs| == |vs|
  {
    seq(|fs|, i requires 0 <= i < |fs| => if fs[i].Walked() then Part(fs[i], vs[i], deps) else [])
  }

  /** A struct is written member by member in the order of its declaration, with nothing between and nothing for the others. */
  lemma {:induction false} MembersInOrder(fs: seq<TypeDesc>, vs: seq<Val>, deps: Deps)
    requires |fs| == |vs| && Covered(deps, AssetsOfMembers(fs, vs)) && EmitMembers(fs, vs, deps).Some?
    ensures EmitMembers(fs, vs, deps).value == Concat(MemberParts(fs, vs, deps))
    decreases |fs|
  {
    if fs != [] {
      if fs[0].Walked() { AddAllCovered(deps, Assets(fs[0], vs[0])); }
      MembersInOrder(fs[1..], vs[1..], deps);
      assert MemberParts(fs, vs, deps)[1..] == MemberParts(fs[1..], vs[1..], deps);
    }
  }

  lemma {:induction false} ElementsInOrder(e: TypeDesc, vs: seq<Val>, deps: Deps)
    requires Covered(deps, AssetsOfAll(e, vs)) && EmitAll(e, vs, deps).Some?
    ensures EmitAll(e, vs, deps).value == Concat(seq(|vs|, i requires 0 <= i < |vs| => Part(e, vs[i], deps)))
    decreases |vs|
  {
    if vs != [] {
      AddAllCovered(deps, Assets(e, vs[0]));
      ElementsInOrder(e, vs[1..], deps);
      var parts := seq(|vs|, i requires 0 <= i < |vs| => Part(e, vs[i], deps));
      assert parts[1..] == seq(|vs| - 1, i requires 0 <= i < |vs| - 1 => Part(e, vs[1..][i], deps));
    }
  }

  /** A dynamic array is its count in four bytes, the lowest first, and then its elements in order; a constant array only these. */
  lemma ArrayLayout(d: TypeDesc, v: Val, deps: Deps)
    requires d.serializable && (d.body.DynArray? || d.body.ConstantArray?) && v.Arr?
    requires Covered(deps, Assets(d, v)) && Emit(d, v, deps).Some?
    ensures var b, head := Emit(d, v, deps).value, if d.body.DynArray? then 4 else 0;
            && |b| >= head && (d.body.DynArray? ==> FromLE32(b[..4]) == |v.elems|)
            && b[head..] == Concat(seq(|v.elems|, i requires 0 <= i < |v.elems| => Part(d.body.elem, v.elems[i], deps)))
  {
    var e := d.body.elem;
    ElementsInOrder(e, v.elems, deps);
    if d.body.DynArray? { LE32RoundTrip(|v.elems|); }
  }

  /** Strings and buffers are their length, cut to 32 bits, and as many of their bytes; asset references are the two numbers of the id. */
  lemma LeafLayout(d: TypeDesc, v: Val, deps: Deps)
    requires d.serializable && Emit(d, v, deps).Some?
    ensures var b := Emit(d, v, deps).value;
            match d.body
            case Primitive(_) => v.Prim? && b == v.raw
            case String => v.Str? && |b| == 4 + |v.text| % TWO_32 && FromLE32(b[..4]) == |v.text| % TWO_32 && b[4..] <= v.text
            case SizedBuffer => v.Span? && |b| == 4 + |v.data| % TWO_32 && FromLE32(b[..4]) == |v.data| % TWO_32 && b[4..] <= v.data
            case AssetReference => v.Asset? && |b| == 8 && FromLE32(b[..4]) == v.ref.id.id && FromLE32(b[4..]) == v.ref.id.kind
            case _ => true
  {
    match d.body
    case String => LE32RoundTrip(|v.text| % TWO_32);
    case SizedBuffer => LE32RoundTrip(|v.data| % TWO_32);
    case AssetReference =>
      LE32RoundTrip(v.ref.id.id);
      LE32RoundTrip(v.ref.id.kind);
    case _ =>
  }

  lemma MaidBytes(m: Maid, deps: Deps)
    ensures Emit(TD_MAID, MaidVal(m), deps) == Some(LE32(m.id) + LE32(m.kind))
  {
    var v := MaidVal(m);
    Serialize.MaidsEmit([m], deps);
    assert MaidVals([m])[0] == v && Emit(TD_MAID, v, deps).Some?;
    BinaryLaws.MaidHasNoAssets([v]);
    var fs := TD_MAID.body.fields;
    assert AssetsOfAll(TD_MAID, [v]) == Assets(TD_MAID, v) + AssetsOfAll(TD_MAID, [v][1..]);
    MembersInOrder(fs, v.members, deps);
    assert Emit(TD_U32, v.members[0], deps) == Some(LE32(m.id)) && Emit(TD_U32, v.members[1], deps) == Some(LE32(m.kind));
    var parts := MemberParts(fs, v.members, deps);
    assert fs[0].body == AliasOf(TD_U32) && fs[1].body == AliasOf(TD_U32);
    assert parts == [LE32(m.id), LE32(m.kind)];
    assert Concat(parts[1..]) == LE32(m.kind) + Concat(parts[1..][1..]) == LE32(m.kind);
  }

  /** The forty bytes in front of a saved asset: "MEAS", the format, the type's version and name, zero, the two ids and the number of dependencies. */
  function Front(t: Serialize.AssetType, own: Maid, up: Maid, n: u32): (r: bytes)
    ensures |r| == 40
  {
    [0x4D, 0x45, 0x41, 0x53] + [1, 0, 0, 0] + LE32(t.version) + LE32(t.nameHash) + [0, 0, 0, 0]
    + LE32(own.id) + LE32(own.kind) + LE32(up.id) + LE32(up.kind) + LE32(n)
  }

  lemma SavedFront(t: Serialize.AssetType, obj: Val, own: Maid, up: Maid)
    requires Serialize.IsObject(t.desc, obj) && Serialize.HasHeader(t.desc) && t.desc.serializable
    requires Serialize.HeaderIndex(t.desc.body.fields) == 0 && t.desc.body.fields[0].serializable
    requires obj.members[0].Rec? && |obj.members[0].members| == 8
    requires obj.members[0].members[5] == MaidVal(own) && obj.members[0].members[6] == MaidVal(up)
    requires SerializeLaws.Blob(t, Serialize.Prepared(t, obj)).Some?
    ensures var found := SerializeLaws.Collected(t, Serialize.Prepared(t, obj));
            found.On? && |found.items| < TWO_32
            && Front(t, own, up, |found.items|) <= SerializeLaws.Blob(t, Serialize.Prepared(t, obj)).value
  {
    var p := Serialize.Prepared(t, obj);
    Serialize.PreparedIsObject(t, obj);
    Serialize.PreparedKeeps(t, obj);
    var rest := SerializeLaws.BlobIsHeaderThenRest(t, p);
    HeaderBytes(t, p.members[0], SerializeLaws.Collected(t, p), own, up);
  }

  lemma HeaderBytes(t: Serialize.AssetType, h: Val, deps: Deps, own: Maid, up: Maid)
    requires h.Rec? && |h.members| == 8 && Serialize.WordsOf(t, h)
    requires h.members[5] == MaidVal(own) && h.members[6] == MaidVal(up) && h.members[7] == Live
    requires Emit(Serialize.TD_HEADER, h, deps).Some? && Covered(deps, Assets(Serialize.TD_HEADER, h))
    ensures deps.On? && |deps.items| < TWO_32
    ensures Front(t, own, up, |deps.items|) <= Emit(Serialize.TD_HEADER, h, deps).value
  {
    var fs, vs := Serialize.HEADER_FIELDS, h.members;
    MembersInOrder(fs, vs, deps);
    var parts := MemberParts(fs, vs, deps);
    WordParts(t, vs, deps);
    IdParts(vs, deps, own, up);
    SerializeLaws.EmitsEach(fs, vs, deps, 7);
    assert parts[7] == Part(fs[7], Live, deps);
    var tail := ListPart(deps);
    FrontOfParts(t, own, up, |deps.items|, parts, tail);
  }

  lemma FrontOfParts(t: Serialize.AssetType, own: Maid, up: Maid, n: u32, parts: seq<bytes>, tail: bytes)
    requires |parts| == 8 && parts[0] == [0x4D, 0x45, 0x41, 0x53] && parts[1] == [1, 0, 0, 0]
    requires parts[2] == LE32(t.version) && parts[3] == LE32(t.nameHash) && parts[4] == [0, 0, 0, 0]
    requires parts[5] == LE32(own.id) + LE32(own.kind) && parts[6] == LE32(up.id) + LE32(up.kind) && parts[7] == LE32(n) + tail
    ensures Front(t, own, up, n) <= Concat(parts)
  {
    FirstEight(parts);
    assert Concat(parts) == Front(t, own, up, n) + tail;
  }

  lemma WordParts(t: Serialize.AssetType, vs: seq<Val>, deps: Deps)
    requires |vs| == 8 && Serialize.WordsOf(t, Rec(vs))
    ensures var parts := MemberParts(Serialize.HEADER_FIELDS, vs, deps);
            && parts[0] == [0x4D, 0x45, 0x41, 0x53] && parts[1] == [1, 0, 0, 0]
            && parts[2] == LE32(t.version) && parts[3] == LE32(t.nameHash) && parts[4] == [0, 0, 0, 0]
  {
    var parts := MemberParts(Serialize.HEADER_FIELDS, vs, deps);
    forall i: nat | i < 5 ensures parts[i] == vs[i].raw { WordPart(vs, deps, i); }
    assert parts[0] == LE32(Serialize.MAGIC) && parts[1] == LE32(Serialize.FORMAT_VERSION) && parts[2] == LE32(t.version);
    assert parts[3] == LE32(t.nameHash) && parts[4] == LE32(0);
  }

  lemma WordPart(vs: seq<Val>, deps: Deps, i: nat)
    requires |vs| == 8 && i < 5 && vs[i].Prim?
    ensures MemberParts(Serialize.HEADER_FIELDS, vs, deps)[i] == vs[i].raw
  {
    var f := Serialize.HEADER_FIELDS[i];
    assert f.body == AliasOf(TD_U32) && f.Walked();
    assert Emit(f, vs[i], deps) == Emit(TD_U32, vs[i], deps) == Some(vs[i].raw);
  }

  lemma IdParts(vs: seq<Val>, deps: Deps, own: Maid, up: Maid)
    requires |vs| == 8 && vs[5] == MaidVal(own) && vs[6] == MaidVal(up)
    ensures var parts := MemberParts(Serialize.HEADER_FIELDS, vs, deps);
            parts[5] == LE32(own.id) + LE32(own.kind) && parts[6] == LE32(up.id) + LE32(up.kind)
  {
    var fs := Serialize.HEADER_FIELDS;
    MaidBytes(own, deps);
    MaidBytes(up, deps);
    assert fs[5].body == AliasOf(TD_MAID) && fs[6].body == AliasOf(TD_MAID);
    assert Emit(fs[5], vs[5], deps) == Emit(TD_MAID, vs[5], deps) && Emit(fs[6], vs[6], deps) == Emit(TD_MAID, vs[6], deps);
  }

  lemma ListPart(deps: Deps) returns (tail: bytes)
    requires Emit(Serialize.HEADER_FIELDS[7], Live, deps).Some?
    ensures deps.On? && |deps.items| < TWO_32 && Part(Serialize.HEADER_FIELDS[7], Live, deps) == LE32(|deps.items|) + tail
  {
    assert Serialize.HEADER_FIELDS[7].body == DynArray(TD_MAID);
    tail := EmitAll(TD_MAID, MaidVals(deps.items), deps).value;
  }

  lemma FirstEight(parts: seq<bytes>)
    requires |parts| == 8
    ensures Concat(parts) == parts[0] + parts[1] + parts[2] + parts[3] + parts[4] + parts[5] + parts[6] + parts[7]
  {
    assert Concat(parts[7..]) == parts[7];
    forall i | 0 <= i < 7 ensures Concat(parts[i..]) == parts[i] + Concat(parts[i + 1..]) { assert parts[i..][1..] == parts[i + 1..]; }
    assert parts[0..] == parts;
  }

  // ---------------------------------------------------------------- writing what was read

  lemma ReadU32Exact(b: bytes)
    ensures ReadU32(b).Got? ==> b == LE32(ReadU32(b).value) + ReadU32(b).rest
  {
    if 4 <= |b| { LowestFirst(b[..4]); }
  }

  lemma ReadSizedExact(b: bytes)
    ensures ReadSized(b).Got? ==> b == SizedBytes(ReadSized(b).value) + ReadSized(b).rest
  {
    if ReadSized(b).Got? {
      ReadU32Exact(b);
      var n, rest := ReadU32(b).value, ReadU32(b).rest;
      var s := rest[..n];
      assert Truncated(s) == s;
      assert b == LE32(n) + (s + rest[n..]);
    }
  }

  lemma ReadMaidExact(b: bytes)
    ensures ReadMaid(b).Got? ==> b == LE32(ReadMaid(b).value.id) + LE32(ReadMaid(b).value.kind) + ReadMaid(b).rest
  {
    ReadU32Exact(b);
    if 4 <= |b| { ReadU32Exact(b[4..]); }
  }

  lemma Regrouped(b: bytes, x: bytes, y: bytes, rest: bytes, last: bytes)
    requires b == x + rest && rest == y + last
    ensures b == (x + y) + last
  {
  }

  /** Whatever bytes can be read, writing the value read gives just those bytes again. */
  lemma {:induction false} EmitDecode(d: TypeDesc, base: Val, b: bytes, deps: Deps)
    requires WellFormed(d) && Typed(d, base) && Decode(d, base, b).Got?
    ensures var r := Decode(d, base, b);
            Typed(d, r.value) && Emit(d, r.value, deps).Some? && b == Emit(d, r.value, deps).value + r.rest
    decreases d, 0
  {
    if d.serializable {
      var r := Decode(d, base, b);
      match d.body
      case Primitive(n) =>
      case SizedBuffer => ReadSizedExact(b);
      case String => ReadSizedExact(b);
      case AssetReference => ReadMaidExact(b);
      case DynArray(e) =>
        var n, rest := ReadU32(b).value, ReadU32(b).rest;
        ReadU32Exact(b);
        DefaultTyped(e);
        EmitDecodeAll(e, Repeat(Default(e), n), rest, deps);
        assert b == LE32(n) + (EmitAll(e, r.value.elems, deps).value + r.rest);
      case ConstantArray(e, _) => EmitDecodeAll(e, base.elems, b, deps);
      case AliasOf(t) => EmitDecode(t, base, b, deps);
      case Struct(fs, _) => EmitDecodeMembers(fs, base.members, b, deps);
    }
  }

  lemma {:induction false} EmitDecodeAll(e: TypeDesc, bases: seq<Val>, b: bytes, deps: Deps)
    requires WellFormed(e) && AllTyped(e, bases) && DecodeAll(e, bases, b).Got?
    ensures var r := DecodeAll(e, bases, b);
            && |r.value| == |bases| && AllTyped(e, r.value)
            && EmitAll(e, r.value, deps).Some? && b == EmitAll(e, r.value, deps).value + r.rest
    decreases e, |bases|
  {
    if bases != [] {
      var head, r := Decode(e, bases[0], b), DecodeAll(e, bases, b);
      EmitDecode(e, bases[0], b, deps);
      var deps1 := AddAll(deps, Assets(e, head.value));
      EmitDecodeAll(e, bases[1..], head.rest, deps1);
      var tail := DecodeAll(e, bases[1..], head.rest);
      assert r == Got([head.value] + tail.value, tail.rest) && r.value[1..] == tail.value;
      Regrouped(b, Emit(e, head.value, deps).value, EmitAll(e, tail.value, deps1).value, head.rest, tail.rest);
    }
  }

  lemma {:induction false} EmitDecodeMembers(fs: seq<TypeDesc>, bases: seq<Val>, b: bytes, deps: Deps)
    requires |fs| == |bases| && MembersTyped(fs, bases) && (forall i | 0 <= i < |fs| :: WellFormed(fs[i]))
    requires DecodeMembers(fs, bases, b).Got?
    ensures var r := DecodeMembers(fs, bases, b);
            && |r.value| == |fs| && MembersTyped(fs, r.value)
            && EmitMembers(fs, r.value, deps).Some? && b == EmitMembers(fs, r.value, deps).value + r.rest
    decreases fs, 0
  {
    if fs != [] {
      var r := DecodeMembers(fs, bases, b);
      if fs[0].Walked() {
        var head := Decode(fs[0], bases[0], b);
        EmitDecode(fs[0], bases[0], b, deps);
        var deps1 := AddAll(deps, Assets(fs[0], head.value));
        EmitDecodeMembers(fs[1..], bases[1..], head.rest, deps1);
        var tail := DecodeMembers(fs[1..], bases[1..], head.rest);
        assert r == Got([head.value] + tail.value, tail.rest) && r.value[1..] == tail.value;
        Regrouped(b, Emit(fs[0], head.value, deps).value, EmitMembers(fs[1..], tail.value, deps1).value, head.rest, tail.rest);
      } else {
        EmitDecodeMembers(fs[1..], bases[1..], b, deps);
        var tail := DecodeMembers(fs[1..], bases[1..], b);
        assert r.value == [bases[0]] + tail.value && r.value[1..] == tail.value && r.rest == tail.rest;
      }
    }
  }

  /** So bytes can be read if and only if they start with what some value is written as. */
  lemma DecodeExact(d: TypeDesc, base: Val, b: bytes)
    requires WellFormed(d) && Typed(d, base)
    ensures Decode(d, base, b).Got? <==> exists v :: Typed(d, v) && Emit(d, v, Off).Some? && Emit(d, v, Off).value <= b
  {
    if Decode(d, base, b).Got? {
      EmitDecode(d, base, b, Off);
      var v := Decode(d, base, b).value;
      assert Typed(d, v) && Emit(d, v, Off).value <= b;
    }
    if v :| Typed(d, v) && Emit(d, v, Off).Some? && Emit(d, v, Off).value <= b {
      var rest := b[|Emit(d, v, Off).value|..];
      assert b == Emit(d, v, Off).value + rest;
      BinaryLaws.DecodeEmit(d, base, v, Off, rest);
    }
  }

  // ---------------------------------------------------------------- which blobs are accepted

  /** A header of the type that names these ids, as it can stand in front of a blob. */
  ghost predicate HeaderNaming(t: Serialize.AssetType, h: Val, own: Maid, up: Maid) {
    && Typed(Serialize.TD_HEADER, h) && h.Rec? && |h.members| == 8
    && h.members[..4] == [Prim(LE32(Serialize.MAGIC)), Prim(LE32(Serialize.FORMAT_VERSION)), Prim(LE32(t.version)), Prim(LE32(t.nameHash))]
    && h.members[5] == MaidVal(own) && h.members[6] == MaidVal(up)
  }

  ghost predicate StartsAs(d: TypeDesc, v: Val, b: bytes) { Typed(d, v) && Emit(d, v, Off).Some? && Emit(d, v, Off).value <= b }

  /** The bytes start with a header of the type that names no parent, or one of the asset's own kind that is there. */
  ghost predicate UsableHeader(t: Serialize.AssetType, blob: bytes, parent: Option<Val>) {
    exists h, own, up ::
      && HeaderNaming(t, h, own, up) && StartsAs(Serialize.TD_HEADER, h, blob)
      && (!up.IsValid() || (up.kind == own.kind && parent.Some?))
  }

  /** Of all blobs exactly those are read as an asset that start with a usable header and with some value of the type. */
  lemma AcceptedExact(t: Serialize.AssetType, blob: bytes, parent: Option<Val>)
    requires WellFormed(t.desc) && Serialize.HasHeader(t.desc) && (parent.Some? ==> Typed(t.desc, parent.value))
    ensures Serialize.Deserialized(t, blob, parent).0 == Serialize.SER_SUCCESS <==>
            UsableHeader(t, blob, parent) && exists v :: StartsAs(t.desc, v, blob)
  {
    HeaderExact(t, blob, parent);
    DefaultTyped(t.desc);
    ReadableExact(t.desc, Default(t.desc), blob);
    if parent.Some? {
      Serialize.ResetTyped(t.desc, parent.value);
      ReadableExact(t.desc, Serialize.Reset(t.desc, parent.value), blob);
    }
  }

  lemma ReadableExact(d: TypeDesc, base: Val, b: bytes)
    requires WellFormed(d) && Typed(d, base)
    ensures Decode(d, base, b).Got? <==> exists v :: StartsAs(d, v, b)
  {
    DecodeExact(d, base, b);
    if v :| Typed(d, v) && Emit(d, v, Off).Some? && Emit(d, v, Off).value <= b { assert StartsAs(d, v, b); }
  }

  /** What the entry point checks of the header in front of a blob. */
  ghost predicate HeaderPasses(t: Serialize.AssetType, blob: bytes, parent: Option<Val>) {
    var header := Serialize.HeaderIn(blob);
    header.Got? && Serialize.Validate(t, header.value) == Serialize.SER_SUCCESS && Serialize.Inherited(t, header.value, parent).Some?
  }

  lemma HeaderExact(t: Serialize.AssetType, blob: bytes, parent: Option<Val>)
    ensures HeaderPasses(t, blob, parent) <==> UsableHeader(t, blob, parent)
  {
    if HeaderPasses(t, blob, parent) { PassingHeader(t, blob, parent); }
    if UsableHeader(t, blob, parent) {
      var h, own, up :|
        && HeaderNaming(t, h, own, up) && StartsAs(Serialize.TD_HEADER, h, blob)
        && (!up.IsValid() || (up.kind == own.kind && parent.Some?));
      UsablePasses(t, blob, parent, h, own, up);
    }
  }

  lemma PassingHeader(t: Serialize.AssetType, blob: bytes, parent: Option<Val>)
    requires HeaderPasses(t, blob, parent)
    ensures UsableHeader(t, blob, parent)
  {
    Serialize.HeaderWellFormed();
    DefaultTyped(Serialize.TD_HEADER);
    EmitDecode(Serialize.TD_HEADER, Default(Serialize.TD_HEADER), blob, Off);
    var h := Serialize.HeaderIn(blob).value;
    HeaderMembers(h);
    var own, up := Serialize.MaidAt(h, 5), Serialize.MaidAt(h, 6);
    assert HeaderNaming(t, h, own, up);
    assert StartsAs(Serialize.TD_HEADER, h, blob);
  }

  /** What is read from a header is what stands in it. */
  lemma HeaderMembers(h: Val)
    requires Typed(Serialize.TD_HEADER, h)
    ensures h.Rec? && |h.members| == 8
    ensures forall i | 0 <= i < 5 :: Serialize.Word(h, i).Some? && h.members[i] == Prim(LE32(Serialize.Word(h, i).value))
    ensures h.members[5] == MaidVal(Serialize.MaidAt(h, 5)) && h.members[6] == MaidVal(Serialize.MaidAt(h, 6))
  {
    Serialize.HeaderWellFormed();
    var fs, ms := Serialize.HEADER_FIELDS, h.members;
    forall i | 0 <= i < 5 ensures Serialize.Word(h, i).Some? && ms[i] == Prim(LE32(Serialize.Word(h, i).value)) {
      assert fs[i].body == AliasOf(TD_U32) && fs[i].Walked() && Typed(fs[i], ms[i]) && Typed(TD_U32, ms[i]);
      LowestFirst(ms[i].raw);
    }
    forall i | 5 <= i < 7 ensures ms[i] == MaidVal(Serialize.MaidAt(h, i)) {
      assert fs[i].body == AliasOf(TD_MAID) && fs[i].Walked() && Typed(fs[i], ms[i]) && Typed(TD_MAID, ms[i]);
      MaidMembers(ms[i]);
    }
  }

  lemma MaidMembers(v: Val)
    requires Typed(TD_MAID, v)
    ensures v.Rec? && |v.members| == 2 && Serialize.Word(v, 0).Some? && Serialize.Word(v, 1).Some?
    ensures v == MaidVal(Maid(Serialize.Word(v, 0).value, Serialize.Word(v, 1).value))
  {
    var fs := TD_MAID.body.fields;
    assert fs[0].Walked() && fs[1].Walked() && Typed(fs[0], v.members[0]) && Typed(fs[1], v.members[1]);
    assert Typed(TD_U32, v.members[0]) && Typed(TD_U32, v.members[1]);
    LowestFirst(v.members[0].raw);
    LowestFirst(v.members[1].raw);
  }

  lemma UsablePasses(t: Serialize.AssetType, blob: bytes, parent: Option<Val>, h: Val, own: Maid, up: Maid)
    requires HeaderNaming(t, h, own, up) && StartsAs(Serialize.TD_HEADER, h, blob)
    requires !up.IsValid() || (up.kind == own.kind && parent.Some?)
    ensures HeaderPasses(t, blob, parent)
  {
    var b := Emit(Serialize.TD_HEADER, h, Off).value;
    var rest := blob[|b|..];
    assert blob == b + rest;
    assert h.members[0] == h.members[..4][0] && h.members[1] == h.members[..4][1];
    SerializeLaws.HeaderEmitStarts(h, Off, rest);
    Serialize.HeaderWellFormed();
    DefaultTyped(Serialize.TD_HEADER);
    BinaryLaws.DecodeEmit(Serialize.TD_HEADER, Default(Serialize.TD_HEADER), h, Off, rest);
    SerializeLaws.MergeHeader(h, Off);
    var r := Serialize.HeaderIn(blob).value;
    FrontPasses(t, h, r, own, up);
  }

  /** A header whose first members are these passes the checks. */
  lemma FrontPasses(t: Serialize.AssetType, h: Val, r: Val, own: Maid, up: Maid)
    requires HeaderNaming(t, h, own, up) && r.Rec? && |r.members| == 8 && r.members[..7] == h.members[..7]
    ensures Serialize.Validate(t, r) == Serialize.SER_SUCCESS && Serialize.MaidAt(r, 5) == own && Serialize.MaidAt(r, 6) == up
  {
    var w := [Serialize.MAGIC, Serialize.FORMAT_VERSION, t.version, t.nameHash];
    forall i | 0 <= i < 4 ensures r.members[i] == Prim(LE32(w[i])) {
      assert r.members[i] == r.members[..7][i] == h.members[..7][i] == h.members[..4][i];
    }
    Serialize.ValidateExact(t, r, w);
    assert r.members[5] == r.members[..7][5] == h.members[..7][5] && r.members[6] == r.members[..7][6] == h.members[..7][6];
    Serialize.HeaderReads(r, 5, 0, own);
    Serialize.HeaderReads(r, 6, 0, up);
  }
}
