/**
 The chunker's text mode: a current place in a JSON tree and a stack of the places around it, and the walk of
 `ChunkWithTypeDescriptor` that drives it.
 */
module TextWalk {

  import opened Common
  import opened Bytes
  import opened Reflection
  import opened TextFormat
  import B = BinaryFormat
  import C = Chunker
  import W = BinaryWalk

  const STACK_SIZE := 128

  /** An enclosing place and the way into it. */
  datatype Place = InField(fields: Fields, key: string) | InElement(items: seq<Json>, index: nat)

  /** A snapshot: what contracts compare. */
  datatype State = State(pass: C.Pass, current: Json, stack: seq<Place>)

  class TextChunker {
    var pass: C.Pass
    var current: Json
    var stack: seq<Place>
    var trapped: bool        // the assertion that the stack has room has failed, which stops the process

    ghost function Snap(): State
      reads this
    {
      State(pass, current, stack)
    }

    constructor (pass: C.Pass, root: Json)
      ensures Snap() == State(pass, root, []) && !trapped
    {
      this.pass, current, stack, trapped := pass, root, [], false;
    }

    method BeginObject() returns (ok: bool)
      requires pass != C.Verify
      modifies this`current
      ensures pass != C.Read ==> ok && current == Object(map[])
      ensures pass == C.Read ==> current == old(current) && (ok <==> current.Object?)
    {
      if pass != C.Read {
        current := Object(map[]);
        return true;
      }
      ok := current.Object?;
    }

    method Field(name: string) returns (ok: bool)
      requires current.Object? && !trapped
      modifies this`current, this`stack, this`trapped
      ensures trapped <==> (pass != C.Read || name in old(current).fields) && |old(stack)| >= STACK_SIZE
      ensures ok <==> (pass != C.Read || name in old(current).fields) && !trapped
      ensures ok ==> current == Lookup(old(current).fields, name) && stack == old(stack) + [InField(old(current).fields, name)]
      ensures !ok ==> Snap() == old(Snap())
    {
      if pass == C.Read && name !in current.fields { return false; }
      trapped := |stack| >= STACK_SIZE;
      if trapped { return false; }
      stack := stack + [InField(current.fields, name)];
      current := Lookup(current.fields, name);
      ok := true;
    }

    method EndField()
      requires stack != [] && stack[|stack| - 1].InField?
      modifies this`current, this`stack
      ensures var top := old(stack)[|old(stack)| - 1];
              stack == old(stack)[..|old(stack)| - 1] && current == Object(top.fields[top.key := old(current)])
    {
      var top := stack[|stack| - 1];
      stack := stack[..|stack| - 1];
      current := Object(top.fields[top.key := current]);
    }

    method BeginArray(count: nat) returns (ok: bool, n: nat)
      requires pass != C.Verify
      modifies this`current
      ensures pass != C.Read ==> ok && n == count && current == List([])
      ensures pass == C.Read ==> current == old(current) && (ok <==> current.List?) && (ok ==> n == |current.items| % TWO_32)
    {
      if pass != C.Read {
        current := List([]);
        return true, count;
      }
      if !current.List? { return false, count; }
      ok, n := true, |current.items| % TWO_32;
    }

    method Element(index: nat) returns (ok: bool)
      requires current.List? && index <= |current.items| && !trapped
      modifies this`current, this`stack, this`trapped
      ensures trapped <==> (pass != C.Read || index < |old(current).items|) && |old(stack)| >= STACK_SIZE
      ensures ok <==> (pass != C.Read || index < |old(current).items|) && !trapped
      ensures ok ==>
                && current == (if index < |old(current).items| then old(current).items[index] else Null)
                && stack == old(stack) + [InElement(old(current).items, index)]
      ensures !ok ==> Snap() == old(Snap())
    {
      if pass == C.Read && index >= |current.items| { return false; }
      trapped := |stack| >= STACK_SIZE;
      if trapped { return false; }
      stack := stack + [InElement(current.items, index)];
      current := if index < |current.items| then current.items[index] else Null;
      ok := true;
    }

    method EndElement()
      requires stack != [] && stack[|stack| - 1].InElement? && stack[|stack| - 1].index <= |stack[|stack| - 1].items|
      modifies this`current, this`stack
      ensures var top := old(stack)[|old(stack)| - 1];
              && stack == old(stack)[..|old(stack)| - 1]
              && current == List(Placed(top.items, top.index, old(current)))
    {
      var top := stack[|stack| - 1];
      stack := stack[..|stack| - 1];
      current := List(Placed(top.items, top.index, current));
    }
  }

  /** Assigning to an element, the one after the last included. */
  function Placed(items: seq<Json>, index: nat, j: Json): seq<Json>
    requires index <= |items|
  {
    if index < |items| then items[index := j] else items + [j]
  }

  // ---------------------------------------------------------------- the walk

  /** How deep the walk of a type pushes. */
  function Depth(d: TypeDesc): nat
    decreases d, 0
  {
    match d.body
    case AssetReference => 1
    case DynArray(e) => 1 + Depth(e)
    case ConstantArray(e, _) => 1 + Depth(e)
    case AliasOf(t) => Depth(t)
    case Struct(fs, _) => 1 + MaxDepth(fs)
    case _ => 0
  }

  function MaxDepth(fs: seq<TypeDesc>): (n: nat)
    ensures forall i | 0 <= i < |fs| :: Depth(fs[i]) <= n
    decreases fs, 0
  {
    if fs == [] then 0
    else
      var last, front := Depth(fs[|fs| - 1]), MaxDepth(fs[..|fs| - 1]);
      assert forall i | 0 <= i < |fs| - 1 :: fs[i] == fs[..|fs| - 1][i];
      if last > front then last else front
  }

  /** Only a type nested deeper than what is left of the stack can stop the process, and then nothing is returned. */
  ghost predicate Fits(trapped: bool, s: State, depth: nat, ok: bool) { trapped ==> !ok && |s.stack| + depth > STACK_SIZE }

  /** The asset ids that a pass which writes has collected; a reader collects none. */
  ghost predicate Gathered(ms: seq<Maid>, s: State, before: B.Deps, after: B.Deps, ok: bool) {
    s.pass != C.Read && ok ==> after == B.AddAll(before, ms)
  }

  lemma {:induction false} AssetsSnoc(e: TypeDesc, vs: seq<Val>)
    requires vs != []
    ensures B.AssetsOfAll(e, vs) == B.AssetsOfAll(e, vs[..|vs| - 1]) + B.Assets(e, vs[|vs| - 1])
    decreases |vs|
  {
    if |vs| > 1 {
      AssetsSnoc(e, vs[1..]);
      assert vs[1..][..|vs| - 2] == vs[..|vs| - 1][1..];
    }
  }

  lemma {:induction false} MemberAssetsSnoc(fs: seq<TypeDesc>, vs: seq<Val>)
    requires |fs| == |vs| > 0
    ensures var n := |fs| - 1;
            B.AssetsOfMembers(fs, vs) == B.AssetsOfMembers(fs[..n], vs[..n]) + (if fs[n].Walked() then B.Assets(fs[n], vs[n]) else [])
    decreases |fs|
  {
    if |fs| > 1 {
      MemberAssetsSnoc(fs[1..], vs[1..]);
      assert fs[1..][..|fs| - 2] == fs[..|fs| - 1][1..] && vs[1..][..|vs| - 2] == vs[..|vs| - 1][1..];
    }
  }

  /** A pass that writes leaves what `Emit` says. */
  ghost predicate Wrote<T>(emitted: Option<Json>, s: State, t: State, ok: bool, data: T, out: T) {
    t.stack == s.stack && t.pass == s.pass && (ok <==> emitted.Some?) && (ok ==> t.current == emitted.value && out == data)
  }

  /** A pass that reads gives what `Decode` says, or fails by returning false or by leaving Read mode. */
  ghost predicate Gave<T>(decoded: Option<T>, s: State, t: State, ok: bool, out: T) {
    t.stack == s.stack && (t.pass == C.Read || t.pass == C.Measure)
    && match decoded
       case Some(v) => ok && t.pass == C.Read && t.current == s.current && out == v
       case None => !ok || t.pass == C.Measure
  }

  ghost predicate Walked(d: TypeDesc, data: Val, reset: bool, s: State, t: State, ok: bool, out: Val) {
    if s.pass == C.Read then Gave(Decode(d, data, s.current, reset), s, t, ok, out)
    else Wrote(Emit(d, data, s.current), s, t, ok, data, out)
  }

  method Walk(d: TypeDesc, data: Val, ch: TextChunker, reset: bool, deps: W.DependencyList?) returns (ok: bool, out: Val)
    requires ch.pass != C.Verify && !ch.trapped
    modifies ch, deps
    ensures Fits(ch.trapped, old(ch.Snap()), Depth(d), ok)
    ensures !ch.trapped ==> Walked(d, data, reset, old(ch.Snap()), ch.Snap(), ok, out)
    ensures Gathered(B.Assets(d, data), old(ch.Snap()), old(W.DepsOf(deps)), W.DepsOf(deps), ok)
    decreases d, 0
  {
    if !d.serializable { return true, data; }
    match d.body {
      case Primitive(n) => ok, out := WalkLeaf(d, data, ch);
      case SizedBuffer => ok, out := WalkLeaf(d, data, ch);
      case String => ok, out := WalkLeaf(d, data, ch);
      case AssetReference => ok, out := WalkAsset(d, data, ch, deps);
      case DynArray(e) => ok, out := WalkDynArray(d, e, data, ch, deps);
      case ConstantArray(e, n) => ok, out := WalkFixedArray(d, e, n, data, ch, reset, deps);
      case AliasOf(t) => ok, out := Walk(t, data, ch, reset, deps);
      case Struct(fs, ds) => ok, out := WalkStruct(d, fs, ds, data, ch, reset, deps);
      case Disallowed => ok, out := false, data;
      case Untyped => ok, out := false, data;
    }
  }

  /** Numbers, buffers and strings. A buffer that is not a string switches to Measure mode. */
  method WalkLeaf(d: TypeDesc, data: Val, ch: TextChunker) returns (ok: bool, out: Val)
    requires d.serializable && (d.body.Primitive? || d.body.SizedBuffer? || d.body.String?) && ch.pass != C.Verify
    modifies ch`pass, ch`current
    ensures forall reset :: Walked(d, data, reset, old(ch.Snap()), ch.Snap(), ok, out)
  {
    out := data;
    if ch.pass != C.Read {
      if d.body.Primitive? && data.Prim? { ch.current := Number(data.raw); return true, data; }
      if d.body.SizedBuffer? && data.Span? { ch.current := Text(data.data); return true, data; }
      if d.body.String? && data.Str? { ch.current := Text(data.text); return true, data; }
      return false, data;
    }
    match d.body {
      case Primitive(n) =>
        ok := ch.current.Number? && |ch.current.raw| == n;
        if ok { out := Prim(ch.current.raw); }
      case SizedBuffer =>
        ok := true;
        if ch.current.Text? { out := Span(ch.current.text); } else { ch.pass := C.Measure; }
      case String =>
        ok := ch.current.Text?;
        if ok { out := Str(ch.current.text); }
    }
  }

  /** `meAssetSerializerFn` and `meAssetDeserializerFn`: only the id goes through the walk. */
  method WalkAsset(d: TypeDesc, data: Val, ch: TextChunker, deps: W.DependencyList?) returns (ok: bool, out: Val)
    requires d.serializable && d.body.AssetReference? && ch.pass != C.Verify && !ch.trapped
    modifies ch, deps
    ensures Fits(ch.trapped, old(ch.Snap()), Depth(d), ok)
    ensures !ch.trapped ==> forall reset :: Walked(d, data, reset, old(ch.Snap()), ch.Snap(), ok, out)
    ensures Gathered(B.Assets(d, data), old(ch.Snap()), old(W.DepsOf(deps)), W.DepsOf(deps), ok)
  {
    out := data;
    if ch.pass != C.Read {
      if !data.Asset? { return false, data; }
      if deps != null { deps.Add(data.ref.id); }
      assert W.DepsOf(deps) == B.AddAll(old(W.DepsOf(deps)), [data.ref.id]) by { assert B.AddAll(W.DepsOf(deps), [data.ref.id][1..]) == W.DepsOf(deps); }
    }
    ok := ch.BeginObject();
    if !ok { return; }
    var m := if ch.pass == C.Read then NO_MAID else data.ref.id;
    var id, kind;
    ok, id := WalkWord("id", m.id, ch);
    if !ok { return; }
    ok, kind := WalkWord("type", m.kind, ch);
    if !ok { return; }
    if ch.pass == C.Read {
      out := Asset(PlainRef(Maid(id, kind)));
    } else {
      assert map["id" := Number(LE32(m.id))]["type" := Number(LE32(m.kind))] == MaidJson(m).fields;
    }
  }

  /** One u32 member of an id. */
  method WalkWord(name: string, word: u32, ch: TextChunker) returns (ok: bool, out: u32)
    requires ch.current.Object? && !ch.trapped && ch.pass != C.Verify
    modifies ch
    ensures Fits(ch.trapped, old(ch.Snap()), 1, ok)
    ensures ch.stack == old(ch.stack) && ch.pass == old(ch.pass)
    ensures ch.pass != C.Read && !ch.trapped ==> ok && out == word && ch.current == Object(old(ch.current).fields[name := Number(LE32(word))])
    ensures ch.pass == C.Read && !ch.trapped ==>
              && ch.current == old(ch.current)
              && (ok <==> name !in ch.current.fields || ReadWord(ch.current.fields, name).Some?)
              && (ok ==> out == if name in ch.current.fields then ReadWord(ch.current.fields, name).value else word)
  {
    ghost var m := ch.current.fields;
    out := word;
    var present := ch.Field(name);
    if !present { return !ch.trapped, word; }
    if ch.pass == C.Read {
      ok := ch.current.Number? && |ch.current.raw| == 4;
      if ok { out := FromLE32(ch.current.raw); }
      assert m[name := ch.current] == m;
    } else {
      ch.current := Number(LE32(word));
      ok := true;
    }
    ch.EndField();
  }

  method WalkStruct(d: TypeDesc, fs: seq<TypeDesc>, ds: seq<Val>, data: Val, ch: TextChunker, reset: bool, deps: W.DependencyList?)
    returns (ok: bool, out: Val)
    requires d.serializable && d.body == Struct(fs, ds) && ch.pass != C.Verify && !ch.trapped
    modifies ch, deps
    ensures Fits(ch.trapped, old(ch.Snap()), Depth(d), ok)
    ensures !ch.trapped ==> Walked(d, data, reset, old(ch.Snap()), ch.Snap(), ok, out)
    ensures Gathered(B.Assets(d, data), old(ch.Snap()), old(W.DepsOf(deps)), W.DepsOf(deps), ok)
    decreases d, -1
  {
    out := data;
    if !(data.Rec? && |data.members| == |fs| && fs != []) { return false, data; }
    ok := ch.BeginObject();
    if !ok { return; }
    var outs;
    ok, outs := WalkMembers(fs, data.members, ch, reset, deps);
    out := Rec(outs);
  }

  /** What a walk over the members does, in either direction. */
  ghost predicate MembersWalked(fs: seq<TypeDesc>, data: seq<Val>, reset: bool, m: Fields, s: State, t: State, ok: bool, outs: seq<Val>)
    requires |fs| == |data|
  {
    if s.pass == C.Read then Gave(DecodeMembers(fs, data, m, reset), s, t, ok, outs)
    else Wrote(AsObject(EmitMembers(fs, data, m)), s, t, ok, data, outs)
  }

  function AsObject(m: Option<Fields>): Option<Json> { if m.Some? then Some(Object(m.value)) else None }

  method WalkMembers(fs: seq<TypeDesc>, data: seq<Val>, ch: TextChunker, reset: bool, deps: W.DependencyList?) returns (ok: bool, outs: seq<Val>)
    requires |fs| == |data| && ch.current.Object? && ch.pass != C.Verify && !ch.trapped
    modifies ch, deps
    ensures Fits(ch.trapped, old(ch.Snap()), 1 + MaxDepth(fs), ok)
    ensures Gathered(B.AssetsOfMembers(fs, data), old(ch.Snap()), old(W.DepsOf(deps)), W.DepsOf(deps), ok)
    ensures !ch.trapped ==> MembersWalked(fs, data, reset, old(ch.current).fields, old(ch.Snap()), ch.Snap(), ok, outs)
    decreases fs, 0
  {
    ghost var s, deps0 := ch.Snap(), W.DepsOf(deps);
    ghost var m := s.current.fields;
    outs := [];
    for i := 0 to |fs|
      invariant Gathered(B.AssetsOfMembers(fs[..i], data[..i]), s, deps0, W.DepsOf(deps), true)
      invariant |outs| == i && ch.stack == s.stack && ch.current.Object? && !ch.trapped
      invariant MembersSoFar(fs[..i], data[..i], reset, m, s, ch.Snap(), outs)
    {
      ghost var before, outs0, deps1 := ch.Snap(), outs, W.DepsOf(deps);
      assert fs[..i + 1][..i] == fs[..i] && data[..i + 1][..i] == data[..i];
      ok, outs := WalkOne(fs[i], data[i], ch, reset, outs, deps);
      if ch.trapped { return; }
      MemberAssetsSnoc(fs[..i + 1], data[..i + 1]);
      B.AddAllConcat(deps0, B.AssetsOfMembers(fs[..i], data[..i]), if fs[i].Walked() then B.Assets(fs[i], data[i]) else []);
      MembersStep(fs[..i + 1], data[..i + 1], reset, m, s, before, ch.Snap(), outs0, ok, outs);
      if !ok {
        MembersFail(fs, data, i + 1, reset, m, s.pass == C.Read);
        return;
      }
    }
    assert fs[..|fs|] == fs && data[..|fs|] == data;
    ok := true;
  }

  /** The loop's state after some members. */
  ghost predicate MembersSoFar(fs: seq<TypeDesc>, data: seq<Val>, reset: bool, m: Fields, s: State, t: State, outs: seq<Val>)
    requires |fs| == |data|
  {
    && t.stack == s.stack
    && if s.pass == C.Read
       then if t.pass == C.Read then t.current == s.current == Object(m) && DecodeMembers(fs, data, m, reset) == Some(outs)
            else t.pass == C.Measure && DecodeMembers(fs, data, m, reset).None?
       else t.pass == s.pass && outs == data && AsObject(EmitMembers(fs, data, m)) == Some(t.current)
  }

  /** One member: skipped when it is not visited or its key is missing, otherwise walked at its key. */
  ghost predicate OneWalked(f: TypeDesc, x: Val, reset: bool, s: State, t: State, ok: bool, out: Val)
    requires s.current.Object?
  {
    && t.stack == s.stack && (ok ==> t.current.Object?)
    && if s.pass == C.Read then Gave(DecodeMember(f, x, s.current.fields, reset), s, t, ok, out)
       else
         var here := Lookup(s.current.fields, f.name);
         t.pass == s.pass &&
         if !f.Walked() then ok && t.current == s.current && out == x
         else
           && (ok <==> Emit(f, x, here).Some?)
           && (ok ==> out == x && t.current == Object(s.current.fields[f.name := Emit(f, x, here).value]))
  }

  method WalkOne(f: TypeDesc, x: Val, ch: TextChunker, reset: bool, outs0: seq<Val>, deps: W.DependencyList?) returns (ok: bool, outs: seq<Val>)
    requires ch.current.Object? && ch.pass != C.Verify && !ch.trapped
    modifies ch, deps
    ensures Fits(ch.trapped, old(ch.Snap()), 1 + Depth(f), ok)
    ensures Gathered(if f.Walked() then B.Assets(f, x) else [], old(ch.Snap()), old(W.DepsOf(deps)), W.DepsOf(deps), ok)
    ensures |outs| == |outs0| + 1 && outs[..|outs0|] == outs0
    ensures !ch.trapped ==> OneWalked(f, x, reset, old(ch.Snap()), ch.Snap(), ok, outs[|outs0|])
    decreases f, 1
  {
    ok, outs := true, outs0 + [x];
    if !f.Walked() { return; }
    ghost var m := ch.current.fields;
    var present := ch.Field(f.name);
    if !present { return !ch.trapped, outs; }
    ghost var below := ch.stack;
    var base := if reset && ch.pass == C.Read then Default(f) else x;
    var out;
    ok, out := Walk(f, base, ch, false, deps);
    outs := outs0 + [out];
    if ch.trapped { return; }
    assert ch.stack == below;
    if f.name in m { assert m[f.name := m[f.name]] == m; }
    ch.EndField();
  }

  lemma MembersStep(fs: seq<TypeDesc>, data: seq<Val>, reset: bool, m: Fields, s: State, t: State, u: State, outs0: seq<Val>, ok: bool, outs: seq<Val>)
    requires |fs| == |data| > 0 && s.pass != C.Verify && s.current == Object(m) && t.current.Object?
    requires MembersSoFar(fs[..|fs| - 1], data[..|fs| - 1], reset, m, s, t, outs0)
    requires |outs| == |outs0| + 1 == |fs| && outs[..|outs0|] == outs0
    requires OneWalked(fs[|fs| - 1], data[|fs| - 1], reset, t, u, ok, outs[|outs0|])
    ensures ok ==> u.current.Object? && MembersSoFar(fs, data, reset, m, s, u, outs)
    ensures !ok ==> u.stack == s.stack
    ensures !ok ==> if s.pass == C.Read then DecodeMembers(fs, data, m, reset).None? && (u.pass == C.Read || u.pass == C.Measure)
                    else u.pass == s.pass && EmitMembers(fs, data, m).None?
  {
    var n := |fs| - 1;
    assert outs == outs0 + [outs[n]];
    assert data == data[..n] + [data[n]];
  }

  /** A failed prefix fails the whole. */
  lemma {:induction false} MembersFail(fs: seq<TypeDesc>, data: seq<Val>, i: nat, reset: bool, m: Fields, reading: bool)
    requires |fs| == |data| && i <= |fs|
    requires if reading then DecodeMembers(fs[..i], data[..i], m, reset).None? else EmitMembers(fs[..i], data[..i], m).None?
    ensures if reading then DecodeMembers(fs, data, m, reset).None? else EmitMembers(fs, data, m).None?
    decreases |fs|
  {
    var n := |fs| - 1;
    if i < |fs| {
      assert fs[..n][..i] == fs[..i] && data[..n][..i] == data[..i];
      MembersFail(fs[..n], data[..n], i, reset, m, reading);
    } else {
      assert fs[..i] == fs && data[..i] == data;
    }
  }

  // ---------------------------------------------------------------- arrays

  method WalkDynArray(d: TypeDesc, e: TypeDesc, data: Val, ch: TextChunker, deps: W.DependencyList?) returns (ok: bool, out: Val)
    requires d.serializable && d.body == DynArray(e) && ch.pass != C.Verify && !ch.trapped
    modifies ch, deps
    ensures Fits(ch.trapped, old(ch.Snap()), Depth(d), ok)
    ensures Gathered(B.Assets(d, data), old(ch.Snap()), old(W.DepsOf(deps)), W.DepsOf(deps), ok)
    ensures !ch.trapped ==> forall reset :: Walked(d, data, reset, old(ch.Snap()), ch.Snap(), ok, out)
    decreases d, -1
  {
    out := data;
    if ch.pass != C.Read && !(data.Arr? && |data.elems| < TWO_32) { return false, data; }
    var count;
    ok, count := ch.BeginArray(if data.Arr? then |data.elems| else 0);
    if !ok { return; }
    var elems := if ch.pass == C.Read then Repeat(Default(e), count) else data.elems;
    ghost var s := ch.Snap();
    var outs;
    ok, outs := WalkElements(e, elems, ch, false, deps);
    out := Arr(outs);
    if ch.trapped { return; }
    ArrayWalked(e, elems, false, s, ch.Snap(), ok, outs);
  }

  /** From the elements to the array. */
  lemma ArrayWalked(e: TypeDesc, data: seq<Val>, reset: bool, s: State, t: State, ok: bool, outs: seq<Val>)
    requires s.current.List? && (s.pass == C.Read ==> |data| <= |s.current.items|) && ElementsWalked(e, data, reset, s, t, ok, outs)
    ensures if s.pass == C.Read then Gave(DecodeList(e, data, s.current.items[..|data|], reset), s, t, ok, Arr(outs))
            else Wrote(EmitList(e, data), s, t, ok, Arr(data), Arr(outs))
  {
  }

  method WalkFixedArray(d: TypeDesc, e: TypeDesc, n: nat, data: Val, ch: TextChunker, reset: bool, deps: W.DependencyList?)
    returns (ok: bool, out: Val)
    requires d.serializable && d.body == ConstantArray(e, n) && ch.pass != C.Verify && !ch.trapped
    modifies ch, deps
    ensures Fits(ch.trapped, old(ch.Snap()), Depth(d), ok)
    ensures Gathered(B.Assets(d, data), old(ch.Snap()), old(W.DepsOf(deps)), W.DepsOf(deps), ok)
    ensures !ch.trapped ==> Walked(d, data, reset, old(ch.Snap()), ch.Snap(), ok, out)
    decreases d, -1
  {
    out := data;
    if !data.Arr? || (if ch.pass == C.Read then |data.elems| != n else |data.elems| >= TWO_32) { return false, data; }
    var count;
    ok, count := ch.BeginArray(n);
    if !ok { return; }
    if count != n { return false, data; }
    ghost var s := ch.Snap();
    var outs;
    ok, outs := WalkElements(e, data.elems, ch, reset, deps);
    out := Arr(outs);
    if ch.trapped { return; }
    ArrayWalked(e, data.elems, reset, s, ch.Snap(), ok, outs);
  }

  ghost predicate ElementsWalked(e: TypeDesc, data: seq<Val>, reset: bool, s: State, t: State, ok: bool, outs: seq<Val>)
    requires s.current.List? && (s.pass == C.Read ==> |data| <= |s.current.items|)
  {
    if s.pass == C.Read then Gave(DecodeAll(e, data, s.current.items[..|data|], reset), s, t, ok, outs)
    else Wrote(EmitList(e, data), s, t, ok, data, outs)
  }

  /** The loop's state after some elements. */
  ghost predicate ElementsSoFar(e: TypeDesc, data: seq<Val>, total: nat, reset: bool, s: State, t: State, outs: seq<Val>)
    requires s.current.List? && (s.pass == C.Read ==> |data| <= |s.current.items|)
  {
    && t.stack == s.stack && t.current.List?
    && if s.pass == C.Read
       then if t.pass == C.Read then t.current == s.current && DecodeAll(e, data, s.current.items[..|data|], reset) == Some(outs)
            else t.pass == C.Measure && |t.current.items| >= total && DecodeAll(e, data, s.current.items[..|data|], reset).None?
       else t.pass == s.pass && outs == data && EmitAll(e, data) == Some(t.current.items)
  }

  method WalkElements(e: TypeDesc, data: seq<Val>, ch: TextChunker, reset: bool, deps: W.DependencyList?) returns (ok: bool, outs: seq<Val>)
    requires ch.current.List? && ch.pass != C.Verify && !ch.trapped
    requires if ch.pass == C.Read then |data| <= |ch.current.items| else ch.current.items == []
    modifies ch, deps
    ensures Gathered(B.AssetsOfAll(e, data), old(ch.Snap()), old(W.DepsOf(deps)), W.DepsOf(deps), ok)
    ensures Fits(ch.trapped, old(ch.Snap()), 1 + Depth(e), ok)
    ensures !ch.trapped ==> ElementsWalked(e, data, reset, old(ch.Snap()), ch.Snap(), ok, outs)
    decreases e, 2
  {
    ghost var s, deps0 := ch.Snap(), W.DepsOf(deps);
    outs := [];
    for i := 0 to |data|
      invariant Gathered(B.AssetsOfAll(e, data[..i]), s, deps0, W.DepsOf(deps), true)
      invariant |outs| == i && !ch.trapped && ElementsSoFar(e, data[..i], |data|, reset, s, ch.Snap(), outs)
    {
      ghost var before, outs0 := ch.Snap(), outs;
      ElementsReach(e, data[..i], |data|, reset, s, before, outs);
      ok, outs := WalkElement(e, data[i], ch, reset, i, outs, deps);
      if ch.trapped { return; }
      assert data[..i + 1][..i] == data[..i];
      AssetsSnoc(e, data[..i + 1]);
      B.AddAllConcat(deps0, B.AssetsOfAll(e, data[..i]), B.Assets(e, data[i]));
      ElementsStep(e, data[..i + 1], |data|, reset, s, before, ch.Snap(), outs0, ok, outs);
      if !ok {
        ElementsFail(e, data, i + 1, s.current.items, reset, s.pass == C.Read);
        return;
      }
    }
    assert data[..|data|] == data;
    ok := true;
  }

  lemma ElementsReach(e: TypeDesc, data: seq<Val>, total: nat, reset: bool, s: State, t: State, outs: seq<Val>)
    requires s.current.List? && (s.pass == C.Read ==> total <= |s.current.items|) && |data| < total
    requires ElementsSoFar(e, data, total, reset, s, t, outs)
    ensures |data| <= |t.current.items| && (s.pass == C.Read ==> |data| < |t.current.items|)
  {
  }

  /** One element in place. */
  ghost predicate ElementWalked(e: TypeDesc, x: Val, reset: bool, index: nat, s: State, t: State, ok: bool, out: Val)
    requires s.current.List? && index <= |s.current.items| && (s.pass == C.Read ==> index < |s.current.items|)
  {
    && t.stack == s.stack && (ok ==> t.current.List? && |t.current.items| >= |s.current.items|)
    && if s.pass == C.Read then Gave(Decode(e, x, s.current.items[index], reset), s, t, ok, out)
       else
         var here := if index < |s.current.items| then s.current.items[index] else Null;
         t.pass == s.pass && (ok <==> Emit(e, x, here).Some?)
         && (ok ==> out == x && t.current == List(Placed(s.current.items, index, Emit(e, x, here).value)))
  }

  method WalkElement(e: TypeDesc, x: Val, ch: TextChunker, reset: bool, index: nat, outs0: seq<Val>, deps: W.DependencyList?)
    returns (ok: bool, outs: seq<Val>)
    requires ch.current.List? && ch.pass != C.Verify && !ch.trapped
    requires index <= |ch.current.items| && (ch.pass == C.Read ==> index < |ch.current.items|)
    modifies ch, deps
    ensures Gathered(B.Assets(e, x), old(ch.Snap()), old(W.DepsOf(deps)), W.DepsOf(deps), ok)
    ensures |outs| == |outs0| + 1 && outs[..|outs0|] == outs0
    ensures Fits(ch.trapped, old(ch.Snap()), 1 + Depth(e), ok)
    ensures !ch.trapped ==> ElementWalked(e, x, reset, index, old(ch.Snap()), ch.Snap(), ok, outs[|outs0|])
    decreases e, 1
  {
    ghost var items := ch.current.items;
    ok := ch.Element(index);
    if ch.trapped { return false, outs0 + [x]; }
    var out;
    ok, out := Walk(e, x, ch, reset, deps);
    outs := outs0 + [out];
    if ch.trapped { return; }
    if index < |items| { assert items[index := items[index]] == items; }
    ch.EndElement();
  }

  lemma ElementsStep(e: TypeDesc, data: seq<Val>, total: nat, reset: bool, s: State, t: State, u: State, outs0: seq<Val>, ok: bool, outs: seq<Val>)
    requires data != [] && s.pass != C.Verify && s.current.List? && (s.pass == C.Read ==> |data| <= total <= |s.current.items|)
    requires ElementsSoFar(e, data[..|data| - 1], total, reset, s, t, outs0)
    requires |data| - 1 <= |t.current.items| && (t.pass == C.Read ==> |data| - 1 < |t.current.items|)
    requires |outs| == |outs0| + 1 == |data| && outs[..|outs0|] == outs0
    requires s.pass != C.Read ==> |t.current.items| == |data| - 1
    requires ElementWalked(e, data[|data| - 1], reset, |data| - 1, t, u, ok, outs[|outs0|])
    ensures ok ==> ElementsSoFar(e, data, total, reset, s, u, outs)
    ensures !ok ==> u.stack == s.stack
    ensures !ok ==> if s.pass == C.Read then DecodeAll(e, data, s.current.items[..|data|], reset).None? && (u.pass == C.Read || u.pass == C.Measure)
                    else u.pass == s.pass && EmitAll(e, data).None?
  {
    var n := |data| - 1;
    assert outs == outs0 + [outs[n]];
    assert data == data[..n] + [data[n]];
    if s.pass == C.Read {
      assert s.current.items[..n + 1][..n] == s.current.items[..n];
    }
  }

  /** A failed prefix fails the whole. */
  lemma {:induction false} ElementsFail(e: TypeDesc, data: seq<Val>, i: nat, items: seq<Json>, reset: bool, reading: bool)
    requires i <= |data| && (reading ==> |data| <= |items|)
    requires if reading then DecodeAll(e, data[..i], items[..i], reset).None? else EmitAll(e, data[..i]).None?
    ensures if reading then DecodeAll(e, data, items[..|data|], reset).None? else EmitAll(e, data).None?
    decreases |data|
  {
    var n := |data| - 1;
    if i < |data| {
      assert data[..n][..i] == data[..i];
      ElementsFail(e, data[..n], i, items, reset, reading);
      if reading { assert items[..|data|][..n] == items[..n]; }
    } else {
      assert data[..i] == data;
    }
  }
}
