/**
 The recursive walk of `ChunkWithTypeDescriptor` in binary mode: one code path for every
 pass, driving a mutable chunker and a mutable dependency list.
 `Walk`'s contract is the specification in BinaryFormat, for every pass at once.
 */
module BinaryWalk {
  import opened Common
  import opened Bytes
  import opened Reflection
  import opened BinaryFormat
  import opened BinaryLaws
  import opened C = Chunker

  /** The growing list the header's `dependencies` member refers to. */
  class DependencyList {
    var items: seq<Maid>

    constructor (items: seq<Maid>)
      ensures this.items == items
    {
      this.items := items;
    }

    /** `AddAssetDependency`: a linear search, then a push. */
    method Add(m: Maid)
      modifies this
      ensures On(items) == AddDep(On(old(items)), m)
    {
      if !m.IsValid() {
        return;
      }
      for i := 0 to |items|
        invariant items == old(items)
        invariant m !in items[..i]
      {
        if items[i] == m {
          return;
        }
      }
      items := items + [m];
    }
  }

  ghost function DepsOf(deps: DependencyList?): Deps
    reads deps
  {
    if deps == null then Off else On(deps.items)
  }

  /** What every walk keeps, whatever it returns: Measure is never left and only Write changes bytes. */
  ghost predicate Steady(s: State, s': State) {
    && s'.Valid() && |s'.mem| == |s.mem|
    && (s'.pass == s.pass || s'.pass == Measure)
    && (s.pass != Write ==> s'.mem == s.mem)
  }

  /** The outcome of a walk that was not reading. */
  ghost predicate Sent(emitted: Option<bytes>, s: State, s': State, ok: bool) {
    match emitted
    case None => !ok
    case Some(b) => ok && Pushed(s, b, s')
  }

  /** The outcome of a walk that started in Read mode. */
  ghost predicate Received<T>(r: Reading<T>, s: State, s': State, ok: bool, out: T) {
    && s'.mem == s.mem
    && match r
       case Got(v, rest) => ok && out == v && Pulled(s, rest, s')
       case Overrun => s'.pass == Measure
       case Refused => !ok
  }

  function PrependAll(done: seq<Val>, r: Reading<seq<Val>>): Reading<seq<Val>> {
    match r
    case Got(vs, rest) => Got(done + vs, rest)
    case Overrun => Overrun
    case Refused => Refused
  }

  lemma PrependOne(outs: seq<Val>, i: nat, out: Val, r: Reading<seq<Val>>)
    requires i < |outs|
    ensures PrependAll(outs[..i], Prepend(out, r)) == PrependAll(outs[i := out][..i + 1], r)
  {
    assert outs[i := out][..i + 1] == outs[..i] + [out];
    if r.Got? { assert outs[..i] + ([out] + r.value) == outs[..i] + [out] + r.value; }
  }

  lemma JoinAssoc(a: bytes, b: bytes, c: Option<bytes>)
    ensures Join(Some(a), Join(Some(b), c)) == Join(Some(a + b), c)
  {
    if c.Some? { assert a + (b + c.value) == a + b + c.value; }
  }

  /** The whole contract of a walk over one value. */
  ghost predicate Done(d: TypeDesc, data: Val, deps: Deps, deps': Deps, s: State, s': State, ok: bool, out: Val) {
    && Steady(s, s') && Typed(d, out)
    && (s.pass != Read ==>
          && out == data && Sent(Emit(d, data, deps), s, s', ok)
          && (ok ==> deps' == AddAll(deps, Assets(d, data))))
    && (s.pass == Read ==> s.cursor <= |s.mem| && Received(Decode(d, data, s.Unread()), s, s', ok, out))
  }

  lemma JoinNothing(e: Option<bytes>, r: Reading<seq<Val>>)
    ensures Join(Some([]), e) == e && PrependAll([], r) == r
  {
    if e.Some? { assert [] + e.value == e.value; }
    if r.Got? { assert [] + r.value == r.value; }
  }

  /** The elements an array value holds at this moment. */
  method CurrentElems(v: Val, deps: DependencyList?, ghost d: TypeDesc) returns (vs: seq<Val>)
    requires d.body.DynArray? && Typed(d, v)
    ensures AllTyped(d.body.elem, vs)
    ensures ElemsOf(v, DepsOf(deps)).Some? ==> vs == ElemsOf(v, DepsOf(deps)).value
    ensures |vs| < TWO_32 ==> ElemsOf(v, DepsOf(deps)).Some? || (v.Live? && deps == null)
  {
    if v.Arr? {
      vs := v.elems;
    } else if deps == null {
      vs := [];
    } else {
      vs := MaidVals(deps.items);
      forall i | 0 <= i < |vs| ensures Typed(TD_MAID, vs[i]) { MaidTyped(deps.items[i]); }
    }
  }

  method Walk(d: TypeDesc, ch: Chunker, data: Val, deps: DependencyList?) returns (ok: bool, out: Val)
    requires WellFormed(d) && Typed(d, data)
    requires ch.Snap().Valid() && (ch.pass == Read ==> deps == null)
    modifies ch, ch.buf, deps
    ensures Done(d, data, old(DepsOf(deps)), DepsOf(deps), old(ch.Snap()), ch.Snap(), ok, out)
    decreases d, 2
  {
    ok, out := true, data;
    if !d.serializable {
      PushedNothing(ch.Snap());
      return;
    }
    match d.body {
      case DynArray(_) => ok, out := WalkDynArray(d, ch, data, deps);
      case ConstantArray(e, n) =>
        var elems;
        ok, elems := WalkAll(e, ch, data.elems, deps);
        out := Arr(elems);
      case AliasOf(t) => ok, out := Walk(t, ch, data, deps);
      case Struct(fs, _) =>
        if fs == [] {
          return false, data;
        }
        var members;
        ok, members := WalkMembers(fs, ch, data.members, deps);
        out := Rec(members);
      case AssetReference => ok, out := WalkAsset(d, ch, data, deps);
      case _ => ok, out := WalkLeaf(d, ch, data, deps);
    }
  }

  /** `primitiveSerializer`, `sizedBufferSerializer`, `stringSerializer` and their readers. */
  method WalkLeaf(d: TypeDesc, ch: Chunker, data: Val, deps: DependencyList?) returns (ok: bool, out: Val)
    requires d.serializable && Typed(d, data)
    requires !d.body.DynArray? && !d.body.ConstantArray? && !d.body.AliasOf? && !d.body.Struct? && !d.body.AssetReference?
    requires ch.Snap().Valid() && (ch.pass == Read ==> deps == null)
    modifies ch, ch.buf
    ensures Done(d, data, old(DepsOf(deps)), DepsOf(deps), old(ch.Snap()), ch.Snap(), ok, out)
  {
    ok, out := true, data;
    match d.body {
      case Primitive(n) =>
        var raw := ch.DoBinaryVoid(data.raw);
        out := Prim(raw);
      case SizedBuffer =>
        var buffer := ch.DoSized(data.data);
        out := Span(buffer);
      case String =>
        var text := ch.DoSized(data.text);
        out := Str(text);
      case _ => ok := false;
    }
  }

  /** `meAssetSerializerFn` and `meAssetDeserializerFn`. */
  method WalkAsset(d: TypeDesc, ch: Chunker, data: Val, deps: DependencyList?) returns (ok: bool, out: Val)
    requires d.serializable && d.body.AssetReference? && Typed(d, data)
    requires ch.Snap().Valid() && (ch.pass == Read ==> deps == null)
    modifies ch, ch.buf, deps
    ensures Done(d, data, old(DepsOf(deps)), DepsOf(deps), old(ch.Snap()), ch.Snap(), ok, out)
  {
    var reading := ch.pass == Read;
    var m := if reading then NO_MAID else data.ref.id;
    if !reading && deps != null {
      deps.Add(m);
    }
    var id := WalkMaid(ch, m);
    ok := true;
    out := if reading then Asset(PlainRef(id)) else data;
    assert [m][1..] == [];
  }

  /** The two words of an asset id. */
  method WalkMaid(ch: Chunker, m: Maid) returns (out: Maid)
    requires ch.Snap().Valid()
    modifies ch, ch.buf
    ensures Steady(old(ch.Snap()), ch.Snap())
    ensures old(ch.pass) != Read ==> out == m && Pushed(old(ch.Snap()), LE32(m.id) + LE32(m.kind), ch.Snap())
    ensures old(ch.pass) == Read ==>
              match ReadMaid(old(ch.Snap()).Unread())
              case Got(id, rest) => out == id && Pulled(old(ch.Snap()), rest, ch.Snap())
              case _ => ch.pass == Measure
  {
    ghost var s := ch.Snap();
    var id := ch.DoU32(m.id);
    ghost var s1 := ch.Snap();
    var kind := ch.DoU32(m.kind);
    out := Maid(id, kind);
    if s.pass != Read {
      PushedTwice(s, LE32(m.id), s1, LE32(m.kind), ch.Snap());
    }
  }

  /** `ChunkDynArray`: the count, then the elements; a reader starts from fresh default elements. */
  method WalkDynArray(d: TypeDesc, ch: Chunker, data: Val, deps: DependencyList?) returns (ok: bool, out: Val)
    requires d.serializable && d.body.DynArray? && WellFormed(d) && Typed(d, data)
    requires ch.Snap().Valid() && (ch.pass == Read ==> deps == null)
    modifies ch, ch.buf, deps
    ensures Done(d, data, old(DepsOf(deps)), DepsOf(deps), old(ch.Snap()), ch.Snap(), ok, out)
    decreases d, 1
  {
    ghost var s, deps0 := ch.Snap(), DepsOf(deps);
    var reading := ch.pass == Read;
    var elems;
    ok, elems := BeginArray(d, ch, data, deps);
    if !ok {
      return false, data;
    }
    ghost var s1, from := ch.Snap(), elems;
    ok, elems := WalkAll(d.body.elem, ch, elems, deps);
    if reading {
      out := Arr(elems);
      DynArrayReceived(d, data, s, s1, ch.Snap(), ok, from, elems);
    } else {
      out := data;
      DynArraySent(d, data, deps0, DepsOf(deps), s, s1, ch.Snap(), ok, from);
    }
  }

  /** The count goes through the chunker; a reader that got one creates that many default elements. */
  method BeginArray(d: TypeDesc, ch: Chunker, data: Val, deps: DependencyList?) returns (ok: bool, elems: seq<Val>)
    requires d.serializable && d.body.DynArray? && WellFormed(d) && Typed(d, data)
    requires ch.Snap().Valid() && (ch.pass == Read ==> deps == null)
    modifies ch, ch.buf
    ensures Steady(old(ch.Snap()), ch.Snap()) && AllTyped(d.body.elem, elems)
    ensures old(ch.pass) != Read ==>
              if ok then ElemsOf(data, DepsOf(deps)) == Some(elems) && Pushed(old(ch.Snap()), LE32(|elems|), ch.Snap())
              else ElemsOf(data, DepsOf(deps)).None?
    ensures old(ch.pass) == Read ==> ok && ArrayBegun(d.body.elem, old(ch.Snap()), ch.Snap(), elems)
  {
    var elems0 := CurrentElems(data, deps, d);
    if ch.pass != Read && (|elems0| >= TWO_32 || (data.Live? && deps == null)) {
      return false, elems0;
    }
    ghost var s := ch.Snap();
    assert s.pass != Read ==> |elems0| % TWO_32 == |elems0|;
    var count := ch.DoU32(|elems0| % TWO_32);
    ok, elems := true, elems0;
    if ch.pass == Read {
      assert s.pass == Read && s.cursor + 4 <= |s.mem|;
      elems := FreshElems(d.body.elem, count);
    }
  }

  /** The storage of a newly created array. */
  function FreshElems(e: TypeDesc, count: nat): (vs: seq<Val>)
    requires WellFormed(e)
    ensures AllTyped(e, vs)
  {
    DefaultTyped(e);
    var x := Default(e);
    Repeat(x, count)
  }

  ghost predicate ArrayBegun(e: TypeDesc, s: State, s1: State, elems: seq<Val>)
    requires WellFormed(e)
  {
    && s.cursor <= |s.mem| && s1.mem == s.mem
    && if s.cursor + 4 <= |s.mem|
       then elems == FreshElems(e, FromLE32(s.Unread()[..4])) && Pulled(s, s.Unread()[4..], s1)
       else s1.pass == Measure
  }

  lemma DynArrayReceived(d: TypeDesc, data: Val, s: State, s1: State, s2: State, ok: bool, elems: seq<Val>, outs: seq<Val>)
    requires d.serializable && d.body.DynArray? && WellFormed(d) && s2.mem == s.mem && Steady(s1, s2)
    requires ArrayBegun(d.body.elem, s, s1, elems)
    requires s1.pass == Read ==> s1.Valid() && Received(DecodeAll(d.body.elem, elems, s1.Unread()), s1, s2, ok, outs)
    ensures Received(Decode(d, data, s.Unread()), s, s2, ok, Arr(outs))
  {
  }

  /** A count and then the elements is what `Emit` says about a dynamic array. */
  lemma DynArraySent(d: TypeDesc, data: Val, deps: Deps, deps': Deps, s: State, s1: State, s2: State, ok: bool, elems: seq<Val>)
    requires d.serializable && d.body.DynArray? && ElemsOf(data, deps) == Some(elems) && Typed(d, data)
    requires s.Valid() && s1.Valid() && Pushed(s, LE32(|elems|), s1)
    requires Sent(EmitAll(d.body.elem, elems, deps), s1, s2, ok) && s2.Valid()
    requires ok ==> deps' == AddAll(deps, AssetsOfAll(d.body.elem, elems))
    ensures Sent(Emit(d, data, deps), s, s2, ok)
    ensures ok ==> deps' == AddAll(deps, Assets(d, data))
  {
    if ok {
      PushedTwice(s, LE32(|elems|), s1, EmitAll(d.body.elem, elems, deps).value, s2);
    }
    if data.Live? { MaidHasNoAssets(elems); }
  }

  /** The state of a loop over elements that is not reading, after `i` of them. */
  ghost predicate SentSoFar(e: TypeDesc, elems: seq<Val>, i: nat, deps0: Deps, deps: Deps, sent: bytes, s: State, now: State)
    requires i <= |elems|
  {
    && Pushed(s, sent, now)
    && EmitAll(e, elems, deps0) == Join(Some(sent), EmitAll(e, elems[i..], deps))
    && AddAll(deps0, AssetsOfAll(e, elems)) == AddAll(deps, AssetsOfAll(e, elems[i..]))
  }

  lemma SentOneMore(e: TypeDesc, elems: seq<Val>, i: nat, deps0: Deps, deps: Deps, sent: bytes, s: State, now: State, deps': Deps, now': State, ok: bool)
    requires i < |elems| && SentSoFar(e, elems, i, deps0, deps, sent, s, now)
    requires s.Valid() && now.Valid() && Sent(Emit(e, elems[i], deps), now, now', ok) && now'.Valid()
    requires ok ==> deps' == AddAll(deps, Assets(e, elems[i]))
    ensures !ok ==> EmitAll(e, elems, deps0).None?
    ensures ok ==> SentSoFar(e, elems, i + 1, deps0, deps', sent + Emit(e, elems[i], deps).value, s, now')
  {
    assert elems[i..][0] == elems[i] && elems[i..][1..] == elems[i + 1..];
    if ok {
      var b := Emit(e, elems[i], deps).value;
      PushedTwice(s, sent, now, b, now');
      JoinAssoc(sent, b, EmitAll(e, elems[i + 1..], deps'));
      AddAllConcat(deps, Assets(e, elems[i]), AssetsOfAll(e, elems[i + 1..]));
    }
  }

  /** The state of a loop that reads elements, after `i` of them. */
  ghost predicate ReadSoFar(e: TypeDesc, elems: seq<Val>, i: nat, outs: seq<Val>, s: State, now: State)
    requires i <= |elems| == |outs|
  {
    && now.mem == s.mem && s.cursor <= |s.mem|
    && if now.pass == Read
       then now.Valid() && DecodeAll(e, elems, s.Unread()) == PrependAll(outs[..i], DecodeAll(e, elems[i..], now.Unread()))
       else now.pass == Measure && DecodeAll(e, elems, s.Unread()) == Overrun
  }

  lemma ReadOneMore(e: TypeDesc, elems: seq<Val>, i: nat, outs: seq<Val>, s: State, now: State, now': State, ok: bool, out: Val)
    requires i < |elems| == |outs| && ReadSoFar(e, elems, i, outs, s, now) && Steady(now, now')
    requires now.pass == Read ==> Received(Decode(e, elems[i], now.Unread()), now, now', ok, out)
    ensures ok ==> ReadSoFar(e, elems, i + 1, outs[i := out], s, now')
    ensures !ok ==> Received(DecodeAll(e, elems, s.Unread()), s, now', false, outs)
  {
    assert elems[i..][0] == elems[i] && elems[i..][1..] == elems[i + 1..];
    if ok && now'.pass == Read {
      PrependOne(outs, i, out, DecodeAll(e, elems[i + 1..], now'.Unread()));
    }
  }

  /** Loop state of `WalkAll`: `ok` until an element fails. */
  ghost predicate ElementLoop(e: TypeDesc, elems: seq<Val>, i: nat, outs: seq<Val>, ok: bool, deps0: Deps, deps: Deps, sent: bytes, s: State, now: State) {
    && i <= |elems| == |outs| && Steady(s, now) && AllTyped(e, outs)
    && (s.pass != Read ==>
          outs == elems && if ok then SentSoFar(e, elems, i, deps0, deps, sent, s, now) else EmitAll(e, elems, deps0).None?)
    && (s.pass == Read ==>
          s.cursor <= |s.mem| && if ok then ReadSoFar(e, elems, i, outs, s, now) else Received(DecodeAll(e, elems, s.Unread()), s, now, false, outs))
  }

  lemma ElementLoopStep(e: TypeDesc, elems: seq<Val>, i: nat, outs: seq<Val>, deps0: Deps, deps: Deps, sent: bytes, s: State, now: State, deps': Deps, now': State, ok: bool, out: Val)
    requires i < |elems| && ElementLoop(e, elems, i, outs, true, deps0, deps, sent, s, now)
    requires s.Valid() && Done(e, elems[i], deps, deps', now, now', ok, out)
    ensures ElementLoop(e, elems, i + 1, outs[i := out], ok, deps0, deps',
                        sent + (if s.pass != Read && ok then Emit(e, elems[i], deps).value else []), s, now')
  {
    if s.pass != Read {
      SentOneMore(e, elems, i, deps0, deps, sent, s, now, deps', now', ok);
    } else {
      ReadOneMore(e, elems, i, outs, s, now, now', ok, out);
    }
  }

  lemma ElementLoopStart(e: TypeDesc, elems: seq<Val>, deps: Deps, s: State)
    requires s.Valid() && AllTyped(e, elems)
    ensures ElementLoop(e, elems, 0, elems, true, deps, deps, [], s, s)
  {
    PushedNothing(s);
    JoinNothing(EmitAll(e, elems, deps), if s.pass == Read then DecodeAll(e, elems, s.Unread()) else Refused);
    assert elems[0..] == elems;
  }

  /** The whole contract of a walk over the elements of an array. */
  ghost predicate AllDone(e: TypeDesc, elems: seq<Val>, deps: Deps, deps': Deps, s: State, s': State, ok: bool, outs: seq<Val>) {
    && Steady(s, s') && |outs| == |elems| && AllTyped(e, outs)
    && (s.pass != Read ==>
          && outs == elems && Sent(EmitAll(e, elems, deps), s, s', ok)
          && (ok ==> deps' == AddAll(deps, AssetsOfAll(e, elems))))
    && (s.pass == Read ==> s.cursor <= |s.mem| && Received(DecodeAll(e, elems, s.Unread()), s, s', ok, outs))
  }

  lemma ElementLoopEnd(e: TypeDesc, elems: seq<Val>, i: nat, outs: seq<Val>, ok: bool, deps0: Deps, deps: Deps, sent: bytes, s: State, now: State)
    requires ElementLoop(e, elems, i, outs, ok, deps0, deps, sent, s, now) && (ok ==> i == |elems|)
    ensures AllDone(e, elems, deps0, deps, s, now, ok, outs)
  {
    assert outs[..|elems|] == outs && outs + [] == outs && sent + [] == sent;
  }

  method WalkAll(e: TypeDesc, ch: Chunker, elems: seq<Val>, deps: DependencyList?) returns (ok: bool, outs: seq<Val>)
    requires WellFormed(e) && AllTyped(e, elems)
    requires ch.Snap().Valid() && (ch.pass == Read ==> deps == null)
    modifies ch, ch.buf, deps
    ensures AllDone(e, elems, old(DepsOf(deps)), DepsOf(deps), old(ch.Snap()), ch.Snap(), ok, outs)
    decreases e, 3
  {
    ghost var s, deps0 := ch.Snap(), DepsOf(deps);
    ghost var sent: bytes := [];
    ok, outs := true, elems;
    ElementLoopStart(e, elems, deps0, s);
    var i := 0;
    while i < |elems| && ok
      invariant i <= |elems| && (ch.pass == Read ==> deps == null)
      invariant ElementLoop(e, elems, i, outs, ok, deps0, DepsOf(deps), sent, s, ch.Snap())
      decreases |elems| - i
    {
      ghost var s1, deps1 := ch.Snap(), DepsOf(deps);
      var out;
      ok, out := Walk(e, ch, elems[i], deps);
      ElementLoopStep(e, elems, i, outs, deps0, deps1, sent, s, s1, DepsOf(deps), ch.Snap(), ok, out);
      sent := sent + (if s.pass != Read && ok then Emit(e, elems[i], deps1).value else []);
      outs := outs[i := out];
      i := i + 1;
    }
    ElementLoopEnd(e, elems, i, outs, ok, deps0, DepsOf(deps), sent, s, ch.Snap());
  }

  ghost predicate MembersSentSoFar(fs: seq<TypeDesc>, vs: seq<Val>, i: nat, deps0: Deps, deps: Deps, sent: bytes, s: State, now: State)
    requires i <= |fs| == |vs|
  {
    && Pushed(s, sent, now)
    && EmitMembers(fs, vs, deps0) == Join(Some(sent), EmitMembers(fs[i..], vs[i..], deps))
    && AddAll(deps0, AssetsOfMembers(fs, vs)) == AddAll(deps, AssetsOfMembers(fs[i..], vs[i..]))
  }

  lemma MemberSent(fs: seq<TypeDesc>, vs: seq<Val>, i: nat, deps0: Deps, deps: Deps, sent: bytes, s: State, now: State, deps': Deps, now': State, ok: bool)
    requires i < |fs| == |vs| && MembersSentSoFar(fs, vs, i, deps0, deps, sent, s, now) && fs[i].Walked()
    requires s.Valid() && now.Valid() && Sent(Emit(fs[i], vs[i], deps), now, now', ok) && now'.Valid()
    requires ok ==> deps' == AddAll(deps, Assets(fs[i], vs[i]))
    ensures !ok ==> EmitMembers(fs, vs, deps0).None?
    ensures ok ==> MembersSentSoFar(fs, vs, i + 1, deps0, deps', sent + Emit(fs[i], vs[i], deps).value, s, now')
  {
    assert fs[i..][0] == fs[i] && fs[i..][1..] == fs[i + 1..] && vs[i..][0] == vs[i] && vs[i..][1..] == vs[i + 1..];
    if ok {
      var b := Emit(fs[i], vs[i], deps).value;
      PushedTwice(s, sent, now, b, now');
      JoinAssoc(sent, b, EmitMembers(fs[i + 1..], vs[i + 1..], deps'));
      AddAllConcat(deps, Assets(fs[i], vs[i]), AssetsOfMembers(fs[i + 1..], vs[i + 1..]));
    }
  }

  ghost predicate MembersReadSoFar(fs: seq<TypeDesc>, vs: seq<Val>, i: nat, outs: seq<Val>, s: State, now: State)
    requires i <= |fs| == |vs| == |outs|
  {
    && now.mem == s.mem && s.cursor <= |s.mem|
    && if now.pass == Read
       then now.Valid() && DecodeMembers(fs, vs, s.Unread()) == PrependAll(outs[..i], DecodeMembers(fs[i..], vs[i..], now.Unread()))
       else now.pass == Measure && DecodeMembers(fs, vs, s.Unread()) == Overrun
  }

  lemma MemberRead(fs: seq<TypeDesc>, vs: seq<Val>, i: nat, outs: seq<Val>, s: State, now: State, now': State, ok: bool, out: Val)
    requires i < |fs| == |vs| == |outs| && MembersReadSoFar(fs, vs, i, outs, s, now) && Steady(now, now') && fs[i].Walked()
    requires now.pass == Read ==> Received(Decode(fs[i], vs[i], now.Unread()), now, now', ok, out)
    ensures ok ==> MembersReadSoFar(fs, vs, i + 1, outs[i := out], s, now')
    ensures !ok ==> Received(DecodeMembers(fs, vs, s.Unread()), s, now', false, outs)
  {
    assert fs[i..][0] == fs[i] && fs[i..][1..] == fs[i + 1..] && vs[i..][0] == vs[i] && vs[i..][1..] == vs[i + 1..];
    if ok && now'.pass == Read {
      PrependOne(outs, i, out, DecodeMembers(fs[i + 1..], vs[i + 1..], now'.Unread()));
    }
  }

  /** A member the walk passes over leaves the state of the loop as it is. */
  lemma MemberSkipped(fs: seq<TypeDesc>, vs: seq<Val>, i: nat, deps0: Deps, deps: Deps, sent: bytes, outs: seq<Val>, s: State, now: State)
    requires i < |fs| == |vs| == |outs| && !fs[i].Walked() && outs[i] == vs[i]
    ensures MembersSentSoFar(fs, vs, i, deps0, deps, sent, s, now) ==> MembersSentSoFar(fs, vs, i + 1, deps0, deps, sent, s, now)
    ensures MembersReadSoFar(fs, vs, i, outs, s, now) ==> MembersReadSoFar(fs, vs, i + 1, outs, s, now)
  {
    assert fs[i..][0] == fs[i] && fs[i..][1..] == fs[i + 1..] && vs[i..][0] == vs[i] && vs[i..][1..] == vs[i + 1..];
    assert [] + AssetsOfMembers(fs[i + 1..], vs[i + 1..]) == AssetsOfMembers(fs[i + 1..], vs[i + 1..]);
    if MembersReadSoFar(fs, vs, i, outs, s, now) && now.pass == Read {
      PrependOne(outs, i, vs[i], DecodeMembers(fs[i + 1..], vs[i + 1..], now.Unread()));
      assert outs[i := vs[i]] == outs;
    }
  }

  /** Loop state of `WalkMembers`. */
  ghost predicate MemberLoop(fs: seq<TypeDesc>, vs: seq<Val>, i: nat, outs: seq<Val>, ok: bool, deps0: Deps, deps: Deps, sent: bytes, s: State, now: State) {
    && i <= |fs| == |vs| == |outs| && Steady(s, now) && MembersTyped(fs, outs) && outs[i..] == vs[i..]
    && (s.pass != Read ==>
          outs == vs && if ok then MembersSentSoFar(fs, vs, i, deps0, deps, sent, s, now) else EmitMembers(fs, vs, deps0).None?)
    && (s.pass == Read ==>
          s.cursor <= |s.mem| && if ok then MembersReadSoFar(fs, vs, i, outs, s, now) else Received(DecodeMembers(fs, vs, s.Unread()), s, now, false, outs))
  }

  lemma MemberLoopStep(fs: seq<TypeDesc>, vs: seq<Val>, i: nat, outs: seq<Val>, deps0: Deps, deps: Deps, sent: bytes, s: State, now: State, deps': Deps, now': State, ok: bool, out: Val)
    requires MemberLoop(fs, vs, i, outs, true, deps0, deps, sent, s, now) && i < |fs| && s.Valid()
    requires if fs[i].Walked() then Done(fs[i], vs[i], deps, deps', now, now', ok, out)
             else ok && out == vs[i] && deps' == deps && now' == now
    ensures MemberLoop(fs, vs, i + 1, outs[i := out], ok, deps0, deps',
                       sent + (if s.pass != Read && ok && fs[i].Walked() then Emit(fs[i], vs[i], deps).value else []), s, now')
  {
    assert outs[i] == outs[i..][0] == vs[i] && outs[i := out][i + 1..] == outs[i..][1..] == vs[i + 1..];
    if !fs[i].Walked() {
      MemberSkipped(fs, vs, i, deps0, deps, sent, outs, s, now);
      assert outs[i := out] == outs && sent + [] == sent;
    } else if s.pass != Read {
      MemberSent(fs, vs, i, deps0, deps, sent, s, now, deps', now', ok);
    } else {
      MemberRead(fs, vs, i, outs, s, now, now', ok, out);
    }
  }

  lemma MemberLoopStart(fs: seq<TypeDesc>, vs: seq<Val>, deps: Deps, s: State)
    requires s.Valid() && |fs| == |vs| && MembersTyped(fs, vs)
    ensures MemberLoop(fs, vs, 0, vs, true, deps, deps, [], s, s)
  {
    PushedNothing(s);
    JoinNothing(EmitMembers(fs, vs, deps), if s.pass == Read then DecodeMembers(fs, vs, s.Unread()) else Refused);
    assert fs[0..] == fs && vs[0..] == vs;
  }

  /** The whole contract of a walk over the members of a struct. */
  ghost predicate MembersDone(fs: seq<TypeDesc>, vs: seq<Val>, deps: Deps, deps': Deps, s: State, s': State, ok: bool, outs: seq<Val>) {
    && Steady(s, s') && |outs| == |fs| && MembersTyped(fs, outs)
    && (s.pass != Read ==>
          && outs == vs && Sent(EmitMembers(fs, vs, deps), s, s', ok)
          && (ok ==> deps' == AddAll(deps, AssetsOfMembers(fs, vs))))
    && (s.pass == Read ==> s.cursor <= |s.mem| && Received(DecodeMembers(fs, vs, s.Unread()), s, s', ok, outs))
  }

  lemma MemberLoopEnd(fs: seq<TypeDesc>, vs: seq<Val>, i: nat, outs: seq<Val>, ok: bool, deps0: Deps, deps: Deps, sent: bytes, s: State, now: State)
    requires MemberLoop(fs, vs, i, outs, ok, deps0, deps, sent, s, now) && (ok ==> i == |fs|)
    ensures MembersDone(fs, vs, deps0, deps, s, now, ok, outs)
  {
    assert outs[..|fs|] == outs && outs + [] == outs && sent + [] == sent;
  }

  method WalkMembers(fs: seq<TypeDesc>, ch: Chunker, members: seq<Val>, deps: DependencyList?) returns (ok: bool, outs: seq<Val>)
    requires |fs| == |members| && MembersTyped(fs, members)
    requires forall i | 0 <= i < |fs| :: WellFormed(fs[i])
    requires ch.Snap().Valid() && (ch.pass == Read ==> deps == null)
    modifies ch, ch.buf, deps
    ensures MembersDone(fs, members, old(DepsOf(deps)), DepsOf(deps), old(ch.Snap()), ch.Snap(), ok, outs)
    decreases fs, 0
  {
    ghost var s, deps0 := ch.Snap(), DepsOf(deps);
    ghost var sent: bytes := [];
    ok, outs := true, members;
    MemberLoopStart(fs, members, deps0, s);
    var i := 0;
    while i < |fs| && ok
      invariant i <= |fs| && (ch.pass == Read ==> deps == null)
      invariant MemberLoop(fs, members, i, outs, ok, deps0, DepsOf(deps), sent, s, ch.Snap())
      decreases |fs| - i
    {
      ghost var s1, deps1 := ch.Snap(), DepsOf(deps);
      var out := members[i];
      if fs[i].Walked() {
        ok, out := Walk(fs[i], ch, members[i], deps);
      }
      MemberLoopStep(fs, members, i, outs, deps0, deps1, sent, s, s1, DepsOf(deps), ch.Snap(), ok, out);
      sent := sent + (if s.pass != Read && ok && fs[i].Walked() then Emit(fs[i], members[i], deps1).value else []);
      outs := outs[i := out];
      i := i + 1;
    }
    MemberLoopEnd(fs, members, i, outs, ok, deps0, DepsOf(deps), sent, s, ch.Snap());
  }
}
