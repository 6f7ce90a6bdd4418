/** The blocking entry points in text mode, over JSON trees: writing a document, and reading one over a parent or the defaults. */
module TextSerialize {

  import opened Common
  import opened Bytes
  import opened Reflection
  import opened TextFormat
  import opened TextWalk
  import B = BinaryFormat
  import C = Chunker
  import L = BinaryLaws
  import W = BinaryWalk
  import S = Serialize

  // ---------------------------------------------------------------- writing

  /** The ids the walk meets before it gets to the header. */
  function BeforeHeader(d: TypeDesc, obj: Val): seq<Maid>
    requires S.HasHeader(d) ==> obj.Rec? && |obj.members| == |d.body.fields|
  {
    if S.HasHeader(d) && d.serializable then
      B.AssetsOfMembers(d.body.fields[..S.HeaderIndex(d.body.fields)], obj.members[..S.HeaderIndex(d.body.fields)])
    else []
  }

  /** What a list that starts with `start` holds when the walk gets to the header. */
  function Seen(d: TypeDesc, obj: Val, start: seq<Maid>): seq<Maid>
    requires S.HasHeader(d) ==> obj.Rec? && |obj.members| == |d.body.fields|
  {
    var deps := B.AddAll(B.On(start), BeforeHeader(d, obj));
    if deps.On? then deps.items else start
  }

  lemma {:induction false} SplitMembers(fs: seq<TypeDesc>, vs: seq<Val>, k: nat)
    requires |fs| == |vs| && k <= |fs|
    ensures B.AssetsOfMembers(fs, vs) == B.AssetsOfMembers(fs[..k], vs[..k]) + B.AssetsOfMembers(fs[k..], vs[k..])
    decreases k
  {
    if k == 0 {
      assert fs[0..] == fs && vs[0..] == vs;
    } else {
      SplitMembers(fs[1..], vs[1..], k - 1);
      FirstMember(fs, vs);
      FirstMember(fs[..k], vs[..k]);
      assert fs[..k][1..] == fs[1..][..k - 1] && vs[..k][1..] == vs[1..][..k - 1];
      assert fs[1..][k - 1..] == fs[k..] && vs[1..][k - 1..] == vs[k..];
      Associate(AssetsHere(fs[0], vs[0]), B.AssetsOfMembers(fs[1..][..k - 1], vs[1..][..k - 1]), B.AssetsOfMembers(fs[k..], vs[k..]));
    }
  }

  function AssetsHere(f: TypeDesc, v: Val): seq<Maid> { if f.Walked() then B.Assets(f, v) else [] }

  lemma FirstMember(fs: seq<TypeDesc>, vs: seq<Val>)
    requires |fs| == |vs| > 0
    ensures B.AssetsOfMembers(fs, vs) == AssetsHere(fs[0], vs[0]) + B.AssetsOfMembers(fs[1..], vs[1..])
  {
  }

  lemma Associate<T>(a: seq<T>, b: seq<T>, c: seq<T>)
    ensures a + (b + c) == (a + b) + c
  {
  }

  lemma {:induction false} AddAllGrows(items: seq<Maid>, ms: seq<Maid>)
    ensures var deps := B.AddAll(B.On(items), ms); deps.On? && |items| <= |deps.items|
    decreases |ms|
  {
    if ms != [] { AddAllGrows(B.AddDep(B.On(items), ms[0]).items, ms[1..]); }
  }

  /** In the first pass the header sees a part of the list; once that is complete, all of it. */
  lemma SeenOfComplete(d: TypeDesc, obj: Val)
    requires S.IsObject(d, obj) && S.HasHeader(d)
    ensures var found := B.AddAll(B.On([]), B.Assets(d, obj));
            found.On? && |Seen(d, obj, [])| <= |found.items| && Seen(d, obj, found.items) == found.items
  {
    var refs, before := B.Assets(d, obj), BeforeHeader(d, obj);
    B.CollectFirstOccurrences(refs);
    var found := B.AddAll(B.On([]), refs);
    if d.serializable {
      var fs, k := d.body.fields, S.HeaderIndex(d.body.fields);
      var after := B.AssetsOfMembers(fs[k..], obj.members[k..]);
      SplitMembers(fs, obj.members, k);
      assert refs == before + after;
      B.AddAllConcat(B.On([]), before, after);
      AddAllGrows([], before);
      AddAllGrows(B.AddAll(B.On([]), before).items, after);
      B.AddAllCovered(found, before);
    }
  }

  /** The prepared object while its header's dependency array holds `items`. */
  function Stamped(t: S.AssetType, obj: Val, items: seq<Maid>): Val
    requires S.HasHeader(t.desc) ==> obj.Rec? && |obj.members| == |t.desc.body.fields|
    requires S.HasHeader(t.desc) ==> S.HeaderOf(t.desc, obj).Rec? && |S.HeaderOf(t.desc, obj).members| == 8
  {
    if S.HasHeader(t.desc)
    then Rec(obj.members[S.HeaderIndex(t.desc.body.fields) := Rec(S.Stamp(t, S.HeaderOf(t.desc, obj)).members[7 := Arr(MaidVals(items))])])
    else obj
  }

  /** The header of an object has its eight members. */
  lemma HeaderComplete(t: S.AssetType, obj: Val)
    requires S.IsObject(t.desc, obj)
    ensures S.HasHeader(t.desc) ==> S.HeaderOf(t.desc, obj).Rec? && |S.HeaderOf(t.desc, obj).members| == 8
  {
    S.HeaderWellFormed();
  }

  lemma HeaderFieldHasNoAssets(i: nat, v: Val)
    requires i < 8
    ensures B.Assets(S.HEADER_FIELDS[i], v) == []
  {
    var f := S.HEADER_FIELDS[i];
    if i < 5 {
      assert f.body == AliasOf(TD_U32) && B.Assets(TD_U32, v) == [];
    } else if i < 7 {
      L.MaidHasNoAssets([v]);
      assert f.body == AliasOf(TD_MAID) && B.AssetsOfAll(TD_MAID, [v]) == B.Assets(TD_MAID, v) + B.AssetsOfAll(TD_MAID, [v][1..]);
    } else {
      assert f.body == DynArray(TD_MAID);
      if v.Arr? { L.MaidHasNoAssets(v.elems); }
    }
  }

  lemma {:induction false} HeaderTailHasNoAssets(ms: seq<Val>, i: nat)
    requires i <= 8 && |ms| == 8
    ensures B.AssetsOfMembers(S.HEADER_FIELDS[i..], ms[i..]) == []
    decreases 8 - i
  {
    if i < 8 {
      HeaderFieldHasNoAssets(i, ms[i]);
      HeaderTailHasNoAssets(ms, i + 1);
      assert S.HEADER_FIELDS[i..][0] == S.HEADER_FIELDS[i] && S.HEADER_FIELDS[i..][1..] == S.HEADER_FIELDS[i + 1..];
      assert ms[i..][0] == ms[i] && ms[i..][1..] == ms[i + 1..];
    }
  }

  lemma HeaderHasNoAssets(h: Val)
    requires h.Rec? && |h.members| == 8
    ensures B.Assets(S.TD_HEADER, h) == []
  {
    HeaderTailHasNoAssets(h.members, 0);
    assert S.HEADER_FIELDS[0..] == S.HEADER_FIELDS && h.members[0..] == h.members;
  }

  /** What stands in the header has no influence on the asset references of an object. */
  lemma SameAssets(t: S.AssetType, obj: Val, items: seq<Maid>)
    requires S.IsObject(t.desc, obj)
    ensures S.HasHeader(t.desc) ==> S.HeaderOf(t.desc, obj).Rec? && |S.HeaderOf(t.desc, obj).members| == 8
    ensures B.Assets(t.desc, Stamped(t, obj, items)) == B.Assets(t.desc, obj)
  {
    HeaderComplete(t, obj);
    if S.HasHeader(t.desc) {
      var fs, k, s := t.desc.body.fields, S.HeaderIndex(t.desc.body.fields), Stamped(t, obj, items);
      HeaderHasNoAssets(obj.members[k]);
      HeaderHasNoAssets(s.members[k]);
      assert B.Assets(fs[k], obj.members[k]) == [] && B.Assets(fs[k], s.members[k]) == [];
      SplitMembers(fs, obj.members, k);
      SplitMembers(fs, s.members, k);
      assert s.members[..k] == obj.members[..k] && s.members[k..][1..] == obj.members[k..][1..];
    }
  }

  /** Whether a value can be emitted does not depend on the place. */
  lemma {:induction false} EmitAnywhere(d: TypeDesc, v: Val, here: Json, there: Json)
    ensures Emit(d, v, here).Some? <==> Emit(d, v, there).Some?
    decreases d
  {
    if d.serializable && d.body.AliasOf? { EmitAnywhere(d.body.target, v, here, there); }
  }

  /** A struct can be emitted when each visited member can. */
  lemma {:induction false} MembersSome(fs: seq<TypeDesc>, vs: seq<Val>, m: Fields)
    requires |fs| == |vs|
    ensures EmitMembers(fs, vs, m).Some? <==> forall i | 0 <= i < |fs| && fs[i].Walked() :: Emit(fs[i], vs[i], Null).Some?
    decreases |fs|
  {
    if fs != [] {
      var n := |fs| - 1;
      MembersSome(fs[..n], vs[..n], m);
      assert forall i | 0 <= i < n :: fs[..n][i] == fs[i] && vs[..n][i] == vs[i];
      var front := EmitMembers(fs[..n], vs[..n], m);
      if front.Some? { EmitAnywhere(fs[n], vs[n], Lookup(front.value, fs[n].name), Null); }
    }
  }

  /** A shorter list never makes a pass fail that a longer one lets succeed. */
  lemma ShorterListEmits(t: S.AssetType, obj: Val, items: seq<Maid>, fewer: seq<Maid>)
    requires S.IsObject(t.desc, obj) && |fewer| <= |items|
    ensures S.HasHeader(t.desc) ==> S.HeaderOf(t.desc, obj).Rec? && |S.HeaderOf(t.desc, obj).members| == 8
    ensures Emit(t.desc, Stamped(t, obj, items), Object(map[])).Some? ==> Emit(t.desc, Stamped(t, obj, fewer), Object(map[])).Some?
  {
    HeaderComplete(t, obj);
    if S.HasHeader(t.desc) && t.desc.serializable && Emit(t.desc, Stamped(t, obj, items), Object(map[])).Some? {
      var fs := t.desc.body.fields;
      var k, xs, ys := S.HeaderIndex(fs), Stamped(t, obj, items).members, Stamped(t, obj, fewer).members;
      MembersSome(fs, xs, map[]);
      MembersSome(fs, ys, map[]);
      forall i | 0 <= i < |fs| && fs[i].Walked() ensures Emit(fs[i], ys[i], Null).Some? {
        assert Emit(fs[i], xs[i], Null).Some?;
        if i == k { ShorterHeaderEmits(fs[k], xs[k], ys[k], items, fewer); } else { assert xs[i] == ys[i]; }
      }
    }
  }

  lemma ShorterHeaderEmits(f: TypeDesc, x: Val, y: Val, items: seq<Maid>, fewer: seq<Maid>)
    requires f.body == AliasOf(S.TD_HEADER) && f.serializable && x.Rec? && y.Rec? && |x.members| == |y.members| == 8
    requires x.members[..7] == y.members[..7] && x.members[7] == Arr(MaidVals(items)) && y.members[7] == Arr(MaidVals(fewer))
    requires |fewer| <= |items| && Emit(f, x, Null).Some?
    ensures Emit(f, y, Null).Some?
  {
    MembersSome(S.HEADER_FIELDS, x.members, map[]);
    MembersSome(S.HEADER_FIELDS, y.members, map[]);
    forall i | 0 <= i < 8 && S.HEADER_FIELDS[i].Walked() ensures Emit(S.HEADER_FIELDS[i], y.members[i], Null).Some? {
      assert Emit(S.HEADER_FIELDS[i], x.members[i], Null).Some?;
      if i < 7 {
        assert y.members[i] == y.members[..7][i] == x.members[..7][i] == x.members[i];
      } else {
        assert S.HEADER_FIELDS[7].body == DynArray(TD_MAID);
        MaidsEmit(fewer);
      }
    }
  }

  /** A list of ids can always be emitted. */
  lemma {:induction false} MaidsEmit(items: seq<Maid>)
    ensures EmitAll(TD_MAID, MaidVals(items)).Some?
    decreases |items|
  {
    if items != [] {
      var n := |items| - 1;
      MaidsEmit(items[..n]);
      assert MaidVals(items)[..n] == MaidVals(items[..n]);
      MaidEmits(items[n]);
    }
  }

  lemma MaidEmits(m: Maid)
    ensures Emit(TD_MAID, MaidVals([m])[0], Null).Some?
  {
    var v := MaidVals([m])[0];
    MembersSome(TD_MAID.body.fields, v.members, map[]);
  }

  /**
   `SerializeChunkerPass`: Measure and Write build the same document. The dependency array in the header is the list
   itself, so the walk finds in it what the list held at the start and the ids of the members before the header.
   */
  method SerializeChunkerPass(t: S.AssetType, obj: Val, list: W.DependencyList, pass: C.Pass, reset: bool)
    returns (doc: Option<Json>, source: Val, trapped: bool)
    requires S.IsObject(t.desc, obj) && (pass == C.Measure || pass == C.Write)
    modifies list
    ensures S.HasHeader(t.desc) ==> S.HeaderOf(t.desc, obj).Rec? && |S.HeaderOf(t.desc, obj).members| == 8
    ensures trapped ==> Depth(t.desc) > STACK_SIZE
    ensures !trapped ==>
            var start := if reset then [] else old(list.items);
            && source == Stamped(t, obj, Seen(t.desc, obj, start)) && doc == Emit(t.desc, source, Object(map[]))
            && (doc.Some? ==> S.Tracked(t.desc, list.items) == B.AddAll(S.Tracked(t.desc, start), B.Assets(t.desc, obj)))
    ensures !S.HasHeader(t.desc) ==> list.items == old(list.items)
  {
    HeaderComplete(t, obj);
    var deps: W.DependencyList? := null;
    if S.HasHeader(t.desc) {
      deps := list;
      if reset { list.items := []; }
    }
    var start := if reset then [] else list.items;
    source := Stamped(t, obj, Seen(t.desc, obj, start));
    SameAssets(t, obj, Seen(t.desc, obj, start));
    var ch := new TextChunker(pass, Object(map[]));
    var ok, _ := Walk(t.desc, source, ch, false, deps);
    doc := if ok then Some(ch.current) else None;
    trapped := ch.trapped;
  }

  /**
   `SerializeChunkedBlocking` in text mode, unless a push finds the stack full. It succeeds exactly when the object with its completed list can be emitted;
   the document is that tree, and the list holds the first occurrences of exactly the valid ids of the object.
   */
  method SerializeBlocking(t: S.AssetType, obj: Val, list: W.DependencyList)
    returns (result: S.ResultCode, doc: Option<Json>, trapped: bool)
    requires S.IsObject(t.desc, obj)
    modifies list
    ensures S.HasHeader(t.desc) ==> S.HeaderOf(t.desc, obj).Rec? && |S.HeaderOf(t.desc, obj).members| == 8
    ensures trapped ==> Depth(t.desc) > STACK_SIZE
    ensures !trapped ==>
            var refs := B.Assets(t.desc, obj);
            var found := B.AddAll(S.Tracked(t.desc, []), refs);
            var emitted := Emit(t.desc, Stamped(t, obj, if found.On? then found.items else []), Object(map[]));
            && result != S.SER_VERSION_MISMATCH && (result == S.SER_SUCCESS <==> emitted.Some?)
            && (result == S.SER_SUCCESS ==> doc == emitted && S.Tracked(t.desc, list.items) == found)
            && (result == S.SER_SUCCESS && S.HasHeader(t.desc) ==> B.IsFirstOccurrences(list.items, refs))
  {
    HeaderComplete(t, obj);
    ghost var refs := B.Assets(t.desc, obj);
    ghost var found := B.AddAll(S.Tracked(t.desc, []), refs);
    Complete(t, refs);
    if S.HasHeader(t.desc) {
      SeenOfComplete(t.desc, obj);
      ShorterListEmits(t, obj, found.items, Seen(t.desc, obj, []));
    }
    var source;
    doc, source, trapped := SerializeChunkerPass(t, obj, list, C.Measure, true);
    if trapped || doc.None? { return S.SER_FAILURE, doc, trapped; }
    doc, source, trapped := SerializeChunkerPass(t, obj, list, C.Measure, false);
    if trapped || doc.None? { return S.SER_FAILURE, doc, trapped; }
    doc, source, trapped := SerializeChunkerPass(t, obj, list, C.Write, false);
    result := if doc.Some? then S.SER_SUCCESS else S.SER_FAILURE;
  }

  /** Once collected the list is complete and stays as it is. */
  lemma Complete(t: S.AssetType, refs: seq<Maid>)
    ensures var found := B.AddAll(S.Tracked(t.desc, []), refs);
            && B.AddAll(found, refs) == found && (found.On? <==> S.HasHeader(t.desc))
            && (found.On? ==> B.IsFirstOccurrences(found.items, refs))
  {
    if S.HasHeader(t.desc) {
      B.CollectFirstOccurrences(refs);
    } else {
      B.AddAllCovered(B.Off, refs);
    }
  }

  // ---------------------------------------------------------------- reading

  /** The header in a document, if there is one. */
  function HeaderIn(j: Json): Option<Val> {
    if j.Object? && "header" in j.fields then Decode(S.TD_HEADER, Default(S.TD_HEADER), j.fields["header"], false) else None
  }

  method TryReadSerializedHeaderField(doc: Json) returns (header: Option<Val>)
    ensures header == HeaderIn(doc)
  {
    var ch := new TextChunker(C.Read, doc);
    var ok := ch.BeginObject();
    if !ok { return None; }
    ok := ch.Field("header");
    if !ok { return None; }
    HeaderDepth();
    var h;
    ok, h := Walk(S.TD_HEADER, Default(S.TD_HEADER), ch, false, null);
    header := if ok && ch.pass == C.Read then Some(h) else None;
    ch.EndField();
  }

  lemma HeaderDepth()
    ensures Depth(S.TD_HEADER) <= 127
  {
    MaxDepthAtMost(TD_MAID.body.fields, 1);
    MaxDepthAtMost(S.HEADER_FIELDS, 4);
  }

  lemma {:induction false} MaxDepthAtMost(fs: seq<TypeDesc>, n: nat)
    requires forall i | 0 <= i < |fs| :: Depth(fs[i]) <= n
    ensures MaxDepth(fs) <= n
    decreases |fs|
  {
    if fs != [] { MaxDepthAtMost(fs[..|fs| - 1], n); }
  }

  /** A parent can be used when it has the asset's own type and could be loaded. */
  predicate UsableParent(h: Val, parent: Option<Val>) {
    S.MaidAt(h, 6).kind == S.MaidAt(h, 5).kind && parent.Some?
  }

  /** Text `DeserializeChunkedBlocking` as a function of the document. */
  function Deserialized(t: S.AssetType, j: Json, parent: Option<Val>): (S.ResultCode, Option<Val>) {
    var header := HeaderIn(j);
    if header.Some? && S.Validate(t, header.value) != S.SER_SUCCESS then (S.Validate(t, header.value), None)
    else if S.HasHeader(t.desc) && header.None? then (S.SER_FAILURE, None)
    else
      var inherits := header.Some? && S.MaidAt(header.value, 6).IsValid();
      if inherits && !UsableParent(header.value, parent) then (S.SER_FAILURE, None)
      else
        var r := Decode(t.desc, if inherits then parent.value else Default(t.desc), j, inherits);
        (if r.Some? then S.SER_SUCCESS else S.SER_FAILURE, r)
  }

  method DeserializeBlocking(t: S.AssetType, doc: Json, parent: Option<Val>) returns (result: S.ResultCode, out: Option<Val>, trapped: bool)
    ensures trapped ==> Depth(t.desc) > STACK_SIZE
    ensures !trapped ==> (result, out) == Deserialized(t, doc, parent)
  {
    var header := TryReadSerializedHeaderField(doc);
    if header.Some? && S.Validate(t, header.value) != S.SER_SUCCESS {
      return S.Validate(t, header.value), None, false;
    }
    if S.HasHeader(t.desc) && header.None? {
      return S.SER_FAILURE, None, false;
    }
    var base := Default(t.desc);
    var copiedParent := false;
    if header.Some? && S.MaidAt(header.value, 6).IsValid() {
      if S.MaidAt(header.value, 6).kind != S.MaidAt(header.value, 5).kind || parent.None? {
        return S.SER_FAILURE, None, false;
      }
      base, copiedParent := parent.value, true;
    }
    var ch := new TextChunker(C.Read, doc);
    var ok, v := Walk(t.desc, base, ch, copiedParent, null);
    if ok && ch.pass == C.Read {
      return S.SER_SUCCESS, Some(v), false;
    }
    return S.SER_FAILURE, None, ch.trapped;
  }

  // ---------------------------------------------------------------- what a document is read over

  /**
   A member that is not visited, or whose key is missing, is the one of `base`; every other one is read by itself, over
   `init`.
   */
  ghost predicate ReadOver(fs: seq<TypeDesc>, base: seq<Val>, init: seq<Val>, m: Fields, out: seq<Val>) {
    && |base| == |init| == |out| == |fs|
    && forall i | 0 <= i < |fs| ::
         if fs[i].Walked() && fs[i].name in m then Decode(fs[i], init[i], m[fs[i].name], false) == Some(out[i]) else out[i] == base[i]
  }

  /** Each key of a visited member can be read. */
  ghost predicate CanRead(fs: seq<TypeDesc>, init: seq<Val>, m: Fields) {
    fs != [] && |init| == |fs| && forall i | 0 <= i < |fs| && fs[i].Walked() && fs[i].name in m :: Decode(fs[i], init[i], m[fs[i].name], false).Some?
  }

  function TypeDefaults(fs: seq<TypeDesc>): (r: seq<Val>)
    ensures |r| == |fs| && forall i | 0 <= i < |fs| :: r[i] == Default(fs[i])
  {
    seq(|fs|, i requires 0 <= i < |fs| => Default(fs[i]))
  }

  /** The storage a member is read over: its own type's default when members are reset first, else what is there. */
  lemma DecodesOver(d: TypeDesc, fs: seq<TypeDesc>, ds: seq<Val>, base: seq<Val>, m: Fields, reset: bool)
    requires d.serializable && d.body == Struct(fs, ds) && |base| == |fs|
    ensures var init, r := if reset then TypeDefaults(fs) else base, Decode(d, Rec(base), Object(m), reset);
            && (r.Some? <==> CanRead(fs, init, m))
            && (r.Some? ==> r.value.Rec? && ReadOver(fs, base, init, m, r.value.members))
  {
    var init, r := if reset then TypeDefaults(fs) else base, Decode(d, Rec(base), Object(m), reset);
    AllMembers(fs, base, m, reset);
    forall i | 0 <= i < |fs|
      ensures DecodeMember(fs[i], base[i], m, reset) ==
              if fs[i].Walked() && fs[i].name in m then Decode(fs[i], init[i], m[fs[i].name], false) else Some(base[i])
    {
    }
    if CanRead(fs, init, m) {
      forall i | 0 <= i < |fs| ensures DecodeMember(fs[i], base[i], m, reset).Some? {}
    }
    if r.Some? {
      forall i | 0 <= i < |fs| && fs[i].Walked() && fs[i].name in m ensures Decode(fs[i], init[i], m[fs[i].name], false).Some? {
        assert DecodeMember(fs[i], base[i], m, reset).Some?;
      }
    }
  }

  /**
   A document whose header is accepted and names a parent. It is read exactly when the parent has the asset's own type
   and could be loaded and every key of a member can be read; then each top-level member is the document's, read over its
   type's default and not over the parent's member, or the parent's where the document has none.
   */
  lemma InheritedDocument(t: S.AssetType, fs: seq<TypeDesc>, ds: seq<Val>, m: Fields, parent: Option<Val>, own: Maid, up: Maid)
    requires t.desc.serializable && t.desc.body == Struct(fs, ds) && (parent.Some? ==> Typed(t.desc, parent.value))
    requires var h := HeaderIn(Object(m)); h.Some? && S.Validate(t, h.value) == S.SER_SUCCESS && NamesIds(h.value, own, up)
    requires up.IsValid()
    ensures var (result, out) := Deserialized(t, Object(m), parent);
            && (result == S.SER_SUCCESS <==> up.kind == own.kind && parent.Some? && CanRead(fs, TypeDefaults(fs), m))
            && (result == S.SER_SUCCESS ==>
                  out.Some? && out.value.Rec? && parent.value.Rec? && ReadOver(fs, parent.value.members, TypeDefaults(fs), m, out.value.members))
            && (result != S.SER_SUCCESS ==> (result, out) == (S.SER_FAILURE, None))
  {
    var h := HeaderIn(Object(m)).value;
    S.HeaderReads(h, 5, 0, own);
    S.HeaderReads(h, 6, 0, up);
    if parent.Some? { DecodesOver(t.desc, fs, ds, parent.value.members, m, true); }
  }

  ghost predicate NamesIds(h: Val, own: Maid, up: Maid) {
    h.Rec? && |h.members| == 8 && h.members[5] == MaidVal(own) && h.members[6] == MaidVal(up)
  }

  /**
   A document whose header is accepted and names no parent, or that needs no header and has none. It is read exactly
   when every key of a member can be read; then each top-level member is the document's, read over the member's
   initial value, or that initial value where the document has none.
   */
  lemma OwnDocument(t: S.AssetType, fs: seq<TypeDesc>, ds: seq<Val>, m: Fields, parent: Option<Val>)
    requires t.desc.serializable && t.desc.body == Struct(fs, ds) && |ds| == |fs|
    requires var h := HeaderIn(Object(m));
             if h.Some? then S.Validate(t, h.value) == S.SER_SUCCESS && exists own, up :: NamesIds(h.value, own, up) && !up.IsValid()
             else !S.HasHeader(t.desc)
    ensures var (result, out) := Deserialized(t, Object(m), parent);
            && (result == S.SER_SUCCESS <==> CanRead(fs, ds, m))
            && (result == S.SER_SUCCESS ==> out.Some? && out.value.Rec? && ReadOver(fs, ds, ds, m, out.value.members))
            && (result != S.SER_SUCCESS ==> (result, out) == (S.SER_FAILURE, None))
  {
    var h := HeaderIn(Object(m));
    if h.Some? {
      var own, up :| NamesIds(h.value, own, up) && !up.IsValid();
      S.HeaderReads(h.value, 6, 0, up);
    }
    DecodesOver(t.desc, fs, ds, ds, m, false);
  }

  /** A document without the header its type needs, or with one that is not accepted, is refused. */
  lemma RefusedDocument(t: S.AssetType, j: Json, parent: Option<Val>)
    ensures HeaderIn(j).Some? && S.Validate(t, HeaderIn(j).value) != S.SER_SUCCESS ==>
              Deserialized(t, j, parent) == (S.Validate(t, HeaderIn(j).value), None)
    ensures HeaderIn(j).None? && S.HasHeader(t.desc) ==> Deserialized(t, j, parent) == (S.SER_FAILURE, None)
  {
  }

  /** Nothing of a parent's member comes through a key the document has: what is missing below it is the type's default. */
  lemma NoDeepMerge(t: S.AssetType, fs: seq<TypeDesc>, ds: seq<Val>, m: Fields, parent: Option<Val>, own: Maid, up: Maid,
        i: nat, f: TypeDesc, k: nat)
    requires t.desc.serializable && t.desc.body == Struct(fs, ds) && (parent.Some? ==> Typed(t.desc, parent.value))
    requires var h := HeaderIn(Object(m)); h.Some? && S.Validate(t, h.value) == S.SER_SUCCESS && NamesIds(h.value, own, up)
    requires up.IsValid() && Deserialized(t, Object(m), parent).0 == S.SER_SUCCESS
    requires i < |fs| && fs[i].serializable && fs[i].body == AliasOf(f) && f.serializable && f.body.Struct?
    requires |f.body.defaults| == |f.body.fields| && k < |f.body.fields|
    requires fs[i].name in m && m[fs[i].name].Object? && f.body.fields[k].name !in m[fs[i].name].fields
    ensures var out := Deserialized(t, Object(m), parent).1;
            && out.Some? && out.value.Rec? && |out.value.members| == |fs| && out.value.members[i].Rec?
            && |out.value.members[i].members| == |f.body.fields| && out.value.members[i].members[k] == f.body.defaults[k]
  {
    InheritedDocument(t, fs, ds, m, parent, own, up);
    var inner := m[fs[i].name].fields;
    assert Decode(fs[i], Default(fs[i]), m[fs[i].name], false) == Decode(f, Default(f), Object(inner), false);
    DecodesOver(f, f.body.fields, f.body.defaults, f.body.defaults, inner, false);
  }

  // ---------------------------------------------------------------- round trip of an asset

  /** Members of a header read back are the ones written. */
  lemma HeaderSame(h: Val, r: Val)
    requires Restored(S.TD_HEADER, h, r)
    ensures forall i | 0 <= i < 5 :: S.Word(r, i) == S.Word(h, i)
    ensures S.MaidAt(r, 5) == S.MaidAt(h, 5) && S.MaidAt(r, 6) == S.MaidAt(h, 6)
  {
    var fs := S.TD_HEADER.body.fields;
    assert h.Rec? && r.Rec? && |h.members| == |r.members| == 8;
    forall i | 0 <= i < 5 ensures r.members[i] == h.members[i] {
      assert fs[i] == S.HEADER_FIELDS[i] && fs[i].Walked() && fs[i].body.target == TD_U32;
      assert Restored(fs[i], h.members[i], r.members[i]);
      assert Restored(TD_U32, h.members[i], r.members[i]);
    }
    forall i | 5 <= i < 7 ensures S.MaidAt(r, i) == S.MaidAt(h, i) {
      assert fs[i] == S.HEADER_FIELDS[i] && fs[i].Walked() && fs[i].body.target == TD_MAID;
      assert Restored(fs[i], h.members[i], r.members[i]);
      MaidSame(h.members[i], r.members[i]);
    }
  }

  lemma MaidSame(v: Val, w: Val)
    requires Restored(TD_MAID, v, w)
    ensures v.Rec? && w.Rec? && |v.members| == |w.members| == 2 && v == w
  {
    var fs := TD_MAID.body.fields;
    forall i | 0 <= i < 2 ensures v.members[i] == w.members[i] {
      assert fs[i].Walked() && fs[i].body.target == TD_U32;
      assert Restored(fs[i], v.members[i], w.members[i]);
      assert Restored(TD_U32, v.members[i], w.members[i]);
    }
    assert v.members == w.members;
  }

  /** The header a reader finds in a written document says what was written. */
  lemma WrittenHeader(t: S.AssetType, v: Val)
    requires S.HasHeader(t.desc) && t.desc.serializable && WellFormed(t.desc) && WellNamed(t.desc) && Typed(t.desc, v)
    requires t.desc.body.fields[S.HeaderIndex(t.desc.body.fields)].serializable && Emit(t.desc, v, Object(map[])).Some?
    ensures var found := HeaderIn(Emit(t.desc, v, Object(map[])).value);
            var h := S.HeaderOf(t.desc, v);
            && found.Some? && S.Validate(t, found.value) == S.Validate(t, h)
            && S.MaidAt(found.value, 5) == S.MaidAt(h, 5) && S.MaidAt(found.value, 6) == S.MaidAt(h, 6)
  {
    var fs := t.desc.body.fields;
    var i := S.HeaderIndex(fs);
    var h := v.members[i];
    var m := EmitMembers(fs, v.members, map[]).value;
    KeyWritten(fs, v.members, i);
    var here :| Emit(fs[i], h, here) == Some(m["header"]);
    assert fs[i].Walked() && Typed(fs[i], h) && WellNamed(fs[i]);
    assert Typed(S.TD_HEADER, h) && WellNamed(S.TD_HEADER);
    S.HeaderWellFormed();
    DefaultTyped(S.TD_HEADER);
    assert Emit(S.TD_HEADER, h, here) == Some(m["header"]);
    DecodeEmit(S.TD_HEADER, Default(S.TD_HEADER), h, here, false);
    HeaderSame(h, HeaderIn(Object(m)).value);
  }

  /**
   A written asset document that validates is read back with every serializable member as written, over the defaults
   or over any usable parent; it is refused exactly when it names a parent that cannot be used.
   */
  lemma AssetRoundTrip(t: S.AssetType, v: Val, parent: Option<Val>)
    requires S.HasHeader(t.desc) && t.desc.serializable && WellFormed(t.desc) && WellNamed(t.desc) && Typed(t.desc, v)
    requires t.desc.body.fields[S.HeaderIndex(t.desc.body.fields)].serializable && Emit(t.desc, v, Object(map[])).Some?
    requires S.Validate(t, S.HeaderOf(t.desc, v)) == S.SER_SUCCESS && (parent.Some? ==> Typed(t.desc, parent.value))
    ensures var h := S.HeaderOf(t.desc, v);
            var (result, out) := Deserialized(t, Emit(t.desc, v, Object(map[])).value, parent);
            if S.MaidAt(h, 6).IsValid() && !UsableParent(h, parent) then (result, out) == (S.SER_FAILURE, None)
            else result == S.SER_SUCCESS && out.Some? && Restored(t.desc, v, out.value)
  {
    WrittenHeader(t, v);
    DefaultTyped(t.desc);
    WrittenDocumentRestores(t.desc, v, if parent.Some? then parent.value else Default(t.desc));
  }

  /** The written object is of the type and its header validates. */
  lemma StampedIsObject(t: S.AssetType, obj: Val, items: seq<Maid>)
    requires S.IsObject(t.desc, obj) && S.HasHeader(t.desc)
    ensures S.HeaderOf(t.desc, obj).Rec? && |S.HeaderOf(t.desc, obj).members| == 8
    ensures var v := Stamped(t, obj, items);
            Typed(t.desc, v) && S.Validate(t, S.HeaderOf(t.desc, v)) == S.SER_SUCCESS
  {
    HeaderComplete(t, obj);
    var fs, k, v := t.desc.body.fields, S.HeaderIndex(t.desc.body.fields), Stamped(t, obj, items);
    StampedHeader(t, obj.members[k], items);
    OneReplaced(fs, obj.members, k, v.members[k]);
  }

  lemma OneReplaced(fs: seq<TypeDesc>, vs: seq<Val>, k: nat, x: Val)
    requires |fs| == |vs| && k < |fs| && MembersTyped(fs, vs) && (fs[k].Walked() ==> Typed(fs[k], x))
    ensures MembersTyped(fs, vs[k := x])
  {
    forall j | 0 <= j < |fs| && fs[j].Walked() ensures Typed(fs[j], vs[k := x][j]) {
      if j != k { assert vs[k := x][j] == vs[j]; }
    }
  }

  lemma StampedHeader(t: S.AssetType, h: Val, items: seq<Maid>)
    requires Typed(S.TD_HEADER, h)
    ensures h.Rec? && |h.members| == 8
    ensures var r := Rec(S.Stamp(t, h).members[7 := Arr(MaidVals(items))]);
            Typed(S.TD_HEADER, r) && S.Validate(t, r) == S.SER_SUCCESS
  {
    S.StampTyped(t, h);
    var ms := S.Stamp(t, h).members[7 := Arr(MaidVals(items))];
    forall i | 0 <= i < |items| ensures Typed(TD_MAID, MaidVals(items)[i]) { MaidTyped(items[i]); }
    assert AllTyped(TD_MAID, MaidVals(items));
    forall i | 0 <= i < 8 ensures Typed(S.HEADER_FIELDS[i], ms[i]) {
      if i < 7 { assert ms[i] == S.Stamp(t, h).members[i] && S.HEADER_FIELDS[i].Walked(); } else { assert S.HEADER_FIELDS[7].body == DynArray(TD_MAID); }
    }
    LE32RoundTrip(S.MAGIC);
    LE32RoundTrip(S.FORMAT_VERSION);
    LE32RoundTrip(t.version);
    LE32RoundTrip(t.nameHash);
  }

  /** Stamping changes the header only, and in it neither the asset's id nor its parent's. */
  lemma StampedKeeps(t: S.AssetType, obj: Val, items: seq<Maid>)
    requires S.IsObject(t.desc, obj) && S.HasHeader(t.desc)
    ensures S.HeaderOf(t.desc, obj).Rec? && |S.HeaderOf(t.desc, obj).members| == 8
    ensures var k, v := S.HeaderIndex(t.desc.body.fields), Stamped(t, obj, items);
            && v.Rec? && |v.members| == |obj.members| && (forall i | 0 <= i < |v.members| && i != k :: v.members[i] == obj.members[i])
            && v.members[k].Rec? && |v.members[k].members| == 8
            && v.members[k].members[5] == obj.members[k].members[5] && v.members[k].members[6] == obj.members[k].members[6]
            && S.WordsOf(t, v.members[k]) && v.members[k].members[7] == Arr(MaidVals(items))
  {
    HeaderComplete(t, obj);
    S.PreparedKeeps(t, obj);
  }

  /**
   Saving an object and loading it again. The document's header names the object's own id and parent; it is read back
   exactly when that parent can be used, and then the header has the same ids and the list, and every other visited
   member is the object's.
   */
  lemma SavedDocument(t: S.AssetType, obj: Val, items: seq<Maid>, parent: Option<Val>, own: Maid, up: Maid)
    requires S.IsObject(t.desc, obj) && S.HasHeader(t.desc) && t.desc.serializable && WellNamed(t.desc)
    requires t.desc.body.fields[S.HeaderIndex(t.desc.body.fields)].serializable && (parent.Some? ==> Typed(t.desc, parent.value))
    requires NamesIds(S.HeaderOf(t.desc, obj), own, up) && Emit(t.desc, Stamped(t, obj, items), Object(map[])).Some?
    ensures var doc, fs, k := Emit(t.desc, Stamped(t, obj, items), Object(map[])).value, t.desc.body.fields, S.HeaderIndex(t.desc.body.fields);
            var (result, out) := Deserialized(t, doc, parent);
            && HeaderIn(doc).Some? && S.MaidAt(HeaderIn(doc).value, 5) == own && S.MaidAt(HeaderIn(doc).value, 6) == up
            && (result == S.SER_SUCCESS <==> !up.IsValid() || (up.kind == own.kind && parent.Some?))
            && (result == S.SER_SUCCESS ==>
                  && out.Some? && out.value.Rec? && |out.value.members| == |fs|
                  && S.MaidAt(out.value.members[k], 5) == own && S.MaidAt(out.value.members[k], 6) == up
                  && forall i | 0 <= i < |fs| && i != k && fs[i].Walked() :: Restored(fs[i], obj.members[i], out.value.members[i]))
  {
    var fs, k, v := t.desc.body.fields, S.HeaderIndex(t.desc.body.fields), Stamped(t, obj, items);
    StampedIsObject(t, obj, items);
    StampedKeeps(t, obj, items);
    S.HeaderReads(v.members[k], 5, 0, own);
    S.HeaderReads(v.members[k], 6, 0, up);
    WrittenHeader(t, v);
    AssetRoundTrip(t, v, parent);
    var (result, out) := Deserialized(t, Emit(t.desc, v, Object(map[])).value, parent);
    if result == S.SER_SUCCESS { HeaderRestored(t, v, out.value, own, up); }
  }

  lemma HeaderRestored(t: S.AssetType, v: Val, w: Val, own: Maid, up: Maid)
    requires S.HasHeader(t.desc) && t.desc.serializable && Restored(t.desc, v, w)
    requires var k := S.HeaderIndex(t.desc.body.fields);
             t.desc.body.fields[k].serializable && S.MaidAt(v.members[k], 5) == own && S.MaidAt(v.members[k], 6) == up
    ensures var k := S.HeaderIndex(t.desc.body.fields); S.MaidAt(w.members[k], 5) == own && S.MaidAt(w.members[k], 6) == up
  {
    var fs, k := t.desc.body.fields, S.HeaderIndex(t.desc.body.fields);
    assert fs[k].Walked() && Restored(fs[k], v.members[k], w.members[k]);
    HeaderSame(v.members[k], w.members[k]);
  }

  /** What `SerializeBlocking` writes of an asset is read back with every serializable member as written. */
  lemma SerializedRoundTrip(t: S.AssetType, obj: Val, items: seq<Maid>, parent: Option<Val>)
    requires S.IsObject(t.desc, obj) && S.HasHeader(t.desc) && t.desc.serializable && WellNamed(t.desc)
    requires t.desc.body.fields[S.HeaderIndex(t.desc.body.fields)].serializable && (parent.Some? ==> Typed(t.desc, parent.value))
    ensures S.HeaderOf(t.desc, obj).Rec? && |S.HeaderOf(t.desc, obj).members| == 8
    ensures var v := Stamped(t, obj, items);
            var doc := Emit(t.desc, v, Object(map[]));
            doc.Some? ==>
              var (result, out) := Deserialized(t, doc.value, parent);
              if S.MaidAt(S.HeaderOf(t.desc, v), 6).IsValid() && !UsableParent(S.HeaderOf(t.desc, v), parent) then (result, out) == (S.SER_FAILURE, None)
              else result == S.SER_SUCCESS && out.Some? && Restored(t.desc, v, out.value)
  {
    StampedIsObject(t, obj, items);
    if Emit(t.desc, Stamped(t, obj, items), Object(map[])).Some? { AssetRoundTrip(t, Stamped(t, obj, items), parent); }
  }

  /** A version mismatch is reported exactly when the document is of the reader's type in another version; one of another type is never read. */
  lemma ForeignReader(t: S.AssetType, reader: S.AssetType, v: Val, parent: Option<Val>)
    requires S.HasHeader(t.desc) && t.desc.serializable && WellFormed(t.desc) && WellNamed(t.desc) && Typed(t.desc, v)
    requires t.desc.body.fields[S.HeaderIndex(t.desc.body.fields)].serializable && Emit(t.desc, v, Object(map[])).Some?
    requires S.Validate(t, S.HeaderOf(t.desc, v)) == S.SER_SUCCESS
    ensures var (result, out) := Deserialized(reader, Emit(t.desc, v, Object(map[])).value, parent);
            && (result == S.SER_VERSION_MISMATCH <==> reader.nameHash == t.nameHash && reader.version != t.version)
            && (reader.nameHash != t.nameHash ==> (result, out) == (S.SER_FAILURE, None))
  {
    WrittenHeader(t, v);
  }
}
