/**
 The blocking entry points in binary mode: three serializer passes that first collect the
 asset dependencies, then measure, then write; and the reader with its header check.
 */
module Serialize {
  import opened Common
  import opened Bytes
  import opened Reflection
  import opened BinaryFormat
  import opened BinaryLaws
  import opened C = Chunker
  import opened BinaryWalk

  const MAGIC: u32 := 0x5341_454D
  const FORMAT_VERSION: u32 := 1

  const TD_HEADER := TypeOf("meSerializedHeader", 72, Struct(HEADER_FIELDS, HEADER_DEFAULTS))
  const HEADER_FIELDS := [
    FieldOf("magic", TD_U32), FieldOf("formatVersion", TD_U32), FieldOf("typeVersion", TD_U32),
    FieldOf("typeNameHash", TD_U32), FieldOf("payloadSize", TD_U32),
    FieldOf("assetHeader", TD_MAID), FieldOf("parentAsset", TD_MAID),
    TypeDesc("dependencies", true, 32, DynArray(TD_MAID))]
  const HEADER_DEFAULTS := [
    Prim(LE32(MAGIC)), Prim(LE32(FORMAT_VERSION)), Prim(LE32(0)), Prim(LE32(0)), Prim(LE32(0)),
    MaidVal(NO_MAID), MaidVal(NO_MAID), Arr([])]

  /** A reflected type with the two numbers the header is checked against. */
  datatype AssetType = AssetType(desc: TypeDesc, version: u32, nameHash: u32)

  datatype ResultCode = SER_FAILURE | SER_VERSION_MISMATCH | SER_SUCCESS

  // ---------------------------------------------------------------- the header inside an object

  predicate IsSerializedHeaderField(f: TypeDesc) { f.body == AliasOf(TD_HEADER) && f.name == "header" }

  /** Index of the first header field; |fs| when there is none. */
  function HeaderIndex(fs: seq<TypeDesc>): (i: nat)
    ensures i <= |fs| && (i < |fs| ==> IsSerializedHeaderField(fs[i]))
    ensures forall j | 0 <= j < i :: !IsSerializedHeaderField(fs[j])
  {
    if fs == [] || IsSerializedHeaderField(fs[0]) then 0 else 1 + HeaderIndex(fs[1..])
  }

  predicate HasHeader(d: TypeDesc) { d.body.Struct? && HeaderIndex(d.body.fields) < |d.body.fields| }

  /** An object of the type, with a complete header if the type has one. */
  ghost predicate IsObject(d: TypeDesc, obj: Val) {
    && WellFormed(d) && Typed(d, obj)
    && (HasHeader(d) ==> obj.Rec? && |obj.members| == |d.body.fields|
                         && Typed(TD_HEADER, obj.members[HeaderIndex(d.body.fields)]))
  }

  function HeaderOf(d: TypeDesc, obj: Val): Val
    requires HasHeader(d) && obj.Rec? && |obj.members| == |d.body.fields|
  {
    obj.members[HeaderIndex(d.body.fields)]
  }

  /** A header stamped for type `t`; its dependency array is the pass's live list. */
  function Stamp(t: AssetType, header: Val): Val
    requires header.Rec? && |header.members| == 8
  {
    Rec([Prim(LE32(MAGIC)), Prim(LE32(FORMAT_VERSION)), Prim(LE32(t.version)), Prim(LE32(t.nameHash)), Prim(LE32(0)),
         header.members[5], header.members[6], Live])
  }

  /** `PrepareSerializedHeaderInAssetData`. */
  function Prepared(t: AssetType, obj: Val): Val
    requires HasHeader(t.desc) ==> obj.Rec? && |obj.members| == |t.desc.body.fields|
    requires HasHeader(t.desc) ==> HeaderOf(t.desc, obj).Rec? && |HeaderOf(t.desc, obj).members| == 8
  {
    if HasHeader(t.desc)
    then Rec(obj.members[HeaderIndex(t.desc.body.fields) := Stamp(t, HeaderOf(t.desc, obj))])
    else obj
  }

  /** Only the header changes, and in it neither the ids nor what a reader checks for them: the words are those of the type. */
  lemma PreparedKeeps(t: AssetType, obj: Val)
    requires IsObject(t.desc, obj) && HasHeader(t.desc)
    ensures var k, p := HeaderIndex(t.desc.body.fields), Prepared(t, obj);
            && obj.members[k].Rec? && |obj.members[k].members| == 8
            && p.Rec? && |p.members| == |obj.members| && (forall i | 0 <= i < |p.members| && i != k :: p.members[i] == obj.members[i])
            && p.members[k].Rec? && |p.members[k].members| == 8
            && p.members[k].members[5] == obj.members[k].members[5] && p.members[k].members[6] == obj.members[k].members[6]
            && WordsOf(t, p.members[k]) && p.members[k].members[7] == Live
  {
    HeaderWellFormed();
  }

  /** The five words in front of a header that was written for type `t`; the payload size is not used. */
  ghost predicate WordsOf(t: AssetType, h: Val)
    requires h.Rec? && |h.members| == 8
  {
    forall i | 0 <= i < 5 :: h.members[i] == Prim(LE32([MAGIC, FORMAT_VERSION, t.version, t.nameHash, 0][i]))
  }

  lemma HeaderWellFormed()
    ensures WellFormed(TD_HEADER)
    ensures forall h | Typed(TD_HEADER, h) :: h.Rec? && |h.members| == 8
  {
    MaidTyped(NO_MAID);
    assert Typed(TD_U32, Prim(LE32(MAGIC))) && Typed(TD_U32, Prim(LE32(FORMAT_VERSION))) && Typed(TD_U32, Prim(LE32(0)));
    forall i | 0 <= i < 8 ensures WellFormed(HEADER_FIELDS[i]) && Typed(HEADER_FIELDS[i], HEADER_DEFAULTS[i]) {
      if i == 5 || i == 6 {
        assert HEADER_FIELDS[i].body == AliasOf(TD_MAID) && HEADER_DEFAULTS[i] == MaidVal(NO_MAID);
      } else if i < 5 {
        assert HEADER_FIELDS[i].body == AliasOf(TD_U32);
      } else {
        assert AllTyped(TD_MAID, []);
      }
    }
  }

  lemma StampTyped(t: AssetType, h: Val)
    requires Typed(TD_HEADER, h)
    ensures h.Rec? && |h.members| == 8 && Typed(TD_HEADER, Stamp(t, h))
  {
    HeaderWellFormed();
    var ms := Stamp(t, h).members;
    forall i | 0 <= i < 8 ensures Typed(HEADER_FIELDS[i], ms[i]) {
      if i < 5 {
        assert HEADER_FIELDS[i].body == AliasOf(TD_U32) && Typed(TD_U32, ms[i]);
      } else if i < 7 {
        assert HEADER_FIELDS[i].Walked() && Typed(HEADER_FIELDS[i], h.members[i]);
      }
    }
  }

  lemma PreparedIsObject(t: AssetType, obj: Val)
    requires IsObject(t.desc, obj)
    ensures HasHeader(t.desc) ==> HeaderOf(t.desc, obj).Rec? && |HeaderOf(t.desc, obj).members| == 8
    ensures IsObject(t.desc, Prepared(t, obj))
    ensures Prepared(t, Prepared(t, obj)) == Prepared(t, obj)
  {
    HeaderWellFormed();
    if HasHeader(t.desc) {
      var fs, i := t.desc.body.fields, HeaderIndex(t.desc.body.fields);
      StampTyped(t, obj.members[i]);
      assert Typed(fs[i], Stamp(t, obj.members[i]));
      var p := Prepared(t, obj);
      assert MembersTyped(fs, obj.members);
      forall j | 0 <= j < |fs| && fs[j].Walked() ensures Typed(fs[j], p.members[j]) {
        if j == i {
          assert p.members[j] == Stamp(t, obj.members[i]);
        } else {
          assert p.members[j] == obj.members[j] && Typed(fs[j], obj.members[j]);
        }
      }
    }
  }

  // ---------------------------------------------------------------- serializing

  /** The dependency list as the walk of an object of type `d` sees it. */
  function Tracked(d: TypeDesc, items: seq<Maid>): Deps {
    if HasHeader(d) then On(items) else Off
  }

  /** One pass over the prepared object. */
  method SerializeChunkerPass(t: AssetType, obj: Val, list: DependencyList, pass: Pass, buf: array<byte>, reset: bool)
    returns (ok: bool, source: Val, size: nat)
    requires IsObject(t.desc, obj) && (pass == Measure || pass == Write)
    modifies list, buf
    ensures IsObject(t.desc, source)
    ensures HasHeader(t.desc) ==> HeaderOf(t.desc, obj).Rec? && |HeaderOf(t.desc, obj).members| == 8
    ensures source == Prepared(t, obj)
    ensures var d0 := Tracked(t.desc, if reset then [] else old(list.items));
            match Emit(t.desc, source, d0)
            case None => !ok
            case Some(b) =>
              && (ok <==> pass == Measure || |b| <= buf.Length)
              && (ok ==> size == |b| && Tracked(t.desc, list.items) == AddAll(d0, Assets(t.desc, source)))
              && (ok && pass == Write ==> buf[..] == b + old(buf[|b|..]))
    ensures !HasHeader(t.desc) ==> list.items == old(list.items)
  {
    PreparedIsObject(t, obj);
    source := Prepared(t, obj);
    var deps: DependencyList? := null;
    if HasHeader(t.desc) {
      deps := list;
      if reset {
        list.items := [];
      }
    }
    var ch := new Chunker(pass, buf);
    ghost var s := ch.Snap();
    var walked;
    ok, walked := Walk(t.desc, ch, source, deps);
    size := ch.cursor;
    if ok && pass == Write && ch.pass != Write {
      ok := false;
    }
    ghost var emitted := Emit(t.desc, source, Tracked(t.desc, if reset then [] else old(list.items)));
    if emitted.Some? && ok && pass == Write {
      assert buf[..] == s.mem[..0] + emitted.value + s.mem[|emitted.value|..];
    }
  }

  function Size(deps: Deps): nat { if deps.On? then |deps.items| else 0 }

  /** A longer list never makes a pass fail less often: sizes only matter by fitting a u32. */
  lemma {:induction false} EmitSomeMonotone(d: TypeDesc, v: Val, a: Deps, b: Deps)
    requires a.On? <==> b.On?
    requires a.On? ==> Covered(b, Assets(d, v)) && Size(AddAll(a, Assets(d, v))) <= Size(b)
    requires Typed(d, v) && Emit(d, v, b).Some?
    ensures Emit(d, v, a).Some?
    decreases d, 0
  {
    if d.serializable {
      match d.body
      case DynArray(e) =>
        if v.Live? {
          AddAllGrows(a, []);
          MaidHasNoAssets(MaidVals(a.items));
          MaidsEmit(a.items, a);
        } else {
          EmitAllSomeMonotone(e, v.elems, a, b);
        }
      case ConstantArray(e, _) => EmitAllSomeMonotone(e, v.elems, a, b);
      case AliasOf(t) => EmitSomeMonotone(t, v, a, b);
      case Struct(fs, _) => EmitMembersSomeMonotone(fs, v.members, a, b);
      case _ =>
    }
  }

  lemma {:induction false} AddAllGrows(a: Deps, ms: seq<Maid>)
    requires a.On?
    ensures AddAll(a, ms).On? && Size(a) <= Size(AddAll(a, ms))
    decreases |ms|
  {
    if ms != [] { AddAllGrows(AddDep(a, ms[0]), ms[1..]); }
  }

  lemma {:induction false} MaidsEmit(ms: seq<Maid>, deps: Deps)
    ensures EmitAll(TD_MAID, MaidVals(ms), deps).Some?
    decreases |ms|
  {
    if ms != [] {
      var vs := MaidVals(ms);
      assert vs[1..] == MaidVals(ms[1..]);
      MaidHasNoAssets([vs[0]]);
      MaidsEmit(ms[1..], AddAll(deps, Assets(TD_MAID, vs[0])));
      var fs, xs := TD_MAID.body.fields, vs[0].members;
      assert Emit(TD_U32, xs[0], deps).Some?;
      var deps1 := AddAll(deps, Assets(fs[0], xs[0]));
      assert Emit(TD_U32, xs[1..][0], deps1).Some? && Emit(fs[1..][0], xs[1..][0], deps1).Some?;
      assert EmitMembers(fs[1..][1..], xs[1..][1..], AddAll(deps1, Assets(fs[1..][0], xs[1..][0]))).Some?;
      assert EmitMembers(fs[1..], xs[1..], deps1).Some?;
      assert EmitMembers(fs, xs, deps).Some?;
    }
  }

  lemma {:induction false} EmitAllSomeMonotone(e: TypeDesc, vs: seq<Val>, a: Deps, b: Deps)
    requires a.On? <==> b.On?
    requires a.On? ==> Covered(b, AssetsOfAll(e, vs)) && Size(AddAll(a, AssetsOfAll(e, vs))) <= Size(b)
    requires AllTyped(e, vs) && EmitAll(e, vs, b).Some?
    ensures EmitAll(e, vs, a).Some?
    decreases e, |vs|
  {
    if vs != [] {
      StepMonotone(a, b, Assets(e, vs[0]), AssetsOfAll(e, vs[1..]));
      EmitSomeMonotone(e, vs[0], a, b);
      EmitAllSomeMonotone(e, vs[1..], AddAll(a, Assets(e, vs[0])), b);
    }
  }

  lemma {:induction false} EmitMembersSomeMonotone(fs: seq<TypeDesc>, vs: seq<Val>, a: Deps, b: Deps)
    requires a.On? <==> b.On?
    requires a.On? ==> Covered(b, AssetsOfMembers(fs, vs)) && Size(AddAll(a, AssetsOfMembers(fs, vs))) <= Size(b)
    requires |fs| == |vs| && MembersTyped(fs, vs) && EmitMembers(fs, vs, b).Some?
    ensures EmitMembers(fs, vs, a).Some?
    decreases fs, 0
  {
    if fs != [] {
      var here := if fs[0].Walked() then Assets(fs[0], vs[0]) else [];
      StepMonotone(a, b, here, AssetsOfMembers(fs[1..], vs[1..]));
      if fs[0].Walked() {
        EmitSomeMonotone(fs[0], vs[0], a, b);
      }
      EmitMembersSomeMonotone(fs[1..], vs[1..], AddAll(a, here), b);
    }
  }

  lemma StepMonotone(a: Deps, b: Deps, x: seq<Maid>, y: seq<Maid>)
    requires a.On? <==> b.On?
    requires a.On? ==> Covered(b, x + y) && Size(AddAll(a, x + y)) <= Size(b)
    ensures Covered(b, x) && Covered(b, y) && AddAll(b, x) == b
    ensures a.On? ==> AddAll(a, x).On? && Size(AddAll(a, x)) <= Size(b) && Size(AddAll(AddAll(a, x), y)) <= Size(b)
    ensures a.Off? ==> AddAll(a, x).Off?
  {
    AddAllConcat(a, x, y);
    assert Covered(b, x) && Covered(b, y) by { if b.On? { assert forall m | m in x || m in y :: m in x + y; } }
    AddAllCovered(b, x);
    if a.On? {
      AddAllGrows(a, x);
      AddAllGrows(AddAll(a, x), y);
    } else {
      AddAllCovered(a, x);
    }
  }

  /**
   `SerializeChunkedBlocking`. On success the dependency list is the first-occurrence list of
   exactly the valid asset ids the walk meets, the blob holds the object with that list, and
   its size is the size the second pass measured.
   */
  method SerializeBlocking(t: AssetType, obj: Val, list: DependencyList) returns (result: ResultCode, source: Val, blob: array<byte>)
    requires IsObject(t.desc, obj)
    modifies list
    ensures fresh(blob) && IsObject(t.desc, source)
    ensures HasHeader(t.desc) ==> HeaderOf(t.desc, obj).Rec? && |HeaderOf(t.desc, obj).members| == 8
    ensures source == Prepared(t, obj)
    ensures result != SER_VERSION_MISMATCH
    ensures var found := AddAll(Tracked(t.desc, []), Assets(t.desc, source));
            var emitted := Emit(t.desc, source, found);
            && (result == SER_SUCCESS <==> emitted.Some? && emitted.value != [])
            && (result == SER_SUCCESS ==> blob[..] == emitted.value && Tracked(t.desc, list.items) == found)
            && (result == SER_SUCCESS && HasHeader(t.desc) ==> IsFirstOccurrences(list.items, Assets(t.desc, source)))
  {
    blob := new byte[0];
    var ok, size;
    ok, source, size := SerializeChunkerPass(t, obj, list, Measure, blob, true);
    PreparedIsObject(t, obj);
    ghost var refs := Assets(t.desc, source);
    ghost var start, found := Tracked(t.desc, []), AddAll(Tracked(t.desc, []), refs);
    FixpointReached(t, source);
    if !ok {
      return SER_FAILURE, source, blob;
    }
    assert Tracked(t.desc, list.items) == found;
    ok, source, size := SerializeChunkerPass(t, source, list, Measure, blob, false);
    if !ok || size == 0 {
      return SER_FAILURE, source, blob;
    }
    var measured := size;
    blob := new byte[measured];
    ok, source, size := SerializeChunkerPass(t, source, list, Write, blob, false);
    assert ok && size == measured;
    assert blob[..] == Emit(t.desc, source, found).value;
    result := SER_SUCCESS;
  }

  /** One pass collects everything: later passes find the list complete and leave it alone. */
  lemma FixpointReached(t: AssetType, source: Val)
    requires IsObject(t.desc, source)
    ensures var refs := Assets(t.desc, source);
            var found := AddAll(Tracked(t.desc, []), refs);
            && (HasHeader(t.desc) ==> found.On? && IsFirstOccurrences(found.items, refs))
            && Covered(found, refs) && AddAll(found, refs) == found
            && (Emit(t.desc, source, found).Some? ==> Emit(t.desc, source, Tracked(t.desc, [])).Some?)
  {
    var refs := Assets(t.desc, source);
    var start := Tracked(t.desc, []);
    var found := AddAll(start, refs);
    if HasHeader(t.desc) {
      CollectFirstOccurrences(refs);
    } else {
      AddAllCovered(Off, refs);
    }
    AddAllCovered(found, refs);
    if Emit(t.desc, source, found).Some? {
      EmitSomeMonotone(t.desc, source, start, found);
    }
  }

  // ---------------------------------------------------------------- deserializing

  /** A u32 member of a header that has been read. */
  function Word(h: Val, i: nat): Option<u32> {
    if h.Rec? && i < |h.members| && h.members[i].Prim? && |h.members[i].raw| == 4 then Some(FromLE32(h.members[i].raw)) else None
  }

  function MaidAt(h: Val, i: nat): Maid {
    if h.Rec? && i < |h.members| && Word(h.members[i], 0).Some? && Word(h.members[i], 1).Some?
    then Maid(Word(h.members[i], 0).value, Word(h.members[i], 1).value)
    else NO_MAID
  }

  /** Words and ids of a header are read as they stand in it. */
  lemma HeaderReads(h: Val, i: nat, w: u32, m: Maid)
    requires h.Rec? && i < |h.members|
    ensures h.members[i] == Prim(LE32(w)) ==> Word(h, i) == Some(w)
    ensures h.members[i] == MaidVal(m) ==> MaidAt(h, i) == m
  {
    LE32RoundTrip(w);
    LE32RoundTrip(m.id);
    LE32RoundTrip(m.kind);
  }

  /**
   The verdict on a header with the words `w`: accepted exactly for magic, format, name and version of the type, and a
   version mismatch exactly when only the version is another.
   */
  lemma ValidateExact(t: AssetType, h: Val, w: seq<u32>)
    requires h.Rec? && |h.members| >= 4 && |w| == 4 && forall i | 0 <= i < 4 :: h.members[i] == Prim(LE32(w[i]))
    ensures Validate(t, h) == SER_SUCCESS <==> w == [MAGIC, FORMAT_VERSION, t.version, t.nameHash]
    ensures Validate(t, h) == SER_VERSION_MISMATCH <==> w[..2] == [MAGIC, FORMAT_VERSION] && w[2] != t.version && w[3] == t.nameHash
  {
    forall i: nat | i < 4 ensures Word(h, i) == Some(w[i]) { LE32RoundTrip(w[i]); }
    assert Word(h, 0) == Some(w[0]) && Word(h, 1) == Some(w[1]) && Word(h, 2) == Some(w[2]) && Word(h, 3) == Some(w[3]);
    assert w == [w[0], w[1], w[2], w[3]] && w[..2] == [w[0], w[1]];
  }

  /** `SerializedBufferStartsWithBinaryHeader`: magic and format version sit in front. */
  predicate StartsWithBinaryHeader(b: bytes) {
    |b| >= 8 && FromLE32(b[..4]) == MAGIC && FromLE32(b[4..8]) == FORMAT_VERSION
  }

  /** `ValidateSerializedHeader`. */
  function Validate(t: AssetType, h: Val): ResultCode {
    if Word(h, 0) != Some(MAGIC) || Word(h, 1) != Some(FORMAT_VERSION) then SER_FAILURE
    else if Word(h, 3) != Some(t.nameHash) then SER_FAILURE
    else if Word(h, 2) != Some(t.version) then SER_VERSION_MISMATCH
    else SER_SUCCESS
  }

  /**
   A copied parent with every top-level member that will be read destroyed and set to the
   default of its own type (`ResetFieldBeforeDeserialize`). The binary walk finds every
   member present, and resetting one just before it is read or all of them first is the same.
   */
  function Reset(d: TypeDesc, base: Val): Val
    decreases d, 0
  {
    match d.body
    case AliasOf(t) => Reset(t, base)
    case ConstantArray(e, _) => if base.Arr? then Arr(ResetAll(e, base.elems)) else base
    case Struct(fs, _) => if base.Rec? && |base.members| == |fs| then Rec(ResetMembers(fs, base.members)) else base
    case _ => base
  }

  function ResetAll(e: TypeDesc, vs: seq<Val>): (r: seq<Val>)
    ensures |r| == |vs|
    decreases e, |vs|
  {
    if vs == [] then [] else [Reset(e, vs[0])] + ResetAll(e, vs[1..])
  }

  function ResetMembers(fs: seq<TypeDesc>, vs: seq<Val>): (r: seq<Val>)
    requires |fs| == |vs|
    ensures |r| == |vs| && forall i | 0 <= i < |fs| :: r[i] == if fs[i].Walked() then Default(fs[i]) else vs[i]
  {
    seq(|fs|, i requires 0 <= i < |fs| => if fs[i].Walked() then Default(fs[i]) else vs[i])
  }

  lemma {:induction false} ResetTyped(d: TypeDesc, base: Val)
    requires WellFormed(d) && Typed(d, base)
    ensures Typed(d, Reset(d, base))
    decreases d, 0
  {
    match d.body
    case AliasOf(t) => ResetTyped(t, base);
    case ConstantArray(e, _) => ResetAllTyped(e, base.elems);
    case Struct(fs, _) =>
      forall i | 0 <= i < |fs| && fs[i].Walked() ensures Typed(fs[i], ResetMembers(fs, base.members)[i]) {
        DefaultTyped(fs[i]);
      }
    case _ =>
  }

  lemma {:induction false} ResetAllTyped(e: TypeDesc, vs: seq<Val>)
    requires WellFormed(e) && AllTyped(e, vs)
    ensures AllTyped(e, ResetAll(e, vs))
    decreases e, |vs|
  {
    if vs != [] {
      ResetTyped(e, vs[0]);
      ResetAllTyped(e, vs[1..]);
    }
  }

  /**
   The storage the Read pass starts from: the parent's copy, reset, when the header names a
   parent of the same type that could be loaded, the defaults when it names none, nothing when
   the parent is unusable.
   */
  function Inherited(t: AssetType, h: Val, parent: Option<Val>): Option<Val> {
    if !MaidAt(h, 6).IsValid() then Some(Default(t.desc))
    else if MaidAt(h, 6).kind != MaidAt(h, 5).kind || parent.None? then None
    else Some(Reset(t.desc, parent.value))
  }

  /** The header in front of a blob, if it looks like one and can be read. */
  function HeaderIn(blob: bytes): Reading<Val> {
    if StartsWithBinaryHeader(blob) then Decode(TD_HEADER, Default(TD_HEADER), blob) else Refused
  }

  /** Binary `DeserializeChunkedBlocking` as a function of the blob. */
  function Deserialized(t: AssetType, blob: bytes, parent: Option<Val>): (ResultCode, Option<Val>) {
    var header := HeaderIn(blob);
    if HasHeader(t.desc) && !header.Got? then (SER_FAILURE, None)
    else if header.Got? && Validate(t, header.value) != SER_SUCCESS then (Validate(t, header.value), None)
    else
      var base := if header.Got? then Inherited(t, header.value, parent) else Some(Default(t.desc));
      if base.None? then (SER_FAILURE, None)
      else
        match Decode(t.desc, base.value, blob)
        case Got(v, _) => (SER_SUCCESS, Some(v))
        case _ => (SER_FAILURE, None)
  }

  /** One Read pass over the buffer that has to end in Read mode. */
  method ReadPass(d: TypeDesc, blob: array<byte>, base: Val) returns (out: Option<Val>)
    requires WellFormed(d) && Typed(d, base)
    modifies blob
    ensures blob[..] == old(blob[..])
    ensures match Decode(d, base, old(blob[..]))
            case Got(v, _) => out == Some(v)
            case _ => out == None
  {
    var ch := new Chunker(Read, blob);
    assert ch.Snap().Unread() == blob[..];
    var ok, v := Walk(d, ch, base, null);
    out := if ok && ch.pass == Read then Some(v) else None;
  }

  /** `TryReadSerializedHeaderField`: a Read pass of its own over the front of the buffer. */
  method TryReadSerializedHeaderField(blob: array<byte>) returns (header: Option<Val>)
    modifies blob
    ensures blob[..] == old(blob[..])
    ensures match HeaderIn(old(blob[..]))
            case Got(v, _) => header == Some(v)
            case _ => header == None
  {
    HeaderWellFormed();
    DefaultTyped(TD_HEADER);
    header := None;
    if StartsWithBinaryHeader(blob[..]) {
      header := ReadPass(TD_HEADER, blob, Default(TD_HEADER));
    }
  }

  method DeserializeBlocking(t: AssetType, blob: array<byte>, parent: Option<Val>) returns (result: ResultCode, out: Option<Val>)
    requires WellFormed(t.desc) && (parent.Some? ==> Typed(t.desc, parent.value))
    modifies blob
    ensures blob[..] == old(blob[..])
    ensures (result, out) == Deserialized(t, old(blob[..]), parent)
  {
    var header := TryReadSerializedHeaderField(blob);
    if header.Some? && Validate(t, header.value) != SER_SUCCESS {
      return Validate(t, header.value), None;
    }
    if HasHeader(t.desc) && header.None? {
      return SER_FAILURE, None;
    }
    var base := if header.Some? then Inherited(t, header.value, parent) else Some(Default(t.desc));
    if base.None? {
      return SER_FAILURE, None;
    }
    DefaultTyped(t.desc);
    if parent.Some? { ResetTyped(t.desc, parent.value); }
    out := ReadPass(t.desc, blob, base.value);
    result := if out.Some? then SER_SUCCESS else SER_FAILURE;
  }
}
