/** The laws of the binary format: reading undoes writing, and no strict prefix can be read. */
module BinaryLaws {
  import opened Common
  import opened Bytes
  import opened Reflection
  import opened BinaryFormat

  lemma ConcatSplit(a: bytes, b: bytes)
    ensures (a + b)[..|a|] == a && (a + b)[|a|..] == b
  {
  }

  lemma ReadU32Written(n: u32, rest: bytes)
    ensures ReadU32(LE32(n) + rest) == Got(n, rest)
  {
    ConcatSplit(LE32(n), rest);
    LE32RoundTrip(n);
  }

  lemma ReadSizedWritten(s: bytes, rest: bytes)
    ensures ReadSized(SizedBytes(s) + rest) == Got(Truncated(s), rest)
  {
    var t := Truncated(s);
    assert SizedBytes(s) + rest == LE32(|t|) + (t + rest);
    ReadU32Written(|t|, t + rest);
    ConcatSplit(t, rest);
  }

  lemma ReadMaidWritten(m: Maid, rest: bytes)
    ensures ReadMaid(LE32(m.id) + LE32(m.kind) + rest) == Got(m, rest)
  {
    assert LE32(m.id) + LE32(m.kind) + rest == LE32(m.id) + (LE32(m.kind) + rest);
    ReadU32Written(m.id, LE32(m.kind) + rest);
    ReadU32Written(m.kind, rest);
  }

  /** An id struct refers to no asset of its own. */
  lemma {:induction false} MaidHasNoAssets(vs: seq<Val>)
    ensures AssetsOfAll(TD_MAID, vs) == []
    decreases |vs|
  {
    if vs != [] {
      MaidHasNoAssets(vs[1..]);
      var fs := TD_MAID.body.fields;
      if vs[0].Rec? {
        var ms := vs[0].members;
        assert Assets(TD_U32, if ms == [] then Live else ms[0]) == [];
        assert AssetsOfMembers(fs[1..], if ms == [] then [] else ms[1..]) == [];
        assert AssetsOfMembers(fs, ms) == [];
      }
      assert Assets(TD_MAID, vs[0]) == [];
    }
  }

  /**
   Binary round trip. Whatever the descriptor, the value, the storage read into and the
   bytes that follow: reading what was written restores every serializable member
   and stops exactly behind it.
   */
  lemma {:induction false} DecodeEmit(d: TypeDesc, base: Val, v: Val, deps: Deps, rest: bytes)
    requires WellFormed(d) && Typed(d, base) && Typed(d, v)
    requires Emit(d, v, deps).Some? && Covered(deps, Assets(d, v))
    ensures Decode(d, base, Emit(d, v, deps).value + rest) == Got(Merge(d, base, v, deps), rest)
    decreases d, 0
  {
    if d.serializable {
      var out := Emit(d, v, deps).value;
      match d.body
      case Primitive(n) => ConcatSplit(v.raw, rest);
      case SizedBuffer => ReadSizedWritten(v.data, rest);
      case String => ReadSizedWritten(v.text, rest);
      case AssetReference => ReadMaidWritten(v.ref.id, rest);
      case DynArray(e) =>
        var vs := ElemsOf(v, deps).value;
        var x := Default(e);
        var tail := EmitAll(e, vs, deps).value;
        assert out + rest == LE32(|vs|) + (tail + rest);
        ReadU32Written(|vs|, tail + rest);
        DefaultTyped(e);
        if v.Live? {
          MaidHasNoAssets(vs);
          forall i | 0 <= i < |vs| ensures Typed(e, vs[i]) { MaidTyped(deps.items[i]); }
        }
        DecodeEmitAll(e, Repeat(x, |vs|), vs, deps, rest);
      case ConstantArray(e, n) => DecodeEmitAll(e, base.elems, v.elems, deps, rest);
      case AliasOf(t) => DecodeEmit(t, base, v, deps, rest);
      case Struct(fs, _) => DecodeEmitMembers(fs, base.members, v.members, deps, rest);
    } else {
      assert Emit(d, v, deps).value + rest == rest;
    }
  }

  lemma {:induction false} DecodeEmitAll(e: TypeDesc, bases: seq<Val>, vs: seq<Val>, deps: Deps, rest: bytes)
    requires WellFormed(e) && |bases| == |vs| && AllTyped(e, bases) && AllTyped(e, vs)
    requires EmitAll(e, vs, deps).Some? && Covered(deps, AssetsOfAll(e, vs))
    ensures DecodeAll(e, bases, EmitAll(e, vs, deps).value + rest) == Got(MergeAll(e, bases, vs, deps), rest)
    decreases e, |vs|
  {
    if vs == [] {
      assert EmitAll(e, vs, deps).value + rest == rest;
    } else {
      AddAllCovered(deps, Assets(e, vs[0]));
      var head, tail := Emit(e, vs[0], deps).value, EmitAll(e, vs[1..], deps).value;
      assert EmitAll(e, vs, deps).value + rest == head + (tail + rest);
      DecodeEmit(e, bases[0], vs[0], deps, tail + rest);
      DecodeEmitAll(e, bases[1..], vs[1..], deps, rest);
    }
  }

  lemma {:induction false} DecodeEmitMembers(fs: seq<TypeDesc>, bases: seq<Val>, vs: seq<Val>, deps: Deps, rest: bytes)
    requires |fs| == |bases| == |vs| && MembersTyped(fs, bases) && MembersTyped(fs, vs)
    requires forall i | 0 <= i < |fs| :: WellFormed(fs[i])
    requires EmitMembers(fs, vs, deps).Some? && Covered(deps, AssetsOfMembers(fs, vs))
    ensures DecodeMembers(fs, bases, EmitMembers(fs, vs, deps).value + rest) == Got(MergeMembers(fs, bases, vs, deps), rest)
    decreases fs, 0
  {
    if fs == [] {
      assert EmitMembers(fs, vs, deps).value + rest == rest;
    } else {
      if fs[0].Walked() {
        AddAllCovered(deps, Assets(fs[0], vs[0]));
        var head, tail := Emit(fs[0], vs[0], deps).value, EmitMembers(fs[1..], vs[1..], deps).value;
        assert EmitMembers(fs, vs, deps).value + rest == head + (tail + rest);
        DecodeEmit(fs[0], bases[0], vs[0], deps, tail + rest);
      }
      DecodeEmitMembers(fs[1..], bases[1..], vs[1..], deps, rest);
    }
  }

  // ---------------------------------------------------------------- truncation

  /** `r` extended by `ext`: the same value with `ext` left over as well. */
  ghost predicate Extends<T>(r: Reading<T>, r': Reading<T>, b: bytes, ext: bytes) {
    r.Got? ==> |r.rest| <= |b| && r' == Got(r.value, r.rest + ext)
  }

  lemma ReadRawExtend(n: nat, b: bytes, ext: bytes)
    ensures Extends(ReadRaw(n, b), ReadRaw(n, b + ext), b, ext)
    ensures Extends(ReadU32(b), ReadU32(b + ext), b, ext)
  {
    if n <= |b| {
      assert (b + ext)[..n] == b[..n] && (b + ext)[n..] == b[n..] + ext;
    }
    if 4 <= |b| {
      assert (b + ext)[..4] == b[..4] && (b + ext)[4..] == b[4..] + ext;
    }
  }

  lemma ReadSizedExtend(b: bytes, ext: bytes)
    ensures Extends(ReadSized(b), ReadSized(b + ext), b, ext)
    ensures Extends(ReadMaid(b), ReadMaid(b + ext), b, ext)
  {
    ReadRawExtend(0, b, ext);
    var r := ReadU32(b);
    if r.Got? {
      ReadRawExtend(r.value, r.rest, ext);
    }
  }

  /** A read that succeeds does not look past what it consumes. */
  lemma {:induction false} DecodeExtend(d: TypeDesc, base: Val, b: bytes, ext: bytes)
    ensures Extends(Decode(d, base, b), Decode(d, base, b + ext), b, ext)
    decreases d, 0
  {
    if d.serializable {
      match d.body
      case Primitive(n) => ReadRawExtend(n, b, ext);
      case SizedBuffer => ReadSizedExtend(b, ext);
      case String => ReadSizedExtend(b, ext);
      case AssetReference => ReadSizedExtend(b, ext);
      case DynArray(e) => DecodeArrayExtend(d, e, base, b, ext);
      case ConstantArray(e, n) => if base.Arr? { DecodeAllExtend(e, base.elems, b, ext); }
      case AliasOf(t) => DecodeExtend(t, base, b, ext);
      case Struct(fs, _) => if base.Rec? { DecodeMembersExtend(fs, base.members, b, ext); }
      case _ =>
    }
  }

  lemma {:induction false} DecodeArrayExtend(d: TypeDesc, e: TypeDesc, base: Val, b: bytes, ext: bytes)
    requires d.serializable && d.body == DynArray(e)
    ensures Extends(Decode(d, base, b), Decode(d, base, b + ext), b, ext)
    decreases e
  {
    ReadRawExtend(0, b, ext);
    var r := ReadU32(b);
    if r.Got? {
      var x := Default(e);
      DecodeAllExtend(e, Repeat(x, r.value), r.rest, ext);
    }
  }

  lemma {:induction false} DecodeAllExtend(e: TypeDesc, bases: seq<Val>, b: bytes, ext: bytes)
    ensures Extends(DecodeAll(e, bases, b), DecodeAll(e, bases, b + ext), b, ext)
    decreases e, |bases|
  {
    if bases != [] {
      DecodeExtend(e, bases[0], b, ext);
      var r := Decode(e, bases[0], b);
      if r.Got? {
        DecodeAllExtend(e, bases[1..], r.rest, ext);
      }
    }
  }

  lemma {:induction false} DecodeMembersExtend(fs: seq<TypeDesc>, bases: seq<Val>, b: bytes, ext: bytes)
    ensures Extends(DecodeMembers(fs, bases, b), DecodeMembers(fs, bases, b + ext), b, ext)
    decreases fs, 0
  {
    if fs != [] && bases != [] {
      if !fs[0].Walked() {
        DecodeMembersExtend(fs[1..], bases[1..], b, ext);
      } else {
        DecodeExtend(fs[0], bases[0], b, ext);
        var r := Decode(fs[0], bases[0], b);
        if r.Got? {
          DecodeMembersExtend(fs[1..], bases[1..], r.rest, ext);
        }
      }
    }
  }

  /** No strict prefix of a written value can be read back, whatever storage it is read into. */
  lemma TruncationDetected(d: TypeDesc, base: Val, v: Val, deps: Deps, n: nat)
    requires WellFormed(d) && Typed(d, base) && Typed(d, v)
    requires Emit(d, v, deps).Some? && Covered(deps, Assets(d, v))
    requires n < |Emit(d, v, deps).value|
    ensures !Decode(d, base, Emit(d, v, deps).value[..n]).Got?
  {
    var out := Emit(d, v, deps).value;
    DecodeExtend(d, base, out[..n], out[n..]);
    assert out[..n] + out[n..] == out == out + [];
    DecodeEmit(d, base, v, deps, []);
  }

  // ---------------------------------------------------------------- when the round trip is exact

  /** Every string and buffer the walk meets has a length that fits the u32 prefix. */
  ghost predicate LengthsFit(d: TypeDesc, v: Val)
    decreases d, 0
  {
    d.serializable ==>
      match d.body
      case SizedBuffer => v.Span? ==> |v.data| < TWO_32
      case String => v.Str? ==> |v.text| < TWO_32
      case DynArray(e) => v.Arr? ==> AllLengthsFit(e, v.elems)
      case ConstantArray(e, _) => v.Arr? ==> AllLengthsFit(e, v.elems)
      case AliasOf(t) => LengthsFit(t, v)
      case Struct(fs, _) => v.Rec? ==> MemberLengthsFit(fs, v.members)
      case _ => true
  }

  ghost predicate AllLengthsFit(e: TypeDesc, vs: seq<Val>)
    decreases e, |vs|
  {
    vs != [] ==> LengthsFit(e, vs[0]) && AllLengthsFit(e, vs[1..])
  }

  ghost predicate MemberLengthsFit(fs: seq<TypeDesc>, vs: seq<Val>)
    decreases fs, 0
  {
    fs != [] && vs != [] ==>
      (fs[0].Walked() ==> LengthsFit(fs[0], vs[0])) && MemberLengthsFit(fs[1..], vs[1..])
  }

  /** The two values agree at every serializable member; asset references agree in their ids. */
  ghost predicate Agrees(d: TypeDesc, v: Val, w: Val, deps: Deps)
    decreases d, 0
  {
    d.serializable ==>
      match d.body
      case AssetReference => v.Asset? && w.Asset? && v.ref.id == w.ref.id
      case DynArray(e) =>
        var vs := ElemsOf(v, deps);
        vs.Some? && w.Arr? && |vs.value| == |w.elems| && AllAgree(e, vs.value, w.elems, deps)
      case ConstantArray(e, _) => v.Arr? && w.Arr? && |v.elems| == |w.elems| && AllAgree(e, v.elems, w.elems, deps)
      case AliasOf(t) => Agrees(t, v, w, deps)
      case Struct(fs, _) => v.Rec? && w.Rec? && |v.members| == |w.members| && MembersAgree(fs, v.members, w.members, deps)
      case _ => v == w
  }

  ghost predicate AllAgree(e: TypeDesc, vs: seq<Val>, ws: seq<Val>, deps: Deps)
    requires |vs| == |ws|
    decreases e, |vs|
  {
    vs != [] ==> Agrees(e, vs[0], ws[0], deps) && AllAgree(e, vs[1..], ws[1..], deps)
  }

  ghost predicate MembersAgree(fs: seq<TypeDesc>, vs: seq<Val>, ws: seq<Val>, deps: Deps)
    requires |vs| == |ws|
    decreases fs, 0
  {
    fs != [] && vs != [] ==>
      (fs[0].Walked() ==> Agrees(fs[0], vs[0], ws[0], deps)) && MembersAgree(fs[1..], vs[1..], ws[1..], deps)
  }

  lemma TruncatedExact(s: bytes)
    ensures Truncated(s) == s <==> |s| < TWO_32
  {
  }

  lemma {:induction false} MaidLengthsFit(vs: seq<Val>)
    ensures AllLengthsFit(TD_MAID, vs)
    decreases |vs|
  {
    if vs != [] {
      MaidLengthsFit(vs[1..]);
      var fs := TD_MAID.body.fields;
      if vs[0].Rec? && vs[0].members != [] {
        var ms := vs[0].members;
        assert LengthsFit(TD_U32, ms[0]) && MemberLengthsFit(fs[1..][1..], ms[1..][..0]);
        assert LengthsFit(fs[0], ms[0]);
        assert ms[1..] != [] ==> LengthsFit(TD_U32, ms[1..][0]) && LengthsFit(fs[1..][0], ms[1..][0]);
        assert MemberLengthsFit(fs[1..], ms[1..]);
      }
      assert LengthsFit(TD_MAID, vs[0]);
    }
  }

  /**
   What a reader gets back agrees with what was written exactly when every string and
   buffer is shorter than 2^32 bytes.
   */
  lemma {:induction false} MergeAgrees(d: TypeDesc, base: Val, v: Val, deps: Deps)
    requires WellFormed(d) && Typed(d, base) && Typed(d, v)
    requires Emit(d, v, deps).Some? && Covered(deps, Assets(d, v))
    ensures Agrees(d, v, Merge(d, base, v, deps), deps) <==> LengthsFit(d, v)
    decreases d, 0, 1
  {
    if d.serializable {
      match d.body
      case SizedBuffer => TruncatedExact(v.data);
      case String => TruncatedExact(v.text);
      case DynArray(e) => MergeArrayAgrees(d, e, base, v, deps);
      case ConstantArray(e, _) => MergeAllAgrees(e, base.elems, v.elems, deps);
      case AliasOf(t) => MergeAgrees(t, base, v, deps);
      case Struct(fs, _) => MergeMembersAgrees(fs, base.members, v.members, deps);
      case _ =>
    }
  }

  lemma {:induction false} MergeArrayAgrees(d: TypeDesc, e: TypeDesc, base: Val, v: Val, deps: Deps)
    requires d.serializable && d.body == DynArray(e) && WellFormed(d) && Typed(d, v)
    requires Emit(d, v, deps).Some? && Covered(deps, Assets(d, v))
    ensures Agrees(d, v, Merge(d, base, v, deps), deps) <==> LengthsFit(d, v)
    decreases d, 0, 0
  {
    var vs := ElemsOf(v, deps).value;
    var x := Default(e);
    DefaultTyped(e);
    if v.Live? {
      MaidHasNoAssets(vs);
      MaidLengthsFit(vs);
      forall i | 0 <= i < |vs| ensures Typed(e, vs[i]) { MaidTyped(deps.items[i]); }
    }
    MergeAllAgrees(e, Repeat(x, |vs|), vs, deps);
  }

  lemma {:induction false} MergeAllAgrees(e: TypeDesc, bases: seq<Val>, vs: seq<Val>, deps: Deps)
    requires WellFormed(e) && |bases| == |vs| && AllTyped(e, bases) && AllTyped(e, vs)
    requires EmitAll(e, vs, deps).Some? && Covered(deps, AssetsOfAll(e, vs))
    ensures |MergeAll(e, bases, vs, deps)| == |vs|
    ensures AllAgree(e, vs, MergeAll(e, bases, vs, deps), deps) <==> AllLengthsFit(e, vs)
    decreases e, |vs|
  {
    if vs != [] {
      AddAllCovered(deps, Assets(e, vs[0]));
      MergeAgrees(e, bases[0], vs[0], deps);
      MergeAllAgrees(e, bases[1..], vs[1..], deps);
      var ws := MergeAll(e, bases, vs, deps);
      assert ws[1..] == MergeAll(e, bases[1..], vs[1..], deps);
    }
  }

  lemma {:induction false} MergeMembersAgrees(fs: seq<TypeDesc>, bases: seq<Val>, vs: seq<Val>, deps: Deps)
    requires |fs| == |bases| == |vs| && MembersTyped(fs, bases) && MembersTyped(fs, vs)
    requires forall i | 0 <= i < |fs| :: WellFormed(fs[i])
    requires EmitMembers(fs, vs, deps).Some? && Covered(deps, AssetsOfMembers(fs, vs))
    ensures |MergeMembers(fs, bases, vs, deps)| == |vs|
    ensures MembersAgree(fs, vs, MergeMembers(fs, bases, vs, deps), deps) <==> MemberLengthsFit(fs, vs)
    decreases fs, 0
  {
    if fs != [] {
      if fs[0].Walked() {
        AddAllCovered(deps, Assets(fs[0], vs[0]));
        MergeAgrees(fs[0], bases[0], vs[0], deps);
      }
      MergeMembersAgrees(fs[1..], bases[1..], vs[1..], deps);
      var ws := MergeMembers(fs, bases, vs, deps);
      assert ws[1..] == MergeMembers(fs[1..], bases[1..], vs[1..], deps);
    }
  }

  /** A string of 2^32 bytes comes back empty. */
  lemma LongStringLost(text: bytes, base: Val)
    requires |text| == TWO_32
    ensures var d := TypeOf("String", 24, String);
            Emit(d, Str(text), Off).Some? && Merge(d, base, Str(text), Off) == Str([]) && !Agrees(d, Str(text), Merge(d, base, Str(text), Off), Off)
  {
    assert Truncated(text) == [];
  }

  /** Members the walk does not visit keep what the storage held before. */
  lemma {:induction false} MergeKeepsExcluded(fs: seq<TypeDesc>, bases: seq<Val>, vs: seq<Val>, deps: Deps, i: nat)
    requires |fs| == |bases| == |vs| && i < |fs| && !fs[i].Walked()
    ensures |MergeMembers(fs, bases, vs, deps)| == |fs|
    ensures MergeMembers(fs, bases, vs, deps)[i] == bases[i]
    decreases |fs|
  {
    if i > 0 {
      MergeKeepsExcluded(fs[1..], bases[1..], vs[1..], deps, i - 1);
    } else if |fs| > 1 {
      MergeMembersLength(fs[1..], bases[1..], vs[1..], deps);
    }
  }

  lemma {:induction false} MergeMembersLength(fs: seq<TypeDesc>, bases: seq<Val>, vs: seq<Val>, deps: Deps)
    requires |fs| == |bases| == |vs|
    ensures |MergeMembers(fs, bases, vs, deps)| == |fs|
    decreases |fs|
  {
    if fs != [] { MergeMembersLength(fs[1..], bases[1..], vs[1..], deps); }
  }
}
