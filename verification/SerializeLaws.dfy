/** End-to-end laws: what `DeserializeBlocking` makes of the blob `SerializeBlocking` produced. */
module SerializeLaws {
  import opened Common
  import opened Bytes
  import opened Reflection
  import opened BinaryFormat
  import opened BinaryLaws
  import opened Serialize
  import opened C = Chunker
  import opened BinaryWalk

  lemma {:induction false} MergeMembersAt(fs: seq<TypeDesc>, bases: seq<Val>, vs: seq<Val>, deps: Deps, i: nat)
    requires |fs| == |bases| == |vs| && i < |fs| && fs[i].Walked()
    ensures |MergeMembers(fs, bases, vs, deps)| == |fs|
    ensures MergeMembers(fs, bases, vs, deps)[i] == Merge(fs[i], bases[i], vs[i], deps)
    decreases |fs|
  {
    if i > 0 {
      MergeMembersAt(fs[1..], bases[1..], vs[1..], deps, i - 1);
    } else {
      MergeMembersLength(fs[1..], bases[1..], vs[1..], deps);
    }
  }

  /** An asset id comes back as it was written. */
  lemma MergeMaid(base: Val, v: Val, deps: Deps)
    requires Typed(TD_MAID, base) && Typed(TD_MAID, v)
    ensures Merge(TD_MAID, base, v, deps) == v
  {
    var fs, m := TD_MAID.body.fields, MergeMembers(TD_MAID.body.fields, base.members, v.members, deps);
    assert |m| == |v.members| by { MergeMembersAt(fs, base.members, v.members, deps, 0); }
    forall i | 0 <= i < 2 ensures m[i] == v.members[i] {
      MergeMembersAt(fs, base.members, v.members, deps, i);
      assert Typed(fs[i], v.members[i]) && Merge(TD_U32, base.members[i], v.members[i], deps) == v.members[i];
    }
    assert m == v.members;
  }

  /** The fields a reader checks in a header are those that were written. */
  lemma MergeHeader(h: Val, deps: Deps)
    requires Typed(TD_HEADER, h)
    ensures var r := Merge(TD_HEADER, Default(TD_HEADER), h, deps);
            h.Rec? && r.Rec? && |r.members| == |h.members| == 8 && r.members[..7] == h.members[..7]
  {
    HeaderWellFormed();
    DefaultTyped(TD_HEADER);
    MergeHeaderOver(Default(TD_HEADER), h, deps);
  }

  /** Whatever the header held before. */
  lemma MergeHeaderOver(base: Val, h: Val, deps: Deps)
    requires Typed(TD_HEADER, h) && Typed(TD_HEADER, base)
    ensures var r := Merge(TD_HEADER, base, h, deps);
            h.Rec? && r.Rec? && |r.members| == |h.members| == 8 && r.members[..7] == h.members[..7]
  {
    HeaderWellFormed();
    var m := MergeMembers(HEADER_FIELDS, base.members, h.members, deps);
    forall i | 0 <= i < 7 ensures |m| == 8 && m[i] == h.members[i] {
      MergeMembersAt(HEADER_FIELDS, base.members, h.members, deps, i);
      assert Typed(HEADER_FIELDS[i], h.members[i]) && Typed(HEADER_FIELDS[i], base.members[i]);
      if i < 5 {
        assert HEADER_FIELDS[i].body == AliasOf(TD_U32);
        assert Merge(TD_U32, base.members[i], h.members[i], deps) == h.members[i];
      } else {
        assert HEADER_FIELDS[i].body == AliasOf(TD_MAID);
        MergeMaid(base.members[i], h.members[i], deps);
      }
    }
    assert |m| == 8 && m[0] == h.members[0];
  }

  /** A header that starts with the magic words is emitted so that a buffer starts with them. */
  lemma HeaderEmitStarts(h: Val, deps: Deps, rest: bytes)
    requires Typed(TD_HEADER, h) && h.Rec? && |h.members| == 8
    requires h.members[0] == Prim(LE32(MAGIC)) && h.members[1] == Prim(LE32(FORMAT_VERSION))
    requires Emit(TD_HEADER, h, deps).Some?
    ensures StartsWithBinaryHeader(Emit(TD_HEADER, h, deps).value + rest)
  {
    var fs, ms := HEADER_FIELDS, h.members;
    var a, b := LE32(MAGIC), LE32(FORMAT_VERSION);
    assert Emit(TD_U32, ms[0], deps) == Some(a) && Emit(fs[0], ms[0], deps) == Some(a);
    assert Assets(TD_U32, ms[0]) == [] && Assets(fs[0], ms[0]) == [] && AddAll(deps, []) == deps;
    assert Emit(TD_U32, ms[1], deps) == Some(b) && Emit(fs[1..][0], ms[1..][0], deps) == Some(b);
    var deps1 := AddAll(deps, Assets(fs[1..][0], ms[1..][0]));
    var tail := EmitMembers(fs[1..][1..], ms[1..][1..], deps1);
    assert EmitMembers(fs[1..], ms[1..], deps) == Join(Some(b), tail);
    assert EmitMembers(fs, ms, deps) == Join(Some(a), Join(Some(b), tail));
    var out := Emit(TD_HEADER, h, deps).value + rest;
    assert out == a + (b + (tail.value + rest));
    assert out[..4] == a && out[4..8] == b;
    LE32RoundTrip(MAGIC);
    LE32RoundTrip(FORMAT_VERSION);
  }

  /** What `SerializeBlocking` writes for a prepared object. */
  function Blob(t: AssetType, source: Val): Option<bytes> {
    Emit(t.desc, source, Collected(t, source))
  }

  function Collected(t: AssetType, source: Val): Deps {
    AddAll(Tracked(t.desc, []), Assets(t.desc, source))
  }

  /** The object is prepared for its type and its header is the first thing it serializes. */
  ghost predicate HeaderFirst(t: AssetType, source: Val) {
    && IsObject(t.desc, source) && t.desc.serializable
    && HasHeader(t.desc) && HeaderIndex(t.desc.body.fields) == 0 && t.desc.body.fields[0].serializable
    && source.members[0].Rec? && |source.members[0].members| == 8 && source == Prepared(t, source)
  }

  /** The blob starts with the header. */
  lemma BlobIsHeaderThenRest(t: AssetType, source: Val) returns (rest: bytes)
    requires HeaderFirst(t, source) && Blob(t, source).Some?
    ensures var h, found := source.members[0], Collected(t, source);
            && Emit(TD_HEADER, h, found).Some? && Covered(found, Assets(TD_HEADER, h))
            && Blob(t, source).value == Emit(TD_HEADER, h, found).value + rest
  {
    var fs, h, found := t.desc.body.fields, source.members[0], Collected(t, source);
    FixpointReached(t, source);
    assert fs[0].Walked();
    assert Assets(t.desc, source) == Assets(fs[0], h) + AssetsOfMembers(fs[1..], source.members[1..]);
    assert Assets(fs[0], h) == Assets(TD_HEADER, h);
    assert Covered(found, Assets(fs[0], h));
    AddAllCovered(found, Assets(fs[0], h));
    assert Emit(fs[0], h, found) == Emit(TD_HEADER, h, found);
    assert EmitMembers(fs, source.members, found) == Join(Emit(fs[0], h, found), EmitMembers(fs[1..], source.members[1..], found));
    rest := EmitMembers(fs[1..], source.members[1..], found).value;
  }

  /** The header a reader finds in the blob validates, and names the parent that was written. */
  lemma BlobHeaderAccepted(t: AssetType, source: Val, parent: Option<Val>)
    requires HeaderFirst(t, source) && Blob(t, source).Some?
    ensures StartsWithBinaryHeader(Blob(t, source).value)
    ensures var r := Decode(TD_HEADER, Default(TD_HEADER), Blob(t, source).value);
            r.Got? && Validate(t, r.value) == SER_SUCCESS
            && Inherited(t, r.value, parent) == Inherited(t, source.members[0], parent)
  {
    var h, found := source.members[0], Collected(t, source);
    var rest := BlobIsHeaderThenRest(t, source);
    assert h == Stamp(t, h);
    HeaderEmitStarts(h, found, rest);
    HeaderWellFormed();
    DefaultTyped(TD_HEADER);
    DecodeEmit(TD_HEADER, Default(TD_HEADER), h, found, rest);
    MergeHeader(h, found);
    var r := Merge(TD_HEADER, Default(TD_HEADER), h, found);
    SameChecks(t, h, r, parent);
  }

  lemma SameChecks(t: AssetType, h: Val, r: Val, parent: Option<Val>)
    requires h.Rec? && r.Rec? && |h.members| == |r.members| == 8 && r.members[..7] == h.members[..7]
    requires h == Stamp(t, h)
    ensures Validate(t, r) == SER_SUCCESS && Inherited(t, r, parent) == Inherited(t, h, parent)
  {
    forall i | 0 <= i < 7 ensures r.members[i] == h.members[i] {
      assert r.members[..7][i] == h.members[..7][i];
    }
    LE32RoundTrip(MAGIC);
    LE32RoundTrip(FORMAT_VERSION);
    LE32RoundTrip(t.version);
    LE32RoundTrip(t.nameHash);
  }

  /**
   End-to-end round trip of an asset whose first member is its header (which registering a
   loader insists on). The blob is always accepted, and every serializable member has the
   written value whatever the parent is; the parent only decides what the members that are
   not serialized hold. The one way to fail is a parent that cannot be used.
   */
  lemma AssetRoundTrip(t: AssetType, source: Val, parent: Option<Val>)
    requires HeaderFirst(t, source) && Blob(t, source).Some?
    requires parent.Some? ==> Typed(t.desc, parent.value)
    ensures Deserialized(t, Blob(t, source).value, parent) ==
            match Inherited(t, source.members[0], parent)
            case None => (SER_FAILURE, None)
            case Some(base) => (SER_SUCCESS, Some(Merge(t.desc, base, source, Collected(t, source))))
    ensures Inherited(t, source.members[0], parent).Some? ==>
              var out := Deserialized(t, Blob(t, source).value, parent).1.value;
              (Agrees(t.desc, source, out, Collected(t, source)) <==> LengthsFit(t.desc, source))
  {
    BlobHeaderAccepted(t, source, parent);
    FixpointReached(t, source);
    DefaultTyped(t.desc);
    if parent.Some? { ResetTyped(t.desc, parent.value); }
    var base := Inherited(t, source.members[0], parent);
    if base.Some? {
      DecodeEmit(t.desc, base.value, source, Collected(t, source), []);
      MergeAgrees(t.desc, base.value, source, Collected(t, source));
      assert Blob(t, source).value + [] == Blob(t, source).value;
    }
  }

  /** What a visited member held before it was read over: a member of an inheriting asset is reset to its type's default. */
  function Fresh(d: TypeDesc, inherits: bool, i: nat): Val
    requires d.body.Struct? && |d.body.defaults| == |d.body.fields| && i < |d.body.fields|
  {
    if inherits then Default(d.body.fields[i]) else d.body.defaults[i]
  }

  /**
   What is read back of a blob whose header names the asset `own` and the parent `up`. The read succeeds exactly when no
   parent is named, or one of the same type that could be loaded. Members that are not visited are the parent's, or the
   type's defaults; the others have been read over defaults of their own.
   */
  lemma ReadBack(t: AssetType, source: Val, parent: Option<Val>, own: Maid, up: Maid)
    requires HeaderFirst(t, source) && Blob(t, source).Some? && (parent.Some? ==> Typed(t.desc, parent.value))
    requires source.members[0].members[5] == MaidVal(own) && source.members[0].members[6] == MaidVal(up)
    ensures var (result, out) := Deserialized(t, Blob(t, source).value, parent);
            var fs, ds := t.desc.body.fields, t.desc.body.defaults;
            && (result == SER_SUCCESS <==> !up.IsValid() || (up.kind == own.kind && parent.Some?))
            && (result != SER_SUCCESS ==> (result, out) == (SER_FAILURE, None))
            && (result == SER_SUCCESS ==>
                  && out.Some? && out.value.Rec? && |out.value.members| == |fs| == |ds|
                  && (up.IsValid() ==> parent.value.Rec? && |parent.value.members| == |fs|)
                  && forall i | 0 <= i < |fs| ::
                       out.value.members[i] ==
                       if fs[i].Walked() then Merge(fs[i], Fresh(t.desc, up.IsValid(), i), source.members[i], Collected(t, source))
                       else if up.IsValid() then parent.value.members[i] else ds[i])
  {
    var fs, ds, h := t.desc.body.fields, t.desc.body.defaults, source.members[0];
    HeaderReads(h, 5, 0, own);
    HeaderReads(h, 6, 0, up);
    AssetRoundTrip(t, source, parent);
    DefaultTyped(t.desc);
    var base := Inherited(t, h, parent);
    if base.Some? {
      assert base.value.Rec? && |base.value.members| == |fs|;
      forall i | 0 <= i < |fs|
        ensures |MergeMembers(fs, base.value.members, source.members, Collected(t, source))| == |fs|
        ensures MergeMembers(fs, base.value.members, source.members, Collected(t, source))[i] ==
                if fs[i].Walked() then Merge(fs[i], Fresh(t.desc, up.IsValid(), i), source.members[i], Collected(t, source))
                else if up.IsValid() then parent.value.members[i] else ds[i]
      {
        if fs[i].Walked() {
          MergeMembersAt(fs, base.value.members, source.members, Collected(t, source), i);
        } else {
          MergeKeepsExcluded(fs, base.value.members, source.members, Collected(t, source), i);
        }
      }
    }
  }

  /** With a complete list, a member can be emitted by itself when the struct can. */
  lemma {:induction false} EmitsEach(fs: seq<TypeDesc>, vs: seq<Val>, deps: Deps, i: nat)
    requires |fs| == |vs| && i < |fs| && fs[i].Walked()
    requires EmitMembers(fs, vs, deps).Some? && Covered(deps, AssetsOfMembers(fs, vs))
    ensures Emit(fs[i], vs[i], deps).Some? && Covered(deps, Assets(fs[i], vs[i]))
    decreases |fs|
  {
    if i > 0 {
      if fs[0].Walked() { AddAllCovered(deps, Assets(fs[0], vs[0])); }
      EmitsEach(fs[1..], vs[1..], deps, i - 1);
    }
  }

  /**
   Saving an object and loading it again. The blob starts with a header that names the object's own id and parent; it is
   read back exactly when that parent can be used, and then header and members are the object's: ids always, every
   other visited member if and only if its lengths fit.
   */
  lemma SavedAsset(t: AssetType, obj: Val, parent: Option<Val>, own: Maid, up: Maid)
    requires IsObject(t.desc, obj) && HasHeader(t.desc) && t.desc.serializable
    requires HeaderIndex(t.desc.body.fields) == 0 && t.desc.body.fields[0].serializable && (parent.Some? ==> Typed(t.desc, parent.value))
    requires obj.members[0].Rec? && |obj.members[0].members| == 8
    requires obj.members[0].members[5] == MaidVal(own) && obj.members[0].members[6] == MaidVal(up)
    requires Blob(t, Prepared(t, obj)).Some?
    ensures var blob, fs := Blob(t, Prepared(t, obj)).value, t.desc.body.fields;
            var (result, out) := Deserialized(t, blob, parent);
            && HeaderIn(blob).Got? && Names(t, HeaderIn(blob).value, own, up)
            && (result == SER_SUCCESS <==> !up.IsValid() || (up.kind == own.kind && parent.Some?))
            && (result == SER_SUCCESS ==>
                  && out.Some? && out.value.Rec? && |out.value.members| == |fs| && Names(t, out.value.members[0], own, up)
                  && forall i | 0 < i < |fs| && fs[i].Walked() ::
                       Agrees(fs[i], obj.members[i], out.value.members[i], Collected(t, Prepared(t, obj))) <==> LengthsFit(fs[i], obj.members[i]))
  {
    PreparedIsObject(t, obj);
    PreparedKeeps(t, obj);
    SavedHeader(t, Prepared(t, obj), own, up);
    ReadBackAgrees(t, Prepared(t, obj), parent, own, up);
  }

  lemma ReadBackAgrees(t: AssetType, source: Val, parent: Option<Val>, own: Maid, up: Maid)
    requires HeaderFirst(t, source) && Blob(t, source).Some? && (parent.Some? ==> Typed(t.desc, parent.value))
    requires Names(t, source.members[0], own, up)
    ensures var fs := t.desc.body.fields;
            var (result, out) := Deserialized(t, Blob(t, source).value, parent);
            && (result == SER_SUCCESS <==> !up.IsValid() || (up.kind == own.kind && parent.Some?))
            && (result == SER_SUCCESS ==>
                  && out.Some? && out.value.Rec? && |out.value.members| == |fs| == |source.members| && Names(t, out.value.members[0], own, up)
                  && forall i | 0 < i < |fs| && fs[i].Walked() ::
                       Agrees(fs[i], source.members[i], out.value.members[i], Collected(t, source)) <==> LengthsFit(fs[i], source.members[i]))
  {
    ReadBack(t, source, parent, own, up);
    var fs := t.desc.body.fields;
    var (result, out) := Deserialized(t, Blob(t, source).value, parent);
    if result == SER_SUCCESS {
      HeaderAgrees(t, source, up.IsValid(), own, up);
      forall i | 0 < i < |fs| && fs[i].Walked()
        ensures Agrees(fs[i], source.members[i], out.value.members[i], Collected(t, source)) <==> LengthsFit(fs[i], source.members[i])
      {
        MemberAgrees(t, source, up.IsValid(), i);
      }
    }
  }

  lemma HeaderAgrees(t: AssetType, source: Val, inherits: bool, own: Maid, up: Maid)
    requires HeaderFirst(t, source) && Names(t, source.members[0], own, up)
    ensures |t.desc.body.defaults| == |t.desc.body.fields| && t.desc.body.fields[0].Walked()
    ensures Names(t, Merge(t.desc.body.fields[0], Fresh(t.desc, inherits, 0), source.members[0], Collected(t, source)), own, up)
  {
    var f := t.desc.body.fields[0];
    assert f.Walked() && Typed(f, t.desc.body.defaults[0]) && WellFormed(f);
    DefaultTyped(f);
    MergedHeader(t, f, Fresh(t.desc, inherits, 0), source.members[0], Collected(t, source), own, up);
  }

  lemma MemberAgrees(t: AssetType, source: Val, inherits: bool, i: nat)
    requires HeaderFirst(t, source) && Blob(t, source).Some? && |t.desc.body.defaults| == |t.desc.body.fields|
    requires i < |t.desc.body.fields| && t.desc.body.fields[i].Walked()
    ensures var f, found := t.desc.body.fields[i], Collected(t, source);
            Agrees(f, source.members[i], Merge(f, Fresh(t.desc, inherits, i), source.members[i], found), found) <==> LengthsFit(f, source.members[i])
  {
    var f, found := t.desc.body.fields[i], Collected(t, source);
    FixpointReached(t, source);
    EmitsEach(t.desc.body.fields, source.members, found, i);
    assert MembersTyped(t.desc.body.fields, source.members) && MembersTyped(t.desc.body.fields, t.desc.body.defaults);
    assert Typed(f, source.members[i]) && Typed(f, t.desc.body.defaults[i]) && WellFormed(f);
    DefaultTyped(f);
    MergeAgrees(f, Fresh(t.desc, inherits, i), source.members[i], found);
  }

  /** A header of type `t` with these ids. */
  ghost predicate Names(t: AssetType, h: Val, own: Maid, up: Maid) {
    h.Rec? && |h.members| == 8 && WordsOf(t, h) && h.members[5] == MaidVal(own) && h.members[6] == MaidVal(up)
  }

  lemma SavedHeader(t: AssetType, source: Val, own: Maid, up: Maid)
    requires HeaderFirst(t, source) && Blob(t, source).Some? && Names(t, source.members[0], own, up)
    ensures HeaderIn(Blob(t, source).value).Got? && Names(t, HeaderIn(Blob(t, source).value).value, own, up)
  {
    var h, found := source.members[0], Collected(t, source);
    var rest := BlobIsHeaderThenRest(t, source);
    HeaderEmitStarts(h, found, rest);
    HeaderWellFormed();
    DefaultTyped(TD_HEADER);
    DecodeEmit(TD_HEADER, Default(TD_HEADER), h, found, rest);
    MergeHeader(h, found);
    SameFront(t, h, Merge(TD_HEADER, Default(TD_HEADER), h, found), own, up);
  }

  lemma SameFront(t: AssetType, h: Val, r: Val, own: Maid, up: Maid)
    requires Names(t, h, own, up) && r.Rec? && |r.members| == 8 && r.members[..7] == h.members[..7]
    ensures Names(t, r, own, up)
  {
    forall i | 0 <= i < 7 ensures r.members[i] == h.members[i] { assert r.members[..7][i] == h.members[..7][i]; }
  }

  lemma MergedHeader(t: AssetType, f: TypeDesc, base: Val, h: Val, deps: Deps, own: Maid, up: Maid)
    requires f.serializable && f.body == AliasOf(TD_HEADER) && Typed(TD_HEADER, h) && Typed(TD_HEADER, base) && Names(t, h, own, up)
    ensures Names(t, Merge(f, base, h, deps), own, up)
  {
    MergeHeaderOver(base, h, deps);
    SameFront(t, h, Merge(TD_HEADER, base, h, deps), own, up);
  }

  /**
   What any reader makes of the blob: a version mismatch is reported exactly when the blob is of
   the reader's type in another version, and the blob of another type is never read.
   */
  lemma ForeignReader(t: AssetType, reader: AssetType, source: Val, parent: Option<Val>)
    requires HeaderFirst(t, source) && Blob(t, source).Some?
    ensures Deserialized(reader, Blob(t, source).value, parent).0 == SER_VERSION_MISMATCH
            <==> reader.nameHash == t.nameHash && reader.version != t.version
    ensures reader.nameHash != t.nameHash ==> Deserialized(reader, Blob(t, source).value, parent) == (SER_FAILURE, None)
  {
    BlobHeaderAccepted(t, source, parent);
  }

  /** No strict prefix of a written blob is ever accepted. */
  lemma TruncatedBlobRejected(t: AssetType, source: Val, parent: Option<Val>, n: nat)
    requires IsObject(t.desc, source) && Blob(t, source).Some? && n < |Blob(t, source).value|
    requires parent.Some? ==> Typed(t.desc, parent.value)
    ensures Deserialized(t, Blob(t, source).value[..n], parent).0 != SER_SUCCESS
  {
    FixpointReached(t, source);
    DefaultTyped(t.desc);
    TruncationDetected(t.desc, Default(t.desc), source, Collected(t, source), n);
    if parent.Some? {
      ResetTyped(t.desc, parent.value);
      TruncationDetected(t.desc, Reset(t.desc, parent.value), source, Collected(t, source), n);
    }
  }

  /**
   The bytes of a type without a header are read as an asset blob when they look like one: they
   start with the magic words and a whole header can be decoded from them.
   */
  predicate MistakenForAsset(blob: bytes) {
    StartsWithBinaryHeader(blob) && Decode(TD_HEADER, Default(TD_HEADER), blob).Got?
  }

  /** For such bytes: the accidental header is rejected, or names a parent that cannot be used. */
  predicate AccidentallyRejected(t: AssetType, blob: bytes, parent: Option<Val>) {
    MistakenForAsset(blob)
    && var h := Decode(TD_HEADER, Default(TD_HEADER), blob).value;
    (Validate(t, h) != SER_SUCCESS || Inherited(t, h, parent).None?)
  }

  /**
   Round trip of a type without a header. It succeeds exactly for bytes that are not rejected as somebody's asset, and
   then restores the value, also when the bytes are taken for an asset and accepted.
   */
  lemma HeaderlessRoundTrip(t: AssetType, source: Val, parent: Option<Val>)
    requires IsObject(t.desc, source) && !HasHeader(t.desc) && Blob(t, source).Some?
    requires parent.Some? ==> Typed(t.desc, parent.value)
    ensures var (result, out) := Deserialized(t, Blob(t, source).value, parent);
            && (result == SER_SUCCESS <==> !AccidentallyRejected(t, Blob(t, source).value, parent))
            && (result == SER_SUCCESS ==> out.Some? && (Agrees(t.desc, source, out.value, Off) <==> LengthsFit(t.desc, source)))
    ensures !MistakenForAsset(Blob(t, source).value) ==>
              Deserialized(t, Blob(t, source).value, parent) == (SER_SUCCESS, Some(Merge(t.desc, Default(t.desc), source, Off)))
  {
    FixpointReached(t, source);
    AddAllCovered(Off, Assets(t.desc, source));
    DefaultTyped(t.desc);
    HeaderlessOver(t, source, Default(t.desc));
    if parent.Some? {
      ResetTyped(t.desc, parent.value);
      HeaderlessOver(t, source, Reset(t.desc, parent.value));
    }
  }

  /** The read pass over storage of the right type. */
  lemma HeaderlessOver(t: AssetType, source: Val, base: Val)
    requires IsObject(t.desc, source) && !HasHeader(t.desc) && Blob(t, source).Some? && Typed(t.desc, base)
    ensures Decode(t.desc, base, Blob(t, source).value) == Got(Merge(t.desc, base, source, Off), [])
    ensures Agrees(t.desc, source, Merge(t.desc, base, source, Off), Off) <==> LengthsFit(t.desc, source)
  {
    var blob := Blob(t, source).value;
    FixpointReached(t, source);
    AddAllCovered(Off, Assets(t.desc, source));
    assert blob + [] == blob;
    DecodeEmit(t.desc, base, source, Off, []);
    MergeAgrees(t.desc, base, source, Off);
  }

  /** Such a type: it stores another asset's header in a member that is not called "header". */
  const TD_BOOKMARK := TypeOf("Bookmark", 72, Struct([FieldOf("target", TD_HEADER)], [Rec(HEADER_DEFAULTS)]))

  /** The bytes of a bookmark are read as a header with the default values. */
  lemma BookmarkHeader(t: AssetType)
    requires t.desc == TD_BOOKMARK
    ensures var source := Default(TD_BOOKMARK);
            && IsObject(t.desc, source) && !HasHeader(t.desc) && Blob(t, source).Some? && MistakenForAsset(Blob(t, source).value)
            && var r := Decode(TD_HEADER, Default(TD_HEADER), Blob(t, source).value).value;
            r.Rec? && |r.members| == 8 && forall i | 0 <= i < 7 :: r.members[i] == HEADER_DEFAULTS[i]
  {
    var h := Rec(HEADER_DEFAULTS);
    BookmarkBlob(t);
    HeaderWellFormed();
    DefaultTyped(TD_HEADER);
    var blob := Emit(TD_HEADER, h, Off).value;
    HeaderEmitStarts(h, Off, []);
    DecodeEmit(TD_HEADER, h, h, Off, []);
    assert blob + [] == blob;
    MergeHeader(h, Off);
    var r := Merge(TD_HEADER, h, h, Off);
    forall i | 0 <= i < 7 ensures r.members[i] == HEADER_DEFAULTS[i] { assert r.members[i] == r.members[..7][i] == h.members[..7][i]; }
  }

  /** The round trip of a type without a header can fail: a bookmark is taken for a foreign asset. */
  lemma HeaderlessCanFail()
    ensures var t := AssetType(TD_BOOKMARK, 1, 7);
            var source := Default(TD_BOOKMARK);
            && IsObject(t.desc, source) && !HasHeader(t.desc) && Blob(t, source).Some?
            && Deserialized(t, Blob(t, source).value, None) == (SER_FAILURE, None)
  {
    BookmarkHeader(AssetType(TD_BOOKMARK, 1, 7));
    LE32RoundTrip(0);
  }

  /** Being taken for an asset does no harm by itself: with a version and a name hash of zero the bookmark is accepted. */
  lemma HeaderlessCanBeAccepted()
    ensures var t := AssetType(TD_BOOKMARK, 0, 0);
            var source := Default(TD_BOOKMARK);
            && IsObject(t.desc, source) && !HasHeader(t.desc) && Blob(t, source).Some? && MistakenForAsset(Blob(t, source).value)
            && Deserialized(t, Blob(t, source).value, None).0 == SER_SUCCESS
  {
    var t := AssetType(TD_BOOKMARK, 0, 0);
    BookmarkHeader(t);
    DefaultsValidate(t, Decode(TD_HEADER, Default(TD_HEADER), Blob(t, Default(TD_BOOKMARK)).value).value);
    HeaderlessRoundTrip(t, Default(TD_BOOKMARK), None);
  }

  lemma DefaultsValidate(t: AssetType, r: Val)
    requires r.Rec? && |r.members| == 8 && (forall i | 0 <= i < 7 :: r.members[i] == HEADER_DEFAULTS[i])
    requires t.version == 0 && t.nameHash == 0
    ensures Validate(t, r) == SER_SUCCESS && Inherited(t, r, None) == Some(Default(t.desc))
  {
    LE32RoundTrip(0);
    LE32RoundTrip(MAGIC);
    LE32RoundTrip(FORMAT_VERSION);
    LE32RoundTrip(INVALID_ID);
  }

  lemma BookmarkBlob(t: AssetType)
    requires t.desc == TD_BOOKMARK
    ensures var h := Rec(HEADER_DEFAULTS);
            && IsObject(TD_BOOKMARK, Default(TD_BOOKMARK)) && !HasHeader(TD_BOOKMARK)
            && Emit(TD_HEADER, h, Off).Some? && Blob(t, Default(TD_BOOKMARK)) == Emit(TD_HEADER, h, Off)
  {
    var f, h := FieldOf("target", TD_HEADER), Rec(HEADER_DEFAULTS);
    BookmarkIsObject();
    HeaderTailEmits(0);
    assert HEADER_FIELDS[0..] == HEADER_FIELDS && HEADER_DEFAULTS[0..] == HEADER_DEFAULTS;
    AddAllCovered(Off, Assets(TD_BOOKMARK, Default(TD_BOOKMARK)));
    EmitSingleton(f, h);
  }

  lemma BookmarkIsObject()
    ensures IsObject(TD_BOOKMARK, Default(TD_BOOKMARK)) && !HasHeader(TD_BOOKMARK)
  {
    var f := FieldOf("target", TD_HEADER);
    HeaderWellFormed();
    DefaultTyped(TD_HEADER);
    assert Typed(f, Rec(HEADER_DEFAULTS)) && WellFormed(f);
    assert |f.name| == |"target"| && f.name[0] == 't';
    assert !IsSerializedHeaderField(f);
    assert HeaderIndex([f][1..]) == 0;
  }

  /** One member, one value: the struct adds nothing. */
  lemma EmitSingleton(f: TypeDesc, v: Val)
    requires f.Walked()
    ensures EmitMembers([f], [v], Off) == Emit(f, v, Off)
  {
    AddAllCovered(Off, Assets(f, v));
    assert EmitMembers([f][1..], [v][1..], Off) == Some([]);
    if Emit(f, v, Off).Some? { assert Emit(f, v, Off).value + [] == Emit(f, v, Off).value; }
  }

  /** A header with no dependencies can be written. */
  lemma {:induction false} HeaderTailEmits(i: nat)
    requires i <= 8
    ensures EmitMembers(HEADER_FIELDS[i..], HEADER_DEFAULTS[i..], Off).Some?
    decreases 8 - i
  {
    if i < 8 {
      assert HEADER_FIELDS[i..][0] == HEADER_FIELDS[i] && HEADER_FIELDS[i..][1..] == HEADER_FIELDS[i + 1..];
      assert HEADER_DEFAULTS[i..][0] == HEADER_DEFAULTS[i] && HEADER_DEFAULTS[i..][1..] == HEADER_DEFAULTS[i + 1..];
      HeaderTailEmits(i + 1);
      AddAllCovered(Off, Assets(HEADER_FIELDS[i], HEADER_DEFAULTS[i]));
      HeaderFieldEmits(i);
    }
  }

  lemma HeaderFieldEmits(i: nat)
    requires i < 8
    ensures Emit(HEADER_FIELDS[i], HEADER_DEFAULTS[i], Off).Some?
  {
    var f, v := HEADER_FIELDS[i], HEADER_DEFAULTS[i];
    if i < 5 {
      assert f.body == AliasOf(TD_U32) && Emit(TD_U32, v, Off).Some?;
    } else if i < 7 {
      assert f.body == AliasOf(TD_MAID) && v == MaidVals([NO_MAID])[0];
      MaidsEmit([NO_MAID], Off);
    } else {
      assert f.body == DynArray(TD_MAID) && v == Arr([]);
      assert EmitAll(TD_MAID, [], Off) == Some([]);
    }
  }

  /**
   The four-pass protocol on one value: measure, write into exactly that much memory, read
   back, verify. The write never runs out of room, the read restores the value, and the
   verify pass meets no difference.
   */
  method FourPasses(d: TypeDesc, v: Val, base: Val) returns (supported: bool, blob: array<byte>, restored: Val, mismatch: bool)
    requires WellFormed(d) && Typed(d, v) && Typed(d, base)
    ensures fresh(blob)
    ensures supported <==> Emit(d, v, Off).Some?
    ensures supported ==> blob[..] == Emit(d, v, Off).value && restored == Merge(d, base, v, Off) && !mismatch
  {
    AddAllCovered(Off, Assets(d, v));
    restored, mismatch := base, false;
    supported, blob := MeasureAndWrite(d, v);
    if supported { restored, mismatch := ReadAndVerify(d, v, base, blob); }
  }

  method MeasureAndWrite(d: TypeDesc, v: Val) returns (supported: bool, blob: array<byte>)
    requires WellFormed(d) && Typed(d, v)
    ensures fresh(blob)
    ensures supported <==> Emit(d, v, Off).Some?
    ensures supported ==> blob[..] == Emit(d, v, Off).value
  {
    AddAllCovered(Off, Assets(d, v));
    blob := new byte[0];
    var measure := new Chunker(Measure, blob);
    var out;
    supported, out := Walk(d, measure, v, null);
    if !supported {
      return;
    }
    blob := new byte[measure.cursor];
    var write := new Chunker(Write, blob);
    supported, out := Walk(d, write, v, null);
  }

  method ReadAndVerify(d: TypeDesc, v: Val, base: Val, blob: array<byte>) returns (restored: Val, mismatch: bool)
    requires WellFormed(d) && Typed(d, v) && Typed(d, base)
    requires Emit(d, v, Off).Some? && blob[..] == Emit(d, v, Off).value
    modifies blob
    ensures blob[..] == old(blob[..]) && restored == Merge(d, base, v, Off) && !mismatch
  {
    AddAllCovered(Off, Assets(d, v));
    ghost var bytes := Emit(d, v, Off).value;
    assert bytes + [] == bytes;
    DecodeEmit(d, base, v, Off, []);
    var read := new Chunker(Read, blob);
    assert read.Snap().Unread() == bytes;
    var ok;
    ok, restored := Walk(d, read, base, null);
    assert blob[..] == bytes;
    ok, mismatch := VerifyPass(d, v, blob);
    assert blob[..|bytes|] == bytes;
  }

  /** A verify pass over any buffer that is long enough: it meets a difference if and only if other bytes would be written. */
  method VerifyPass(d: TypeDesc, v: Val, blob: array<byte>) returns (ok: bool, mismatch: bool)
    requires WellFormed(d) && Typed(d, v)
    modifies blob
    ensures blob[..] == old(blob[..])
    ensures ok <==> Emit(d, v, Off).Some?
    ensures ok && |Emit(d, v, Off).value| <= blob.Length ==> (mismatch <==> blob[..|Emit(d, v, Off).value|] != Emit(d, v, Off).value)
  {
    AddAllCovered(Off, Assets(d, v));
    var verify := new Chunker(Verify, blob);
    ghost var s := verify.Snap();
    var out;
    ok, out := Walk(d, verify, v, null);
    mismatch := verify.mismatch;
    if ok {
      ghost var n := |Emit(d, v, Off).value|;
      if n <= blob.Length { assert s.mem[0..n] == blob[..n]; }
    }
  }
}
