/** Equality and copies without meanings: two stored values compared block by block, each in its own heap. */
module DeepCopyLaws {
  import opened Bytes
  import opened Reflection
  import opened DeepCopy

  function Contents(v: Stored, h: Heap): bytes { if HasData(v, h) then h[v.addr].data else [] }

  /**
   The same contents at every member the walk visits: equal bytes in buffers and strings, as many elements in arrays, and
   equal numbers, wherever the blocks are. With `all` also below types that are not serialized.
   */
  ghost predicate Alike(d: TypeDesc, a: Stored, h: Heap, b: Stored, u: Heap, all: bool)
    decreases d, 1
  {
    all || d.serializable ==> AlikeBody(d, a, h, b, u, all)
  }

  ghost predicate AlikeBody(d: TypeDesc, a: Stored, h: Heap, b: Stored, u: Heap, all: bool)
    decreases d, 0
  {
    match d.body
    case SizedBuffer => Contents(a, h) == Contents(b, u)
    case String => Contents(a, h) == Contents(b, u)
    case DynArray(e) => AllAlike(e, ElementsOf(a, h), h, ElementsOf(b, u), u, all)
    case ConstantArray(e, _) => a.Group? && b.Group? && AllAlike(e, a.parts, h, b.parts, u, all)
    case AliasOf(t) => if HasEquals(t) then AlikeBody(t, a, h, b, u, all) else Alike(t, a, h, b, u, all)
    case Struct(fs, _) => a.Group? && b.Group? && |a.parts| == |b.parts| == |fs| && MembersAlike(fs, a.parts, h, b.parts, u, all)
    case _ => a.Raw? && b.Raw? && a.raw == b.raw
  }

  ghost predicate AllAlike(e: TypeDesc, xs: seq<Stored>, h: Heap, ys: seq<Stored>, u: Heap, all: bool)
    decreases e, 2
  {
    |xs| == |ys| && forall i | 0 <= i < |xs| :: Alike(e, xs[i], h, ys[i], u, all)
  }

  ghost predicate MembersAlike(fs: seq<TypeDesc>, xs: seq<Stored>, h: Heap, ys: seq<Stored>, u: Heap, all: bool)
    requires |fs| == |xs| == |ys|
    decreases fs, 0
  {
    forall i | 0 <= i < |fs| && fs[i].Walked() :: Alike(fs[i], xs[i], h, ys[i], u, all)
  }

  // ---------------------------------------------------------------- meanings, element by element

  lemma {:induction false} MeaningAllAt(e: TypeDesc, vs: seq<Stored>, h: Heap, i: nat)
    requires i < |vs|
    ensures MeaningAll(e, vs, h)[i] == Meaning(e, vs[i], h)
    decreases |vs|
  {
    if i < |vs| - 1 { MeaningAllAt(e, vs[..|vs| - 1], h, i); }
  }

  lemma {:induction false} MeaningMembersAt(fs: seq<TypeDesc>, vs: seq<Stored>, h: Heap, i: nat)
    requires |fs| == |vs| && i < |vs|
    ensures MeaningMembers(fs, vs, h)[i] == if fs[i].Walked() then Meaning(fs[i], vs[i], h) else Prim([])
    decreases |vs|
  {
    var n := |vs| - 1;
    if i < n { MeaningMembersAt(fs[..n], vs[..n], h, i); }
  }

  lemma {:induction false} VisibleMembersAt(fs: seq<TypeDesc>, ms: seq<Val>, i: nat)
    requires |fs| == |ms| && i < |ms|
    ensures VisibleMembers(fs, ms)[i] == if fs[i].Walked() then Visible(fs[i], ms[i]) else ms[i]
    decreases |ms|
  {
    var n := |ms| - 1;
    if i < n { VisibleMembersAt(fs[..n], ms[..n], i); }
  }

  /** The part of a meaning that is looked at: the visible one, or all of it. */
  function Seen(d: TypeDesc, m: Val, all: bool): Val { if all then m else Visible(d, m) }

  function SeenBody(d: TypeDesc, m: Val, all: bool): Val { if all then m else VisibleBody(d, m) }

  /** Meanings are equal exactly for values that are alike. */
  lemma {:induction false} MeaningAlike(d: TypeDesc, a: Stored, h: Heap, b: Stored, u: Heap, all: bool)
    requires Valid(d, a, h) && Valid(d, b, u)
    ensures Seen(d, Meaning(d, a, h), all) == Seen(d, Meaning(d, b, u), all) <==> Alike(d, a, h, b, u, all)
    decreases d, 1
  {
    if all || d.serializable { BodyAlike(d, a, h, b, u, all); }
  }

  lemma {:induction false} BodyAlike(d: TypeDesc, a: Stored, h: Heap, b: Stored, u: Heap, all: bool)
    requires Valid(d, a, h) && Valid(d, b, u)
    ensures SeenBody(d, Meaning(d, a, h), all) == SeenBody(d, Meaning(d, b, u), all) <==> AlikeBody(d, a, h, b, u, all)
    decreases d, 0
  {
    match d.body
    case DynArray(e) =>
      assert MeaningAll(e, [], h) == [] && MeaningAll(e, [], u) == [];
      ListAlike(e, ElementsOf(a, h), h, ElementsOf(b, u), u, all);
    case ConstantArray(e, _) => ListAlike(e, a.parts, h, b.parts, u, all);
    case AliasOf(t) => if HasEquals(t) { BodyAlike(t, a, h, b, u, all); } else { MeaningAlike(t, a, h, b, u, all); }
    case Struct(fs, _) => RecordAlike(fs, a.parts, h, b.parts, u, all);
    case _ =>
  }

  function SeenAll(e: TypeDesc, ms: seq<Val>, all: bool): (r: seq<Val>)
    ensures |r| == |ms|
  {
    if all then ms else VisibleAll(e, ms)
  }

  lemma {:induction false} ListAlike(e: TypeDesc, xs: seq<Stored>, h: Heap, ys: seq<Stored>, u: Heap, all: bool)
    requires AllValid(e, xs, h) && AllValid(e, ys, u)
    ensures SeenAll(e, MeaningAll(e, xs, h), all) == SeenAll(e, MeaningAll(e, ys, u), all) <==> AllAlike(e, xs, h, ys, u, all)
    decreases e, 2
  {
    if |xs| == |ys| {
      var p, q := SeenAll(e, MeaningAll(e, xs, h), all), SeenAll(e, MeaningAll(e, ys, u), all);
      forall i | 0 <= i < |xs| ensures p[i] == q[i] <==> Alike(e, xs[i], h, ys[i], u, all) {
        MeaningAllAt(e, xs, h, i);
        MeaningAllAt(e, ys, u, i);
        MeaningAlike(e, xs[i], h, ys[i], u, all);
      }
      SameItems(p, q);
    }
  }

  lemma SameItems<T>(p: seq<T>, q: seq<T>)
    requires |p| == |q|
    ensures p == q <==> forall i | 0 <= i < |p| :: p[i] == q[i]
  {
  }

  function SeenMembers(fs: seq<TypeDesc>, ms: seq<Val>, all: bool): (r: seq<Val>)
    requires |fs| == |ms|
    ensures |r| == |ms|
  {
    if all then ms else VisibleMembers(fs, ms)
  }

  lemma {:induction false} RecordAlike(fs: seq<TypeDesc>, xs: seq<Stored>, h: Heap, ys: seq<Stored>, u: Heap, all: bool)
    requires |fs| == |xs| == |ys| && MembersValid(fs, xs, h) && MembersValid(fs, ys, u)
    ensures SeenMembers(fs, MeaningMembers(fs, xs, h), all) == SeenMembers(fs, MeaningMembers(fs, ys, u), all) <==>
            MembersAlike(fs, xs, h, ys, u, all)
    decreases fs, 0
  {
    var ms, ks := MeaningMembers(fs, xs, h), MeaningMembers(fs, ys, u);
    var p, q := SeenMembers(fs, ms, all), SeenMembers(fs, ks, all);
    forall i | 0 <= i < |fs| ensures p[i] == q[i] <==> (fs[i].Walked() ==> Alike(fs[i], xs[i], h, ys[i], u, all)) {
      MeaningMembersAt(fs, xs, h, i);
      MeaningMembersAt(fs, ys, u, i);
      VisibleMembersAt(fs, ms, i);
      VisibleMembersAt(fs, ks, i);
      if fs[i].Walked() { MeaningAlike(fs[i], xs[i], h, ys[i], u, all); }
    }
    SameItems(p, q);
  }

  // ---------------------------------------------------------------- equality and copies

  /** Reflected equality says equal exactly for values that are alike and can be compared, and unequal only for others. */
  lemma EqualExact(d: TypeDesc, a: Stored, b: Stored, h: Heap)
    requires Valid(d, a, h) && Valid(d, b, h)
    ensures var v, alike := FieldsEqual(d, a, b, h), Alike(d, a, h, b, h, false);
            && (v == Equal <==> alike && Comparable(d, a, h))
            && (v == Unequal ==> !alike)
            && (alike && !Comparable(d, a, h) ==> v == Trap)
  {
    EqualMeansSame(d, a, b, h);
    MeaningAlike(d, a, h, b, h, false);
  }

  /** A deep copy is like its source in all its contents, in every heap that has the blocks of the copy. */
  lemma CopyAlike(d: TypeDesc, v: Stored, h: Heap, next: nat, u: Heap)
    requires Below(h, next) && Valid(d, v, h)
    requires var c := Copied(d, v, h, next); Agree(c.h, u, next, c.next)
    ensures Alike(d, v, h, Copied(d, v, h, next).v, u, true)
  {
    CopyMeans(d, v, h, next, u);
    MeaningAlike(d, v, h, Copied(d, v, h, next).v, u, true);
  }
}
