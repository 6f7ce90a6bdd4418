/**
 Reflected equality, deep copy and destruction over an explicit heap. A stored value holds addresses of the buffers and
 arrays it owns; address 0 is null. New blocks are numbered upwards, so a block is fresh when its number is not below
 the counter before the call.
 */
module DeepCopy {

  import opened Bytes
  import opened Reflection

  /**
   `Raw` stands for everything without owned memory: numbers, ids, views, padding. `Buffer` is a span or a string,
   `Array` a dynamic array, `Group` a struct or a constant array.
   */
  datatype Stored = Raw(raw: bytes) | Buffer(addr: nat, size: nat) | Array(addr: nat) | Group(parts: seq<Stored>)

  datatype Block = Data(data: bytes) | Elements(elems: seq<Stored>)

  type Heap = map<nat, Block>

  predicate HasData(v: Stored, h: Heap) { v.Buffer? && v.addr != 0 && v.addr in h && h[v.addr].Data? }

  predicate HasElements(v: Stored, h: Heap) { v.Array? && v.addr != 0 && v.addr in h && h[v.addr].Elements? }

  // ---------------------------------------------------------------- well-formed values and what they mean

  ghost predicate Valid(d: TypeDesc, v: Stored, h: Heap)
    decreases d, 0
  {
    match d.body
    case SizedBuffer => v.Buffer? && (v.addr == 0 ==> v.size == 0) && (v.addr != 0 ==> HasData(v, h) && |h[v.addr].data| == v.size)
    case String => v.Buffer? && (v.addr == 0 ==> v.size == 0) && (v.addr != 0 ==> HasData(v, h) && |h[v.addr].data| == v.size)
    case DynArray(e) => v.Array? && (v.addr != 0 ==> HasElements(v, h) && AllValid(e, h[v.addr].elems, h))
    case ConstantArray(e, n) => v.Group? && |v.parts| == n && AllValid(e, v.parts, h)
    case AliasOf(t) => Valid(t, v, h)
    case Struct(fs, _) => v.Group? && |v.parts| == |fs| && MembersValid(fs, v.parts, h)
    case _ => v.Raw?
  }

  ghost predicate AllValid(e: TypeDesc, vs: seq<Stored>, h: Heap)
    decreases e, 1
  {
    forall i | 0 <= i < |vs| :: Valid(e, vs[i], h)
  }

  ghost predicate MembersValid(fs: seq<TypeDesc>, vs: seq<Stored>, h: Heap)
    requires |fs| == |vs|
    decreases fs, 0
  {
    forall i | 0 <= i < |fs| :: fs[i].Walked() ==> Valid(fs[i], vs[i], h)
  }

  /** The plain value behind the addresses; members the walk skips mean nothing. */
  function Meaning(d: TypeDesc, v: Stored, h: Heap): Val
    decreases d, 0
  {
    match d.body
    case SizedBuffer => if HasData(v, h) then Span(h[v.addr].data) else Span([])
    case String => if HasData(v, h) then Str(h[v.addr].data) else Str([])
    case DynArray(e) => if HasElements(v, h) then Arr(MeaningAll(e, h[v.addr].elems, h)) else Arr([])
    case ConstantArray(e, _) => if v.Group? then Arr(MeaningAll(e, v.parts, h)) else Arr([])
    case AliasOf(t) => Meaning(t, v, h)
    case Struct(fs, _) => if v.Group? && |v.parts| == |fs| then Rec(MeaningMembers(fs, v.parts, h)) else Rec([])
    case _ => if v.Raw? then Prim(v.raw) else Prim([])
  }

  function MeaningAll(e: TypeDesc, vs: seq<Stored>, h: Heap): (r: seq<Val>)
    ensures |r| == |vs|
    decreases e, 1, |vs|
  {
    if vs == [] then [] else MeaningAll(e, vs[..|vs| - 1], h) + [Meaning(e, vs[|vs| - 1], h)]
  }

  function MeaningMembers(fs: seq<TypeDesc>, vs: seq<Stored>, h: Heap): (r: seq<Val>)
    requires |fs| == |vs|
    ensures |r| == |vs|
    decreases fs, 0
  {
    if fs == [] then []
    else
      var n := |fs| - 1;
      MeaningMembers(fs[..n], vs[..n], h) + [if fs[n].Walked() then Meaning(fs[n], vs[n], h) else Prim([])]
  }

  // ---------------------------------------------------------------- equality

  /** Types with a comparison of their own, which an alias calls directly. */
  predicate HasEquals(t: TypeDesc) {
    t.body.Primitive? || t.body.SizedBuffer? || t.body.String? || t.body.Disallowed? || t.body.DynArray?
  }

  /** How a comparison ends; `Trap` is a failed assertion, which stops the process. */
  datatype Verdict = Equal | Unequal | Trap

  function Decide(same: bool): Verdict { if same then Equal else Unequal }

  /** What is not serialized counts as equal. */
  function FieldsEqual(d: TypeDesc, a: Stored, b: Stored, h: Heap): Verdict
    requires Valid(d, a, h) && Valid(d, b, h)
    decreases d, 1
  {
    if d.serializable then BodiesEqual(d, a, b, h) else Equal
  }

  function BodiesEqual(d: TypeDesc, a: Stored, b: Stored, h: Heap): Verdict
    requires Valid(d, a, h) && Valid(d, b, h)
    decreases d, 0
  {
    match d.body
    case SizedBuffer => Decide(BuffersEqual(a, b, h))
    case String => Decide(BuffersEqual(a, b, h))
    case DynArray(e) =>
      var xs, ys := ElementsOf(a, h), ElementsOf(b, h);
      if |xs| != |ys| then Unequal else AllEqual(e, xs, ys, e.size, |xs|, h)
    case ConstantArray(e, _) => AllEqual(e, a.parts, b.parts, 0, |a.parts|, h)
    case AliasOf(t) => if HasEquals(t) then BodiesEqual(t, a, b, h) else FieldsEqual(t, a, b, h)
    case Struct(fs, _) => MembersEqual(fs, a.parts, b.parts, h)
    case _ => Decide(a.raw == b.raw)
  }

  /** The elements of a dynamic array; none of a null one. */
  function ElementsOf(v: Stored, h: Heap): seq<Stored> { if HasElements(v, h) then h[v.addr].elems else [] }

  function BuffersEqual(a: Stored, b: Stored, h: Heap): bool
    requires a.Buffer? && b.Buffer? && (a.addr != 0 ==> HasData(a, h)) && (b.addr != 0 ==> HasData(b, h))
  {
    a.size == b.size && (a.size == 0 || a.addr == b.addr || (a.addr != 0 && b.addr != 0 && h[a.addr].data == h[b.addr].data))
  }

  /** The assertion that an index is below the number of elements. */
  predicate InRange(i: nat, stride: nat, total: nat) { i * stride < total }

  /**
   The first elements of an array of `total` elements, from the front up to the first one that does not compare equal.
   A dynamic array is indexed by the byte offset `i * stride` of an element, which must be below the number of elements;
   a constant array (`stride` 0) is not indexed.
   */
  function AllEqual(e: TypeDesc, xs: seq<Stored>, ys: seq<Stored>, stride: nat, total: nat, h: Heap): Verdict
    requires |xs| == |ys| && AllValid(e, xs, h) && AllValid(e, ys, h)
    decreases e, 2, |xs|
  {
    if xs == [] then Equal
    else
      var n := |xs| - 1;
      var front := AllEqual(e, xs[..n], ys[..n], stride, total, h);
      if front != Equal then front
      else if InRange(n, stride, total) then FieldsEqual(e, xs[n], ys[n], h)
      else Trap
  }

  function MembersEqual(fs: seq<TypeDesc>, xs: seq<Stored>, ys: seq<Stored>, h: Heap): Verdict
    requires |fs| == |xs| == |ys| && MembersValid(fs, xs, h) && MembersValid(fs, ys, h)
    decreases fs, 0
  {
    if fs == [] then Equal
    else
      var n := |fs| - 1;
      var front := MembersEqual(fs[..n], xs[..n], ys[..n], h);
      if front != Equal || !fs[n].Walked() then front else FieldsEqual(fs[n], xs[n], ys[n], h)
  }

  /** Every dynamic array a comparison reaches has at most one element, or elements of one byte. */
  ghost predicate Comparable(d: TypeDesc, v: Stored, h: Heap)
    decreases d, 1
  {
    d.serializable ==> ComparableBody(d, v, h)
  }

  ghost predicate ComparableBody(d: TypeDesc, v: Stored, h: Heap)
    decreases d, 0
  {
    match d.body
    case DynArray(e) => (|ElementsOf(v, h)| <= 1 || e.size <= 1) && AllComparable(e, ElementsOf(v, h), h)
    case ConstantArray(e, _) => v.Group? ==> AllComparable(e, v.parts, h)
    case AliasOf(t) => if HasEquals(t) then ComparableBody(t, v, h) else Comparable(t, v, h)
    case Struct(fs, _) => v.Group? && |v.parts| == |fs| ==> MembersComparable(fs, v.parts, h)
    case _ => true
  }

  ghost predicate AllComparable(e: TypeDesc, vs: seq<Stored>, h: Heap)
    decreases e, 2
  {
    forall i | 0 <= i < |vs| :: Comparable(e, vs[i], h)
  }

  ghost predicate MembersComparable(fs: seq<TypeDesc>, vs: seq<Stored>, h: Heap)
    requires |fs| == |vs|
    decreases fs, 0
  {
    forall i | 0 <= i < |fs| && fs[i].Walked() :: Comparable(fs[i], vs[i], h)
  }

  /** The part of a meaning that equality looks at: what is not serialized is blanked. */
  function Visible(d: TypeDesc, m: Val): Val
    decreases d, 1
  {
    if d.serializable then VisibleBody(d, m) else Prim([])
  }

  function VisibleBody(d: TypeDesc, m: Val): Val
    decreases d, 0
  {
    match d.body
    case DynArray(e) => if m.Arr? then Arr(VisibleAll(e, m.elems)) else m
    case ConstantArray(e, _) => if m.Arr? then Arr(VisibleAll(e, m.elems)) else m
    case AliasOf(t) => if HasEquals(t) then VisibleBody(t, m) else Visible(t, m)
    case Struct(fs, _) => if m.Rec? && |m.members| == |fs| then Rec(VisibleMembers(fs, m.members)) else m
    case _ => m
  }

  function VisibleAll(e: TypeDesc, ms: seq<Val>): (r: seq<Val>)
    ensures |r| == |ms|
    decreases e, 2
  {
    seq(|ms|, i requires 0 <= i < |ms| => Visible(e, ms[i]))
  }

  function VisibleMembers(fs: seq<TypeDesc>, ms: seq<Val>): (r: seq<Val>)
    requires |fs| == |ms|
    ensures |r| == |ms|
    decreases fs, 0
  {
    if fs == [] then []
    else
      var n := |fs| - 1;
      VisibleMembers(fs[..n], ms[..n]) + [if fs[n].Walked() then Visible(fs[n], ms[n]) else ms[n]]
  }

  lemma VisibleAllSnoc(e: TypeDesc, ms: seq<Val>, m: Val)
    ensures VisibleAll(e, ms + [m]) == VisibleAll(e, ms) + [Visible(e, m)]
  {
  }

  /** `v` is the verdict on things that are the same or not, and that can be compared or not. */
  ghost predicate Judges(v: Verdict, same: bool, comparable: bool) {
    (v == Equal <==> same && comparable) && (v == Unequal ==> !same)
  }

  /**
   Reflected equality says equal if and only if the visible parts of the meanings are the same and the value can be
   compared; it says unequal only when they differ. In the remaining cases it traps: always on a value with the same
   meaning that cannot be compared.
   */
  lemma {:induction false} EqualMeansSame(d: TypeDesc, a: Stored, b: Stored, h: Heap)
    requires Valid(d, a, h) && Valid(d, b, h)
    ensures var v, same := FieldsEqual(d, a, b, h), Visible(d, Meaning(d, a, h)) == Visible(d, Meaning(d, b, h));
            && (v == Equal <==> same && Comparable(d, a, h))
            && (v == Unequal ==> !same)
            && (same && !Comparable(d, a, h) ==> v == Trap)
    decreases d, 1
  {
    if d.serializable { BodyMeansSame(d, a, b, h); }
  }

  lemma {:induction false} BodyMeansSame(d: TypeDesc, a: Stored, b: Stored, h: Heap)
    requires Valid(d, a, h) && Valid(d, b, h)
    ensures Judges(BodiesEqual(d, a, b, h), VisibleBody(d, Meaning(d, a, h)) == VisibleBody(d, Meaning(d, b, h)), ComparableBody(d, a, h))
    decreases d, 0
  {
    match d.body
    case DynArray(e) => ArrayMeansSame(d, e, a, b, h);
    case ConstantArray(e, n) => FixedMeansSame(d, e, n, a, b, h);
    case AliasOf(t) => if HasEquals(t) { BodyMeansSame(t, a, b, h); } else { EqualMeansSame(t, a, b, h); }
    case Struct(fs, _) => StructMeansSame(d, fs, a, b, h);
    case _ =>
  }

  lemma {:induction false} StructMeansSame(d: TypeDesc, fs: seq<TypeDesc>, a: Stored, b: Stored, h: Heap)
    requires d.body.Struct? && d.body.fields == fs && Valid(d, a, h) && Valid(d, b, h)
    ensures Judges(BodiesEqual(d, a, b, h), VisibleBody(d, Meaning(d, a, h)) == VisibleBody(d, Meaning(d, b, h)), ComparableBody(d, a, h))
    decreases fs, 1
  {
    MembersEqualMeansSame(fs, a.parts, b.parts, h);
  }

  lemma {:induction false} FixedMeansSame(d: TypeDesc, e: TypeDesc, n: nat, a: Stored, b: Stored, h: Heap)
    requires d.body == ConstantArray(e, n) && Valid(d, a, h) && Valid(d, b, h)
    ensures Judges(BodiesEqual(d, a, b, h), VisibleBody(d, Meaning(d, a, h)) == VisibleBody(d, Meaning(d, b, h)), ComparableBody(d, a, h))
    decreases e, 3
  {
    AllEqualMeansSame(e, a.parts, b.parts, 0, |a.parts|, h);
    AllInRange(|a.parts|, 0);
  }

  lemma {:induction false} ArrayMeansSame(d: TypeDesc, e: TypeDesc, a: Stored, b: Stored, h: Heap)
    requires d.body == DynArray(e) && Valid(d, a, h) && Valid(d, b, h)
    ensures Judges(BodiesEqual(d, a, b, h), VisibleBody(d, Meaning(d, a, h)) == VisibleBody(d, Meaning(d, b, h)), ComparableBody(d, a, h))
    decreases e, 3
  {
    var xs, ys := ElementsOf(a, h), ElementsOf(b, h);
    assert MeaningAll(e, [], h) == [];
    assert VisibleBody(d, Meaning(d, a, h)) == Arr(VisibleAll(e, MeaningAll(e, xs, h)));
    assert VisibleBody(d, Meaning(d, b, h)) == Arr(VisibleAll(e, MeaningAll(e, ys, h)));
    if |xs| == |ys| {
      AllEqualMeansSame(e, xs, ys, e.size, |xs|, h);
      AllInRange(|xs|, e.size);
    }
  }

  /** The first `n` offsets stay below `total`. */
  ghost predicate OffsetsInRange(n: nat, stride: nat, total: nat) {
    forall i: nat | i < n :: InRange(i, stride, total)
  }

  /** All elements of an array can be indexed exactly when there is at most one, or one byte each. */
  lemma AllInRange(n: nat, stride: nat)
    ensures OffsetsInRange(n, stride, n) <==> n <= 1 || stride <= 1
  {
    if n > 1 && stride > 1 {
      OffsetGrows(2, stride, n - 1);
      assert !InRange(n - 1, stride, n);
    } else {
      forall i: nat | i < n ensures InRange(i, stride, n) { if n > 1 { OffsetGrows(stride, 1, i); } }
    }
  }

  lemma OffsetGrows(s: nat, t: nat, i: nat)
    requires s <= t
    ensures i * s <= i * t
  {
  }

  lemma {:induction false} AllEqualMeansSame(e: TypeDesc, xs: seq<Stored>, ys: seq<Stored>, stride: nat, total: nat, h: Heap)
    requires |xs| == |ys| && AllValid(e, xs, h) && AllValid(e, ys, h)
    ensures Judges(AllEqual(e, xs, ys, stride, total, h), VisibleAll(e, MeaningAll(e, xs, h)) == VisibleAll(e, MeaningAll(e, ys, h)),
                   OffsetsInRange(|xs|, stride, total) && AllComparable(e, xs, h))
    decreases e, 2, |xs|
  {
    if xs != [] {
      var n := |xs| - 1;
      AllEqualMeansSame(e, xs[..n], ys[..n], stride, total, h);
      EqualMeansSame(e, xs[n], ys[n], h);
      var ms, ks := MeaningAll(e, xs[..n], h), MeaningAll(e, ys[..n], h);
      VisibleAllSnoc(e, ms, Meaning(e, xs[n], h));
      VisibleAllSnoc(e, ks, Meaning(e, ys[n], h));
      SnocEqual(VisibleAll(e, ms), Visible(e, Meaning(e, xs[n], h)), VisibleAll(e, ks), Visible(e, Meaning(e, ys[n], h)));
      ComparableSnoc(e, xs, stride, total, h);
    }
  }

  lemma ComparableSnoc(e: TypeDesc, xs: seq<Stored>, stride: nat, total: nat, h: Heap)
    requires xs != []
    ensures var n := |xs| - 1;
            && (AllComparable(e, xs, h) <==> AllComparable(e, xs[..n], h) && Comparable(e, xs[n], h))
            && (OffsetsInRange(|xs|, stride, total) <==> OffsetsInRange(n, stride, total) && InRange(n, stride, total))
  {
    var n := |xs| - 1;
    if AllComparable(e, xs[..n], h) && Comparable(e, xs[n], h) {
      forall i | 0 <= i < |xs| ensures Comparable(e, xs[i], h) { if i < n { assert xs[i] == xs[..n][i]; } }
    }
  }

  lemma {:induction false} MembersEqualMeansSame(fs: seq<TypeDesc>, xs: seq<Stored>, ys: seq<Stored>, h: Heap)
    requires |fs| == |xs| == |ys| && MembersValid(fs, xs, h) && MembersValid(fs, ys, h)
    ensures Judges(MembersEqual(fs, xs, ys, h),
                   VisibleMembers(fs, MeaningMembers(fs, xs, h)) == VisibleMembers(fs, MeaningMembers(fs, ys, h)), MembersComparable(fs, xs, h))
    decreases fs, 0
  {
    if fs != [] {
      var n := |fs| - 1;
      MembersEqualMeansSame(fs[..n], xs[..n], ys[..n], h);
      if fs[n].Walked() { EqualMeansSame(fs[n], xs[n], ys[n], h); }
      var ms, ks := MeaningMembers(fs, xs, h), MeaningMembers(fs, ys, h);
      assert ms[..n] == MeaningMembers(fs[..n], xs[..n], h) && ks[..n] == MeaningMembers(fs[..n], ys[..n], h);
      SnocEqual(VisibleMembers(fs[..n], ms[..n]), if fs[n].Walked() then Visible(fs[n], ms[n]) else ms[n],
        VisibleMembers(fs[..n], ks[..n]), if fs[n].Walked() then Visible(fs[n], ks[n]) else ks[n]);
      MembersComparableSnoc(fs, xs, h);
    }
  }

  lemma MembersComparableSnoc(fs: seq<TypeDesc>, xs: seq<Stored>, h: Heap)
    requires |fs| == |xs| > 0
    ensures var n := |fs| - 1;
            MembersComparable(fs, xs, h) <==> MembersComparable(fs[..n], xs[..n], h) && (fs[n].Walked() ==> Comparable(fs[n], xs[n], h))
  {
    var n := |fs| - 1;
    if MembersComparable(fs[..n], xs[..n], h) && (fs[n].Walked() ==> Comparable(fs[n], xs[n], h)) {
      forall i | 0 <= i < |fs| && fs[i].Walked() ensures Comparable(fs[i], xs[i], h) {
        if i < n { assert fs[i] == fs[..n][i] && xs[i] == xs[..n][i]; }
      }
    }
    if MembersComparable(fs, xs, h) {
      forall i | 0 <= i < n && fs[..n][i].Walked() ensures Comparable(fs[..n][i], xs[..n][i], h) { assert fs[i] == fs[..n][i]; }
    }
  }

  // ---------------------------------------------------------------- how far a comparison of arrays gets

  /** The number of elements the comparison of two arrays of `n` elements can look at. */
  function Reached(n: nat, stride: nat): nat {
    if n <= 1 || stride <= 1 then n else (n + stride - 1) / stride
  }

  lemma ReachedExact(n: nat, stride: nat)
    ensures var c := Reached(n, stride);
            c <= n && OffsetsInRange(c, stride, n) && (c < n ==> !InRange(c, stride, n)) && (c == n <==> n <= 1 || stride <= 1)
  {
    if n > 1 && stride > 1 {
      var c := Reached(n, stride);
      RoundedUp(n, stride);
      forall i: nat | i < c ensures InRange(i, stride, n) { OffsetBelow(i, c - 1, stride); }
    } else {
      AllInRange(n, stride);
    }
  }

  lemma RoundedUp(n: nat, s: nat)
    requires n > 1 && s > 1
    ensures var c := (n + s - 1) / s; 0 < c < n && n <= c * s && (c - 1) * s < n
  {
    var c := (n + s - 1) / s;
    assert c * s + (n + s - 1) % s == n + s - 1;
    assert (c - 1) * s == c * s - s;
    if c >= n {
      OffsetBelow(n, c, s);
      OffsetBelow(2, n, s);
      OffsetGrows(2, s, n);
    }
  }

  lemma OffsetBelow(i: nat, k: nat, s: nat)
    requires i <= k
    ensures i * s <= k * s
  {
  }

  /** Up to the first element that is not equal. */
  lemma {:induction false} PrefixVerdict(e: TypeDesc, xs: seq<Stored>, ys: seq<Stored>, stride: nat, total: nat, h: Heap, k: nat)
    requires |xs| == |ys| && AllValid(e, xs, h) && AllValid(e, ys, h) && k <= |xs|
    requires OffsetsInRange(k, stride, total) && forall i | 0 <= i < k :: FieldsEqual(e, xs[i], ys[i], h) == Equal
    ensures k == |xs| ==> AllEqual(e, xs, ys, stride, total, h) == Equal
    ensures k < |xs| && !InRange(k, stride, total) ==> AllEqual(e, xs, ys, stride, total, h) == Trap
    ensures k < |xs| && InRange(k, stride, total) && FieldsEqual(e, xs[k], ys[k], h) != Equal ==>
              AllEqual(e, xs, ys, stride, total, h) == FieldsEqual(e, xs[k], ys[k], h)
    decreases |xs|
  {
    if xs != [] {
      var n := |xs| - 1;
      PrefixVerdict(e, xs[..n], ys[..n], stride, total, h, if k < n then k else n);
    }
  }

  /** The first `c` pairs up to one that does not compare equal. */
  lemma FirstOther(e: TypeDesc, xs: seq<Stored>, ys: seq<Stored>, h: Heap, c: nat) returns (k: nat)
    requires |xs| == |ys| && AllValid(e, xs, h) && AllValid(e, ys, h) && c <= |xs|
    ensures k <= c && (forall i | 0 <= i < k :: FieldsEqual(e, xs[i], ys[i], h) == Equal)
    ensures k < c ==> FieldsEqual(e, xs[k], ys[k], h) != Equal
  {
    k := 0;
    while k < c && FieldsEqual(e, xs[k], ys[k], h) == Equal
      invariant k <= c && forall i | 0 <= i < k :: FieldsEqual(e, xs[i], ys[i], h) == Equal
    {
      k := k + 1;
    }
  }

  /**
   What comparing two dynamic arrays gives. Of `n` elements it looks at the first `Reached(n, size)`: it answers no
   exactly when the lengths differ or the first of these that is not equal differs, yes exactly when these are all
   elements and all are equal, and traps otherwise.
   */
  lemma ArrayVerdict(d: TypeDesc, e: TypeDesc, a: Stored, b: Stored, h: Heap)
    requires d.body == DynArray(e) && Valid(d, a, h) && Valid(d, b, h)
    ensures var xs, ys := ElementsOf(a, h), ElementsOf(b, h);
            var v := BodiesEqual(d, a, b, h);
            && AllValid(e, xs, h) && AllValid(e, ys, h)
            && (|xs| != |ys| ==> v == Unequal)
            && (|xs| == |ys| ==>
                  && (v == Equal <==> (|xs| <= 1 || e.size <= 1) && forall i | 0 <= i < |xs| :: FieldsEqual(e, xs[i], ys[i], h) == Equal)
                  && (v == Unequal <==> exists k | 0 <= k < Reached(|xs|, e.size) && k < |xs| ::
                        FieldsEqual(e, xs[k], ys[k], h) == Unequal && forall i | 0 <= i < k :: FieldsEqual(e, xs[i], ys[i], h) == Equal))
  {
    var xs, ys := ElementsOf(a, h), ElementsOf(b, h);
    if |xs| == |ys| {
      var c := Reached(|xs|, e.size);
      ReachedExact(|xs|, e.size);
      var k := FirstOther(e, xs, ys, h, c);
      PrefixVerdict(e, xs, ys, e.size, |xs|, h, k);
    }
  }

  lemma SnocEqual<T>(s: seq<T>, x: T, t: seq<T>, y: T)
    requires |s| == |t|
    ensures s + [x] == t + [y] <==> s == t && x == y
  {
    if s + [x] == t + [y] {
      assert s == (s + [x])[..|s|] && t == (t + [y])[..|t|];
      assert x == (s + [x])[|s|] && y == (t + [y])[|t|];
    }
  }

  // ---------------------------------------------------------------- deep copy

  /** The copy, the heap with its blocks, and the next free number. */
  datatype Copy = Copy(v: Stored, h: Heap, next: nat)
  datatype Copies = Copies(vs: seq<Stored>, h: Heap, next: nat)

  function Copied(d: TypeDesc, v: Stored, h: Heap, next: nat): Copy
    decreases d, 0
  {
    match d.body
    case SizedBuffer => CopiedBuffer(v, h, next)
    case String => CopiedBuffer(v, h, next)
    case DynArray(e) =>
      if !HasElements(v, h) then Copy(Array(0), h, next)
      else
        var r := CopiedAll(e, h[v.addr].elems, h, next + 1);
        Copy(Array(next), r.h[next := Elements(r.vs)], r.next)
    case ConstantArray(e, _) =>
      var r := CopiedAll(e, if v.Group? then v.parts else [], h, next);
      Copy(Group(r.vs), r.h, r.next)
    case AliasOf(t) => Copied(t, v, h, next)
    case Struct(fs, _) =>
      if v.Group? && |v.parts| == |fs| then
        var r := CopiedMembers(fs, v.parts, h, next);
        Copy(Group(r.vs), r.h, r.next)
      else Copy(v, h, next)
    case _ => Copy(v, h, next)
  }

  /** An empty source gives the empty buffer. */
  function CopiedBuffer(v: Stored, h: Heap, next: nat): Copy {
    if !HasData(v, h) || v.size == 0 then Copy(Buffer(0, 0), h, next)
    else Copy(Buffer(next, v.size), h[next := h[v.addr]], next + 1)
  }

  function CopiedAll(e: TypeDesc, vs: seq<Stored>, h: Heap, next: nat): (r: Copies)
    ensures |r.vs| == |vs|
    decreases e, 1, |vs|
  {
    if vs == [] then Copies([], h, next)
    else
      var front := CopiedAll(e, vs[..|vs| - 1], h, next);
      var last := Copied(e, vs[|vs| - 1], front.h, front.next);
      Copies(front.vs + [last.v], last.h, last.next)
  }

  /** The whole struct is copied bitwise, then the walked members deeply. */
  function CopiedMembers(fs: seq<TypeDesc>, vs: seq<Stored>, h: Heap, next: nat): (r: Copies)
    requires |fs| == |vs|
    ensures |r.vs| == |vs|
    decreases fs, 0
  {
    if fs == [] then Copies([], h, next)
    else
      var n := |fs| - 1;
      var front := CopiedMembers(fs[..n], vs[..n], h, next);
      if fs[n].Walked() then
        var last := Copied(fs[n], vs[n], front.h, front.next);
        Copies(front.vs + [last.v], last.h, last.next)
      else Copies(front.vs + [vs[n]], front.h, front.next)
  }

  // ---------------------------------------------------------------- what a copy does to the heap

  ghost predicate Below(h: Heap, next: nat) { next > 0 && forall a | a in h :: 0 < a < next }

  /** `t` is `h` with blocks `m` to `n` added. */
  ghost predicate Grown(h: Heap, m: nat, t: Heap, n: nat) {
    && m <= n
    && (forall a | a in h :: a in t && t[a] == h[a])
    && (forall a: nat :: a in t <==> a in h || m <= a < n)
  }

  lemma GrownTwice(h: Heap, k: nat, t: Heap, m: nat, u: Heap, n: nat)
    requires Below(h, k) && Grown(h, k, t, m) && Grown(t, m, u, n)
    ensures Grown(h, k, u, n) && Below(t, m)
  {
  }

  /** The source stays valid, and means the same, in a heap that has more blocks. */
  lemma {:induction false} Keeps(d: TypeDesc, v: Stored, h: Heap, t: Heap)
    requires Valid(d, v, h) && forall a | a in h :: a in t && t[a] == h[a]
    ensures Valid(d, v, t) && Meaning(d, v, t) == Meaning(d, v, h)
    decreases d, 0
  {
    match d.body
    case DynArray(e) => if v.addr != 0 { KeepsAll(e, h[v.addr].elems, h, t); }
    case ConstantArray(e, _) => KeepsAll(e, v.parts, h, t);
    case AliasOf(u) => Keeps(u, v, h, t);
    case Struct(fs, _) => KeepsMembers(fs, v.parts, h, t);
    case _ =>
  }

  lemma {:induction false} KeepsAll(e: TypeDesc, vs: seq<Stored>, h: Heap, t: Heap)
    requires AllValid(e, vs, h) && forall a | a in h :: a in t && t[a] == h[a]
    ensures AllValid(e, vs, t) && MeaningAll(e, vs, t) == MeaningAll(e, vs, h)
    decreases e, 1, |vs|
  {
    if vs != [] {
      var n := |vs| - 1;
      KeepsAll(e, vs[..n], h, t);
      Keeps(e, vs[n], h, t);
      forall i | 0 <= i < |vs| ensures Valid(e, vs[i], t) { if i < n { assert vs[i] == vs[..n][i]; } }
    }
  }

  lemma {:induction false} KeepsMembers(fs: seq<TypeDesc>, vs: seq<Stored>, h: Heap, t: Heap)
    requires |fs| == |vs| && MembersValid(fs, vs, h) && forall a | a in h :: a in t && t[a] == h[a]
    ensures MembersValid(fs, vs, t) && MeaningMembers(fs, vs, t) == MeaningMembers(fs, vs, h)
    decreases fs, 0
  {
    if fs != [] {
      var n := |fs| - 1;
      KeepsMembers(fs[..n], vs[..n], h, t);
      if fs[n].Walked() { Keeps(fs[n], vs[n], h, t); }
      forall i | 0 <= i < |fs| && fs[i].Walked() ensures Valid(fs[i], vs[i], t) {
        if i < n { assert vs[i] == vs[..n][i] && fs[i] == fs[..n][i]; }
      }
    }
  }

  /** A copy adds fresh blocks only and touches no existing one. */
  lemma {:induction false} CopyGrows(d: TypeDesc, v: Stored, h: Heap, next: nat)
    requires Below(h, next)
    ensures var c := Copied(d, v, h, next); Grown(h, next, c.h, c.next) && Below(c.h, c.next)
    decreases d, 0
  {
    match d.body
    case DynArray(e) =>
      if HasElements(v, h) {
        CopyAllGrows(e, h[v.addr].elems, h, next + 1);
      }
    case ConstantArray(e, _) => CopyAllGrows(e, if v.Group? then v.parts else [], h, next);
    case AliasOf(t) => CopyGrows(t, v, h, next);
    case Struct(fs, _) => if v.Group? && |v.parts| == |fs| { CopyMembersGrows(fs, v.parts, h, next); }
    case _ =>
  }

  lemma {:induction false} CopyAllGrows(e: TypeDesc, vs: seq<Stored>, h: Heap, next: nat)
    requires Below(h, next)
    ensures var c := CopiedAll(e, vs, h, next); Grown(h, next, c.h, c.next) && Below(c.h, c.next)
    decreases e, 1, |vs|
  {
    if vs != [] {
      var n := |vs| - 1;
      CopyAllGrows(e, vs[..n], h, next);
      var front := CopiedAll(e, vs[..n], h, next);
      CopyGrows(e, vs[n], front.h, front.next);
      var last := Copied(e, vs[n], front.h, front.next);
      GrownTwice(h, next, front.h, front.next, last.h, last.next);
    }
  }

  lemma {:induction false} CopyMembersGrows(fs: seq<TypeDesc>, vs: seq<Stored>, h: Heap, next: nat)
    requires |fs| == |vs| && Below(h, next)
    ensures var c := CopiedMembers(fs, vs, h, next); Grown(h, next, c.h, c.next) && Below(c.h, c.next)
    decreases fs, 0
  {
    if fs != [] {
      var n := |fs| - 1;
      CopyMembersGrows(fs[..n], vs[..n], h, next);
      if fs[n].Walked() {
        var front := CopiedMembers(fs[..n], vs[..n], h, next);
        CopyGrows(fs[n], vs[n], front.h, front.next);
        var last := Copied(fs[n], vs[n], front.h, front.next);
        GrownTwice(h, next, front.h, front.next, last.h, last.next);
      }
    }
  }

  // ---------------------------------------------------------------- the copy means what the source means

  /** Blocks `m` to `n` of `t` are those of `u`. */
  ghost predicate Agree(t: Heap, u: Heap, m: nat, n: nat) {
    forall a: nat | m <= a < n :: a in t && a in u && u[a] == t[a]
  }

  /** The blocks of the first part of a copy are final. */
  lemma AgreeSplit(f: Heap, t: Heap, u: Heap, k: nat, m: nat, n: nat)
    requires k <= m <= n && Grown(f, m, t, n) && Agree(t, u, k, n) && (forall a: nat | k <= a < m :: a in f)
    ensures Agree(f, u, k, m) && Agree(t, u, m, n) && Agree(t, u - Interval(k, m), m, n)
  {
  }

  /** The numbers from `m` up to `n`. */
  function Interval(m: nat, n: nat): (s: set<nat>)
    ensures forall a: nat :: a in s <==> m <= a < n
    decreases n
  {
    if n <= m then {} else Interval(m, n - 1) + {n - 1}
  }

  /**
   In every heap that has the copy's own blocks, whatever else it holds, the copy is valid and means what the source
   meant when it was copied.
   */
  lemma {:induction false} CopyMeans(d: TypeDesc, v: Stored, h: Heap, next: nat, u: Heap)
    requires Below(h, next) && Valid(d, v, h)
    requires var c := Copied(d, v, h, next); Agree(c.h, u, next, c.next)
    ensures var c := Copied(d, v, h, next); Valid(d, c.v, u) && Meaning(d, c.v, u) == Meaning(d, v, h)
    decreases d, 0
  {
    match d.body
    case DynArray(e) =>
      if HasElements(v, h) {
        var r := CopiedAll(e, h[v.addr].elems, h, next + 1);
        CopyAllGrows(e, h[v.addr].elems, h, next + 1);
        CopyAllMeans(e, h[v.addr].elems, h, next + 1, u);
      } else {
        assert MeaningAll(e, [], h) == [];
      }
    case ConstantArray(e, _) => CopyAllMeans(e, v.parts, h, next, u);
    case AliasOf(t) => CopyMeans(t, v, h, next, u);
    case Struct(fs, _) => CopyMembersMeans(fs, v.parts, h, next, u);
    case _ =>
  }

  lemma {:induction false} CopyAllMeans(e: TypeDesc, vs: seq<Stored>, h: Heap, next: nat, u: Heap)
    requires Below(h, next) && AllValid(e, vs, h)
    requires var c := CopiedAll(e, vs, h, next); Agree(c.h, u, next, c.next)
    ensures var c := CopiedAll(e, vs, h, next); AllValid(e, c.vs, u) && MeaningAll(e, c.vs, u) == MeaningAll(e, vs, h)
    decreases e, 1, |vs|
  {
    if vs != [] {
      var n := |vs| - 1;
      var front := CopiedAll(e, vs[..n], h, next);
      var last := Copied(e, vs[n], front.h, front.next);
      CopyAllGrows(e, vs[..n], h, next);
      CopyGrows(e, vs[n], front.h, front.next);
      AgreeSplit(front.h, last.h, u, next, front.next, last.next);
      CopyAllMeans(e, vs[..n], h, next, u);
      Keeps(e, vs[n], h, front.h);
      CopyMeans(e, vs[n], front.h, front.next, u);
      assert (front.vs + [last.v])[..n] == front.vs;
      forall i | 0 <= i <= n ensures Valid(e, (front.vs + [last.v])[i], u) { if i < n { assert Valid(e, front.vs[i], u); } }
    }
  }

  /** One more member with the meaning it should have. */
  lemma MembersJoin(fs: seq<TypeDesc>, vs: seq<Stored>, h: Heap, front: seq<Stored>, last: Stored, u: Heap)
    requires |fs| == |vs| == |front| + 1
    requires var n := |front|;
             && MembersValid(fs[..n], front, u) && MeaningMembers(fs[..n], front, u) == MeaningMembers(fs[..n], vs[..n], h)
             && (fs[n].Walked() ==> Valid(fs[n], last, u) && Meaning(fs[n], last, u) == Meaning(fs[n], vs[n], h))
    ensures MembersValid(fs, front + [last], u) && MeaningMembers(fs, front + [last], u) == MeaningMembers(fs, vs, h)
  {
    var n := |front|;
    assert (front + [last])[..n] == front;
    forall i | 0 <= i <= n && fs[i].Walked() ensures Valid(fs[i], (front + [last])[i], u) {
      if i < n { assert fs[i] == fs[..n][i]; }
    }
  }

  lemma {:induction false} CopyMembersMeans(fs: seq<TypeDesc>, vs: seq<Stored>, h: Heap, next: nat, u: Heap)
    requires |fs| == |vs| && Below(h, next) && MembersValid(fs, vs, h)
    requires var c := CopiedMembers(fs, vs, h, next); Agree(c.h, u, next, c.next)
    ensures var c := CopiedMembers(fs, vs, h, next); MembersValid(fs, c.vs, u) && MeaningMembers(fs, c.vs, u) == MeaningMembers(fs, vs, h)
    decreases fs, 0
  {
    if fs != [] {
      var n := |fs| - 1;
      var front := CopiedMembers(fs[..n], vs[..n], h, next);
      CopyMembersGrows(fs[..n], vs[..n], h, next);
      if fs[n].Walked() {
        CopyGrows(fs[n], vs[n], front.h, front.next);
        var last := Copied(fs[n], vs[n], front.h, front.next);
        AgreeSplit(front.h, last.h, u, next, front.next, last.next);
        CopyMembersMeans(fs[..n], vs[..n], h, next, u);
        Keeps(fs[n], vs[n], h, front.h);
        CopyMeans(fs[n], vs[n], front.h, front.next, u);
        MembersJoin(fs, vs, h, front.vs, last.v, u);
      } else {
        CopyMembersMeans(fs[..n], vs[..n], h, next, u);
        MembersJoin(fs, vs, h, front.vs, vs[n], u);
      }
    }
  }

  // ---------------------------------------------------------------- what the walk skips

  /**
   At every struct that is reached through aliases, arrays and visited members, `w` in heap `u` holds in each member
   that is not visited what `v` in heap `h` holds there, address for address.
   */
  ghost predicate SameSkipped(d: TypeDesc, v: Stored, h: Heap, w: Stored, u: Heap)
    decreases d, 1
  {
    match d.body
    case DynArray(e) =>
      HasElements(v, h) ==> HasElements(w, u) && |h[v.addr].elems| == |u[w.addr].elems| && AllSameSkipped(e, h[v.addr].elems, h, u[w.addr].elems, u)
    case ConstantArray(e, _) => v.Group? && w.Group? && |v.parts| == |w.parts| && AllSameSkipped(e, v.parts, h, w.parts, u)
    case AliasOf(t) => SameSkipped(t, v, h, w, u)
    case Struct(fs, _) => v.Group? && w.Group? && |v.parts| == |w.parts| == |fs| && MembersSameSkipped(fs, v.parts, h, w.parts, u)
    case _ => true
  }

  ghost predicate AllSameSkipped(e: TypeDesc, vs: seq<Stored>, h: Heap, ws: seq<Stored>, u: Heap)
    requires |vs| == |ws|
    decreases e, 2
  {
    forall i | 0 <= i < |vs| :: SameSkipped(e, vs[i], h, ws[i], u)
  }

  ghost predicate MembersSameSkipped(fs: seq<TypeDesc>, vs: seq<Stored>, h: Heap, ws: seq<Stored>, u: Heap)
    requires |fs| == |vs| == |ws|
    decreases fs, 0
  {
    forall i | 0 <= i < |fs| :: if fs[i].Walked() then SameSkipped(fs[i], vs[i], h, ws[i], u) else ws[i] == vs[i]
  }

  /** The copy is made bitwise first: members the walk does not visit are those of the source. */
  lemma {:induction false} CopyKeepsSkipped(d: TypeDesc, v: Stored, h: Heap, next: nat, u: Heap)
    requires Below(h, next) && Valid(d, v, h)
    requires var c := Copied(d, v, h, next); Agree(c.h, u, next, c.next)
    ensures SameSkipped(d, v, h, Copied(d, v, h, next).v, u)
    decreases d, 0
  {
    match d.body
    case DynArray(e) =>
      if HasElements(v, h) {
        var r := CopiedAll(e, h[v.addr].elems, h, next + 1);
        CopyAllGrows(e, h[v.addr].elems, h, next + 1);
        AgreeInside(r.h, Elements(r.vs), u, next, r.next);
        CopyAllKeepsSkipped(e, h[v.addr].elems, h, next + 1, u);
      }
    case ConstantArray(e, _) => CopyAllKeepsSkipped(e, v.parts, h, next, u);
    case AliasOf(t) => CopyKeepsSkipped(t, v, h, next, u);
    case Struct(fs, _) => CopyMembersKeepsSkipped(fs, v.parts, h, next, u);
    case _ =>
  }

  lemma {:induction false} CopyAllKeepsSkipped(e: TypeDesc, vs: seq<Stored>, h: Heap, next: nat, u: Heap)
    requires Below(h, next) && AllValid(e, vs, h)
    requires var c := CopiedAll(e, vs, h, next); Agree(c.h, u, next, c.next)
    ensures AllSameSkipped(e, vs, h, CopiedAll(e, vs, h, next).vs, u)
    decreases e, 1, |vs|
  {
    if vs != [] {
      var n := |vs| - 1;
      var front := CopiedAll(e, vs[..n], h, next);
      var last := Copied(e, vs[n], front.h, front.next);
      CopyAllGrows(e, vs[..n], h, next);
      CopyGrows(e, vs[n], front.h, front.next);
      AgreeSplit(front.h, last.h, u, next, front.next, last.next);
      CopyAllKeepsSkipped(e, vs[..n], h, next, u);
      Keeps(e, vs[n], h, front.h);
      CopyKeepsSkipped(e, vs[n], front.h, front.next, u);
      SkippedInMore(e, vs[n], h, front.h, last.v, u);
      SkippedSnoc(e, vs, h, front.vs, last.v, u);
    }
  }

  lemma SkippedSnoc(e: TypeDesc, vs: seq<Stored>, h: Heap, front: seq<Stored>, last: Stored, u: Heap)
    requires |vs| == |front| + 1 && AllSameSkipped(e, vs[..|front|], h, front, u) && SameSkipped(e, vs[|front|], h, last, u)
    ensures AllSameSkipped(e, vs, h, front + [last], u)
  {
    var n := |front|;
    forall i | 0 <= i <= n ensures SameSkipped(e, vs[i], h, (front + [last])[i], u) {
      if i < n { assert vs[..n][i] == vs[i] && SameSkipped(e, vs[..n][i], h, front[i], u); }
    }
  }

  lemma {:induction false} CopyMembersKeepsSkipped(fs: seq<TypeDesc>, vs: seq<Stored>, h: Heap, next: nat, u: Heap)
    requires |fs| == |vs| && Below(h, next) && MembersValid(fs, vs, h)
    requires var c := CopiedMembers(fs, vs, h, next); Agree(c.h, u, next, c.next)
    ensures MembersSameSkipped(fs, vs, h, CopiedMembers(fs, vs, h, next).vs, u)
    decreases fs, 0
  {
    if fs != [] {
      var n := |fs| - 1;
      var front := CopiedMembers(fs[..n], vs[..n], h, next);
      CopyMembersGrows(fs[..n], vs[..n], h, next);
      if fs[n].Walked() {
        CopyGrows(fs[n], vs[n], front.h, front.next);
        var last := Copied(fs[n], vs[n], front.h, front.next);
        AgreeSplit(front.h, last.h, u, next, front.next, last.next);
        CopyMembersKeepsSkipped(fs[..n], vs[..n], h, next, u);
        Keeps(fs[n], vs[n], h, front.h);
        CopyKeepsSkipped(fs[n], vs[n], front.h, front.next, u);
        SkippedInMore(fs[n], vs[n], h, front.h, last.v, u);
        SkippedJoin(fs, vs, h, front.vs, last.v, u);
      } else {
        CopyMembersKeepsSkipped(fs[..n], vs[..n], h, next, u);
        SkippedJoin(fs, vs, h, front.vs, vs[n], u);
      }
    }
  }

  lemma SkippedJoin(fs: seq<TypeDesc>, vs: seq<Stored>, h: Heap, front: seq<Stored>, last: Stored, u: Heap)
    requires |fs| == |vs| == |front| + 1
    requires var n := |front|;
             && MembersSameSkipped(fs[..n], vs[..n], h, front, u)
             && if fs[n].Walked() then SameSkipped(fs[n], vs[n], h, last, u) else last == vs[n]
    ensures MembersSameSkipped(fs, vs, h, front + [last], u)
  {
    var n := |front|;
    forall i | 0 <= i <= n
      ensures if fs[i].Walked() then SameSkipped(fs[i], vs[i], h, (front + [last])[i], u) else (front + [last])[i] == vs[i]
    {
      if i < n { assert fs[i] == fs[..n][i] && vs[i] == vs[..n][i]; }
    }
  }

  /** The source is the same value in a heap that has more blocks. */
  lemma {:induction false} SkippedInMore(d: TypeDesc, v: Stored, h: Heap, t: Heap, w: Stored, u: Heap)
    requires Valid(d, v, h) && (forall a | a in h :: a in t && t[a] == h[a]) && SameSkipped(d, v, t, w, u)
    ensures SameSkipped(d, v, h, w, u)
    decreases d
  {
    match d.body
    case DynArray(e) =>
      if HasElements(v, h) {
        forall i | 0 <= i < |h[v.addr].elems| ensures SameSkipped(e, h[v.addr].elems[i], h, u[w.addr].elems[i], u) {
          SkippedInMore(e, h[v.addr].elems[i], h, t, u[w.addr].elems[i], u);
        }
      }
    case ConstantArray(e, _) =>
      forall i | 0 <= i < |v.parts| ensures SameSkipped(e, v.parts[i], h, w.parts[i], u) { SkippedInMore(e, v.parts[i], h, t, w.parts[i], u); }
    case AliasOf(x) => SkippedInMore(x, v, h, t, w, u);
    case Struct(fs, _) =>
      forall i | 0 <= i < |fs| && fs[i].Walked() ensures SameSkipped(fs[i], v.parts[i], h, w.parts[i], u) {
        SkippedInMore(fs[i], v.parts[i], h, t, w.parts[i], u);
      }
    case _ =>
  }

  // ---------------------------------------------------------------- destruction

  /** Freeing a block that is not there is an error. */
  datatype Gone = Gone(h: Heap) | BadFree

  function Freed(h: Heap, addr: nat): Gone {
    if addr in h then Gone(h - {addr}) else BadFree
  }

  function Destroyed(d: TypeDesc, v: Stored, h: Heap): Gone
    decreases d, 0
  {
    match d.body
    case SizedBuffer => if v.Buffer? && v.addr != 0 then Freed(h, v.addr) else Gone(h)
    case String => if v.Buffer? && v.addr != 0 then Freed(h, v.addr) else Gone(h)
    case DynArray(e) =>
      if !v.Array? || v.addr == 0 then Gone(h)
      else if !HasElements(v, h) then BadFree
      else
        var r := DestroyedAll(e, h[v.addr].elems, h);
        if r.BadFree? then BadFree else Freed(r.h, v.addr)
    case ConstantArray(e, _) => if v.Group? then DestroyedAll(e, v.parts, h) else Gone(h)
    case AliasOf(t) => Destroyed(t, v, h)
    case Struct(fs, _) => if v.Group? && |v.parts| == |fs| then DestroyedMembers(fs, v.parts, h) else Gone(h)
    case _ => Gone(h)
  }

  function DestroyedAll(e: TypeDesc, vs: seq<Stored>, h: Heap): Gone
    decreases e, 1, |vs|
  {
    if vs == [] then Gone(h)
    else
      var r := DestroyedAll(e, vs[..|vs| - 1], h);
      if r.BadFree? then BadFree else Destroyed(e, vs[|vs| - 1], r.h)
  }

  function DestroyedMembers(fs: seq<TypeDesc>, vs: seq<Stored>, h: Heap): Gone
    requires |fs| == |vs|
    decreases fs, 0
  {
    if fs == [] then Gone(h)
    else
      var n := |fs| - 1;
      var r := DestroyedMembers(fs[..n], vs[..n], h);
      if r.BadFree? || !fs[n].Walked() then r else Destroyed(fs[n], vs[n], r.h)
  }

  lemma IntervalJoin(h: Heap, k: nat, m: nat, n: nat)
    requires k <= m <= n
    ensures (h - Interval(k, m)) - Interval(m, n) == h - Interval(k, n)
  {
    assert Interval(k, m) + Interval(m, n) == Interval(k, n);
  }

  /** Destroying a copy frees exactly the blocks the copy allocated, each once, in every heap that has them. */
  lemma {:induction false} DestroyCopy(d: TypeDesc, v: Stored, h: Heap, next: nat, u: Heap)
    requires Below(h, next) && Valid(d, v, h)
    requires var c := Copied(d, v, h, next); Agree(c.h, u, next, c.next)
    ensures var c := Copied(d, v, h, next); Destroyed(d, c.v, u) == Gone(u - Interval(next, c.next))
    decreases d, 0
  {
    match d.body
    case SizedBuffer => DestroyBufferCopy(v, h, next, u);
    case String => DestroyBufferCopy(v, h, next, u);
    case DynArray(e) =>
      if HasElements(v, h) {
        DestroyArrayCopy(e, h[v.addr].elems, h, next, u);
      } else {
        assert u - Interval(next, next) == u;
      }
    case ConstantArray(e, _) => DestroyAllCopies(e, v.parts, h, next, u);
    case AliasOf(t) => DestroyCopy(t, v, h, next, u);
    case Struct(fs, _) => DestroyMemberCopies(fs, v.parts, h, next, u);
    case _ => assert u - Interval(next, next) == u;
  }

  lemma AgreeInside(t: Heap, b: Block, u: Heap, m: nat, n: nat)
    requires m < n && Agree(t[m := b], u, m, n)
    ensures Agree(t, u, m + 1, n) && m in u && u[m] == b
  {
    var w := t[m := b];
    assert m in w && m in u && u[m] == w[m];
    forall a: nat | m + 1 <= a < n ensures a in t && a in u && u[a] == t[a] {
      assert a in w && w[a] == t[a];
    }
  }

  lemma {:induction false} DestroyArrayCopy(e: TypeDesc, vs: seq<Stored>, h: Heap, next: nat, u: Heap)
    requires Below(h, next) && AllValid(e, vs, h)
    requires var r := CopiedAll(e, vs, h, next + 1); Agree(r.h[next := Elements(r.vs)], u, next, r.next)
    ensures var r := CopiedAll(e, vs, h, next + 1);
            next in u && u[next] == Elements(r.vs)
            && DestroyedAll(e, r.vs, u) == Gone(u - Interval(next + 1, r.next))
            && Freed(u - Interval(next + 1, r.next), next) == Gone(u - Interval(next, r.next))
    decreases e, 2
  {
    var r := CopiedAll(e, vs, h, next + 1);
    CopyAllGrows(e, vs, h, next + 1);
    AgreeInside(r.h, Elements(r.vs), u, next, r.next);
    DestroyAllCopies(e, vs, h, next + 1, u);
    assert (u - Interval(next + 1, r.next)) - {next} == u - Interval(next, r.next);
  }

  lemma DestroyBufferCopy(v: Stored, h: Heap, next: nat, u: Heap)
    requires Below(h, next) && v.Buffer?
    requires var c := CopiedBuffer(v, h, next); Agree(c.h, u, next, c.next)
    ensures var c := CopiedBuffer(v, h, next);
            c.v.Buffer? && (if c.v.addr != 0 then Freed(u, c.v.addr) else Gone(u)) == Gone(u - Interval(next, c.next))
  {
    assert u - Interval(next, next) == u;
    assert Interval(next, next + 1) == {next};
  }

  lemma {:induction false} DestroyAllCopies(e: TypeDesc, vs: seq<Stored>, h: Heap, next: nat, u: Heap)
    requires Below(h, next) && AllValid(e, vs, h)
    requires var c := CopiedAll(e, vs, h, next); Agree(c.h, u, next, c.next)
    ensures var c := CopiedAll(e, vs, h, next); DestroyedAll(e, c.vs, u) == Gone(u - Interval(next, c.next))
    decreases e, 1, |vs|
  {
    if vs == [] {
      assert CopiedAll(e, vs, h, next) == Copies([], h, next);
      assert u - Interval(next, next) == u;
    } else {
      var n := |vs| - 1;
      var front := CopiedAll(e, vs[..n], h, next);
      var c := CopiedAll(e, vs, h, next);
      assert c.vs[..n] == front.vs;
      CopyAllGrows(e, vs[..n], h, next);
      CopyGrows(e, vs[n], front.h, front.next);
      AgreeSplit(front.h, c.h, u, next, front.next, c.next);
      DestroyAllCopies(e, vs[..n], h, next, u);
      Keeps(e, vs[n], h, front.h);
      DestroyCopy(e, vs[n], front.h, front.next, u - Interval(next, front.next));
      IntervalJoin(u, next, front.next, c.next);
      DestroyedSnoc(e, c.vs, n, u);
    }
  }

  lemma DestroyedSnoc(e: TypeDesc, vs: seq<Stored>, n: nat, u: Heap)
    requires |vs| == n + 1
    ensures DestroyedAll(e, vs, u) ==
              var r := DestroyedAll(e, vs[..n], u);
              if r.BadFree? then BadFree else Destroyed(e, vs[n], r.h)
  {
  }

  lemma {:induction false} DestroyMemberCopies(fs: seq<TypeDesc>, vs: seq<Stored>, h: Heap, next: nat, u: Heap)
    requires |fs| == |vs| && Below(h, next) && MembersValid(fs, vs, h)
    requires var c := CopiedMembers(fs, vs, h, next); Agree(c.h, u, next, c.next)
    ensures var c := CopiedMembers(fs, vs, h, next); DestroyedMembers(fs, c.vs, u) == Gone(u - Interval(next, c.next))
    decreases fs, 1
  {
    if fs == [] {
      assert u - Interval(next, next) == u;
    } else {
      var n := |fs| - 1;
      var front := CopiedMembers(fs[..n], vs[..n], h, next);
      var c := CopiedMembers(fs, vs, h, next);
      CopyMembersGrows(fs[..n], vs[..n], h, next);
      if fs[n].Walked() {
        CopyGrows(fs[n], vs[n], front.h, front.next);
        AgreeSplit(front.h, c.h, u, next, front.next, c.next);
        DestroyMemberCopies(fs[..n], vs[..n], h, next, u);
        DestroyLastCopy(fs, vs, h, next, u);
      } else {
        assert c.vs[..n] == front.vs;
        DestroyMemberCopies(fs[..n], vs[..n], h, next, u);
      }
    }
  }

  /** The copies of the other members are gone; the last one goes as well. */
  lemma {:induction false} DestroyLastCopy(fs: seq<TypeDesc>, vs: seq<Stored>, h: Heap, next: nat, u: Heap)
    requires |fs| == |vs| > 0 && fs[|fs| - 1].Walked() && Below(h, next) && MembersValid(fs, vs, h)
    requires var c := CopiedMembers(fs, vs, h, next); Agree(c.h, u, next, c.next)
    requires var n := |fs| - 1; var front := CopiedMembers(fs[..n], vs[..n], h, next);
             DestroyedMembers(fs[..n], front.vs, u) == Gone(u - Interval(next, front.next))
    ensures var c := CopiedMembers(fs, vs, h, next); DestroyedMembers(fs, c.vs, u) == Gone(u - Interval(next, c.next))
    decreases fs, 0
  {
    var n := |fs| - 1;
    var front := CopiedMembers(fs[..n], vs[..n], h, next);
    var c := CopiedMembers(fs, vs, h, next);
    assert c.vs[..n] == front.vs;
    CopyMembersGrows(fs[..n], vs[..n], h, next);
    CopyGrows(fs[n], vs[n], front.h, front.next);
    AgreeSplit(front.h, c.h, u, next, front.next, c.next);
    Keeps(fs[n], vs[n], h, front.h);
    DestroyCopy(fs[n], vs[n], front.h, front.next, u - Interval(next, front.next));
    IntervalJoin(u, next, front.next, c.next);
  }

  lemma {:induction false} ShrinksAnyway(d: TypeDesc, v: Stored, h: Heap)
    requires Destroyed(d, v, h).Gone?
    ensures forall a | a in Destroyed(d, v, h).h :: a in h && Destroyed(d, v, h).h[a] == h[a]
    decreases d, 0
  {
    match d.body
    case DynArray(e) => if HasElements(v, h) { ShrinksAll(e, h[v.addr].elems, h); }
    case ConstantArray(e, _) => if v.Group? { ShrinksAll(e, v.parts, h); }
    case AliasOf(t) => ShrinksAnyway(t, v, h);
    case Struct(fs, _) => if v.Group? && |v.parts| == |fs| { ShrinksMembers(fs, v.parts, h); }
    case _ =>
  }

  lemma {:induction false} ShrinksAll(e: TypeDesc, vs: seq<Stored>, h: Heap)
    requires DestroyedAll(e, vs, h).Gone?
    ensures forall a | a in DestroyedAll(e, vs, h).h :: a in h && DestroyedAll(e, vs, h).h[a] == h[a]
    decreases e, 1, |vs|
  {
    if vs != [] {
      ShrinksAll(e, vs[..|vs| - 1], h);
      ShrinksAnyway(e, vs[|vs| - 1], DestroyedAll(e, vs[..|vs| - 1], h).h);
    }
  }

  lemma {:induction false} ShrinksMembers(fs: seq<TypeDesc>, vs: seq<Stored>, h: Heap)
    requires |fs| == |vs| && DestroyedMembers(fs, vs, h).Gone?
    ensures forall a | a in DestroyedMembers(fs, vs, h).h :: a in h && DestroyedMembers(fs, vs, h).h[a] == h[a]
    decreases fs, 0
  {
    if fs != [] {
      var n := |fs| - 1;
      ShrinksMembers(fs[..n], vs[..n], h);
      if fs[n].Walked() { ShrinksAnyway(fs[n], vs[n], DestroyedMembers(fs[..n], vs[..n], h).h); }
    }
  }

  /** Destroying a value spares every block that was not there when the value was valid. */
  lemma {:induction false} DestroySpares(d: TypeDesc, v: Stored, h: Heap, u: Heap)
    requires Valid(d, v, h) && (forall a | a in h && a in u :: u[a] == h[a]) && Destroyed(d, v, u).Gone?
    ensures forall a | a in u && a !in h :: a in Destroyed(d, v, u).h && Destroyed(d, v, u).h[a] == u[a]
    decreases d, 0
  {
    match d.body
    case DynArray(e) => if HasElements(v, u) { DestroySparesAll(e, u[v.addr].elems, h, u); }
    case ConstantArray(e, _) => DestroySparesAll(e, v.parts, h, u);
    case AliasOf(t) => DestroySpares(t, v, h, u);
    case Struct(fs, _) => DestroySparesMembers(fs, v.parts, h, u);
    case _ =>
  }

  lemma {:induction false} DestroySparesAll(e: TypeDesc, vs: seq<Stored>, h: Heap, u: Heap)
    requires AllValid(e, vs, h) && (forall a | a in h && a in u :: u[a] == h[a]) && DestroyedAll(e, vs, u).Gone?
    ensures forall a | a in u && a !in h :: a in DestroyedAll(e, vs, u).h && DestroyedAll(e, vs, u).h[a] == u[a]
    decreases e, 1, |vs|
  {
    if vs != [] {
      var n := |vs| - 1;
      DestroySparesAll(e, vs[..n], h, u);
      ShrinksAll(e, vs[..n], u);
      DestroySpares(e, vs[n], h, DestroyedAll(e, vs[..n], u).h);
    }
  }

  lemma {:induction false} DestroySparesMembers(fs: seq<TypeDesc>, vs: seq<Stored>, h: Heap, u: Heap)
    requires |fs| == |vs| && MembersValid(fs, vs, h) && (forall a | a in h && a in u :: u[a] == h[a]) && DestroyedMembers(fs, vs, u).Gone?
    ensures forall a | a in u && a !in h :: a in DestroyedMembers(fs, vs, u).h && DestroyedMembers(fs, vs, u).h[a] == u[a]
    decreases fs, 0
  {
    if fs != [] {
      var n := |fs| - 1;
      DestroySparesMembers(fs[..n], vs[..n], h, u);
      ShrinksMembers(fs[..n], vs[..n], u);
      if fs[n].Walked() { DestroySpares(fs[n], vs[n], h, DestroyedMembers(fs[..n], vs[..n], u).h); }
    }
  }

  // ---------------------------------------------------------------- source and copy

  /**
   Comparing a value with its copy never finds a difference: it says equal if and only if every dynamic array it
   reaches has at most one element or elements of one byte, and traps otherwise. Every block the copy owns is fresh.
   */
  lemma CopyIsEqual(d: TypeDesc, v: Stored, h: Heap, next: nat)
    requires Below(h, next) && Valid(d, v, h)
    ensures var c := Copied(d, v, h, next);
            && Grown(h, next, c.h, c.next) && Valid(d, v, c.h) && Valid(d, c.v, c.h)
            && FieldsEqual(d, v, c.v, c.h) == if Comparable(d, v, h) then Equal else Trap
  {
    var c := Copied(d, v, h, next);
    CopyGrows(d, v, h, next);
    Keeps(d, v, h, c.h);
    CopyMeans(d, v, h, next, c.h);
    EqualMeansSame(d, v, c.v, c.h);
    KeepsComparable(d, v, h, c.h);
  }

  /** Whether a value can be compared depends on its own blocks only. */
  lemma {:induction false} KeepsComparable(d: TypeDesc, v: Stored, h: Heap, t: Heap)
    requires Valid(d, v, h) && forall a | a in h :: a in t && t[a] == h[a]
    ensures Comparable(d, v, t) <==> Comparable(d, v, h)
    decreases d, 1
  {
    if d.serializable { KeepsComparableBody(d, v, h, t); }
  }

  lemma {:induction false} KeepsComparableBody(d: TypeDesc, v: Stored, h: Heap, t: Heap)
    requires Valid(d, v, h) && forall a | a in h :: a in t && t[a] == h[a]
    ensures ComparableBody(d, v, t) <==> ComparableBody(d, v, h)
    decreases d, 0
  {
    match d.body
    case DynArray(e) =>
      assert ElementsOf(v, t) == ElementsOf(v, h);
      KeepsAllComparable(e, ElementsOf(v, h), h, t);
    case ConstantArray(e, _) => KeepsAllComparable(e, v.parts, h, t);
    case AliasOf(u) => if HasEquals(u) { KeepsComparableBody(u, v, h, t); } else { KeepsComparable(u, v, h, t); }
    case Struct(fs, _) =>
      forall i | 0 <= i < |fs| && fs[i].Walked() ensures Comparable(fs[i], v.parts[i], t) <==> Comparable(fs[i], v.parts[i], h) {
        KeepsComparable(fs[i], v.parts[i], h, t);
      }
    case _ =>
  }

  lemma {:induction false} KeepsAllComparable(e: TypeDesc, vs: seq<Stored>, h: Heap, t: Heap)
    requires AllValid(e, vs, h) && forall a | a in h :: a in t && t[a] == h[a]
    ensures AllComparable(e, vs, t) <==> AllComparable(e, vs, h)
    decreases e, 2
  {
    forall i | 0 <= i < |vs| ensures Comparable(e, vs[i], t) <==> Comparable(e, vs[i], h) { KeepsComparable(e, vs[i], h, t); }
  }

  /** A dynamic array of two numbers compared with its own copy: the second offset, 4, is not below 2. */
  lemma TwoNumbersTrap(x: Stored, y: Stored)
    requires x.Raw? && y.Raw?
    ensures var d, v, h := TypeDesc("values", true, 32, DynArray(TD_U32)), Array(1), map[1 := Elements([x, y])];
            var c := Copied(d, v, h, 2);
            && Valid(d, v, h) && Below(h, 2) && Valid(d, v, c.h) && Valid(d, c.v, c.h)
            && FieldsEqual(d, v, c.v, c.h) == Trap
  {
    var d, v, h := TypeDesc("values", true, 32, DynArray(TD_U32)), Array(1), map[1 := Elements([x, y])];
    assert AllValid(TD_U32, [x, y], h);
    CopyIsEqual(d, v, h, 2);
    assert ElementsOf(v, h) == [x, y];
  }

  /** Copying and destroying the copy gives back the heap there was: nothing leaks and nothing is freed twice. */
  lemma CopyThenDestroy(d: TypeDesc, v: Stored, h: Heap, next: nat)
    requires Below(h, next) && Valid(d, v, h)
    ensures var c := Copied(d, v, h, next); Destroyed(d, c.v, c.h) == Gone(h)
  {
    var c := Copied(d, v, h, next);
    CopyGrows(d, v, h, next);
    DestroyCopy(d, v, h, next, c.h);
    assert c.h - Interval(next, c.next) == h;
  }

  /** Destroying the source leaves the copy as it was. */
  lemma CopyOutlivesSource(d: TypeDesc, v: Stored, h: Heap, next: nat)
    requires Below(h, next) && Valid(d, v, h)
    requires Destroyed(d, v, Copied(d, v, h, next).h).Gone?
    ensures var c := Copied(d, v, h, next);
            var t := Destroyed(d, v, c.h).h;
            Valid(d, c.v, t) && Meaning(d, c.v, t) == Meaning(d, v, h)
  {
    var c := Copied(d, v, h, next);
    CopyGrows(d, v, h, next);
    DestroySpares(d, v, h, c.h);
    CopyMeans(d, v, h, next, Destroyed(d, v, c.h).h);
  }

  /** Neither does any other change outside the copy's blocks reach the copy, or one outside the old blocks the source. */
  lemma NoSharing(d: TypeDesc, v: Stored, h: Heap, next: nat, u: Heap)
    requires Below(h, next) && Valid(d, v, h)
    ensures var c := Copied(d, v, h, next);
            Agree(c.h, u, next, c.next) ==> Valid(d, c.v, u) && Meaning(d, c.v, u) == Meaning(d, v, h)
    ensures (forall a | a in h :: a in u && u[a] == h[a]) ==> Valid(d, v, u) && Meaning(d, v, u) == Meaning(d, v, h)
  {
    var c := Copied(d, v, h, next);
    CopyGrows(d, v, h, next);
    if Agree(c.h, u, next, c.next) { CopyMeans(d, v, h, next, u); }
    if forall a | a in h :: a in u && u[a] == h[a] { Keeps(d, v, h, u); }
  }

  // ---------------------------------------------------------------- the walks

  class Memory {
    var heap: Heap
    var next: nat

    method EqualFields(d: TypeDesc, a: Stored, b: Stored) returns (verdict: Verdict)
      requires Valid(d, a, heap) && Valid(d, b, heap)
      ensures verdict == FieldsEqual(d, a, b, heap)
      decreases d, 1
    {
      if !d.serializable { return Equal; }
      verdict := EqualBodies(d, a, b);
    }

    method EqualBodies(d: TypeDesc, a: Stored, b: Stored) returns (verdict: Verdict)
      requires Valid(d, a, heap) && Valid(d, b, heap)
      ensures verdict == BodiesEqual(d, a, b, heap)
      decreases d, 0
    {
      match d.body {
        case SizedBuffer => verdict := Decide(BuffersEqual(a, b, heap));
        case String => verdict := Decide(BuffersEqual(a, b, heap));
        case DynArray(e) =>
          var xs, ys := ElementsOf(a, heap), ElementsOf(b, heap);
          if |xs| != |ys| { return Unequal; }
          verdict := EqualElements(e, xs, ys, e.size);
        case ConstantArray(e, _) => verdict := EqualElements(e, a.parts, b.parts, 0);
        case AliasOf(t) =>
          if HasEquals(t) { verdict := EqualBodies(t, a, b); } else { verdict := EqualFields(t, a, b); }
        case Struct(fs, _) => verdict := EqualMembers(fs, a.parts, b.parts);
        case _ => verdict := Decide(a.raw == b.raw);
      }
    }

    method EqualElements(e: TypeDesc, xs: seq<Stored>, ys: seq<Stored>, stride: nat) returns (verdict: Verdict)
      requires |xs| == |ys| && AllValid(e, xs, heap) && AllValid(e, ys, heap)
      ensures verdict == AllEqual(e, xs, ys, stride, |xs|, heap)
      decreases e, 2
    {
      ghost var n := |xs|;
      for i := 0 to |xs|
        invariant AllEqual(e, xs[..i], ys[..i], stride, n, heap) == Equal
      {
        assert xs[..i + 1][..i] == xs[..i] && ys[..i + 1][..i] == ys[..i];
        verdict := Trap;
        if InRange(i, stride, |xs|) {
          verdict := EqualFields(e, xs[i], ys[i]);
        }
        if verdict != Equal {
          DecidedPrefix(e, xs, ys, stride, n, i + 1, heap);
          return;
        }
      }
      assert xs[..|xs|] == xs && ys[..|ys|] == ys;
      verdict := Equal;
    }

    method EqualMembers(fs: seq<TypeDesc>, xs: seq<Stored>, ys: seq<Stored>) returns (verdict: Verdict)
      requires |fs| == |xs| == |ys| && MembersValid(fs, xs, heap) && MembersValid(fs, ys, heap)
      ensures verdict == MembersEqual(fs, xs, ys, heap)
      decreases fs, 0
    {
      for i := 0 to |fs|
        invariant MembersEqual(fs[..i], xs[..i], ys[..i], heap) == Equal
      {
        assert fs[..i + 1][..i] == fs[..i] && xs[..i + 1][..i] == xs[..i] && ys[..i + 1][..i] == ys[..i];
        if !fs[i].Walked() { continue; }
        verdict := EqualFields(fs[i], xs[i], ys[i]);
        if verdict != Equal {
          DecidedMembers(fs, xs, ys, i + 1, heap);
          return;
        }
      }
      assert fs[..|fs|] == fs && xs[..|xs|] == xs && ys[..|ys|] == ys;
      verdict := Equal;
    }

    method DeepCopy(d: TypeDesc, v: Stored) returns (copy: Stored)
      modifies this
      ensures Copy(copy, heap, next) == Copied(d, v, old(heap), old(next))
      decreases d, 0
    {
      match d.body {
        case SizedBuffer => copy := CopyBuffer(v);
        case String => copy := CopyBuffer(v);
        case DynArray(e) =>
          if !HasElements(v, heap) { return Array(0); }
          var elems := heap[v.addr].elems;
          var addr := next;
          next := next + 1;
          var copies := CopyElements(e, elems);
          heap := heap[addr := Elements(copies)];
          copy := Array(addr);
        case ConstantArray(e, _) =>
          var copies := CopyElements(e, if v.Group? then v.parts else []);
          copy := Group(copies);
        case AliasOf(t) => copy := DeepCopy(t, v);
        case Struct(fs, _) =>
          if !(v.Group? && |v.parts| == |fs|) { return v; }
          var copies := CopyMembers(fs, v.parts);
          copy := Group(copies);
        case _ => copy := v;
      }
    }

    method CopyBuffer(v: Stored) returns (copy: Stored)
      modifies this
      ensures Copy(copy, heap, next) == CopiedBuffer(v, old(heap), old(next))
    {
      if !HasData(v, heap) || v.size == 0 { return Buffer(0, 0); }
      copy := Buffer(next, v.size);
      heap := heap[next := heap[v.addr]];
      next := next + 1;
    }

    method CopyElements(e: TypeDesc, vs: seq<Stored>) returns (copies: seq<Stored>)
      modifies this
      ensures Copies(copies, heap, next) == CopiedAll(e, vs, old(heap), old(next))
      decreases e, 1
    {
      copies := [];
      for i := 0 to |vs|
        invariant Copies(copies, heap, next) == CopiedAll(e, vs[..i], old(heap), old(next))
      {
        assert vs[..i + 1][..i] == vs[..i];
        var copy := DeepCopy(e, vs[i]);
        copies := copies + [copy];
      }
      assert vs[..|vs|] == vs;
    }

    method CopyMembers(fs: seq<TypeDesc>, vs: seq<Stored>) returns (copies: seq<Stored>)
      requires |fs| == |vs|
      modifies this
      ensures Copies(copies, heap, next) == CopiedMembers(fs, vs, old(heap), old(next))
      decreases fs, 0
    {
      copies := [];
      for i := 0 to |fs|
        invariant |copies| == i && Copies(copies, heap, next) == CopiedMembers(fs[..i], vs[..i], old(heap), old(next))
      {
        assert fs[..i + 1][..i] == fs[..i] && vs[..i + 1][..i] == vs[..i];
        if fs[i].Walked() {
          var copy := DeepCopy(fs[i], vs[i]);
          copies := copies + [copy];
        } else {
          copies := copies + [vs[i]];
        }
      }
      assert fs[..|fs|] == fs && vs[..|vs|] == vs;
    }

    /** Frees what a value owns; stops at a block that has been freed before. */
    method Destroy(d: TypeDesc, v: Stored) returns (ok: bool)
      modifies this`heap
      ensures ok ==> Destroyed(d, v, old(heap)) == Gone(heap)
      ensures !ok ==> Destroyed(d, v, old(heap)) == BadFree
      decreases d, 0
    {
      match d.body {
        case SizedBuffer => ok := FreeBuffer(v);
        case String => ok := FreeBuffer(v);
        case DynArray(e) =>
          if !v.Array? || v.addr == 0 { return true; }
          if !HasElements(v, heap) { return false; }
          ok := DestroyElements(e, heap[v.addr].elems);
          if ok { ok := Free(v.addr); }
        case ConstantArray(e, _) =>
          if !v.Group? { return true; }
          ok := DestroyElements(e, v.parts);
        case AliasOf(t) => ok := Destroy(t, v);
        case Struct(fs, _) =>
          if !(v.Group? && |v.parts| == |fs|) { return true; }
          ok := DestroyMembers(fs, v.parts);
        case _ => ok := true;
      }
    }

    method Free(addr: nat) returns (ok: bool)
      modifies this`heap
      ensures ok ==> Freed(old(heap), addr) == Gone(heap)
      ensures !ok ==> Freed(old(heap), addr) == BadFree
    {
      ok := addr in heap;
      heap := heap - {addr};
    }

    method FreeBuffer(v: Stored) returns (ok: bool)
      modifies this`heap
      ensures var r := if v.Buffer? && v.addr != 0 then Freed(old(heap), v.addr) else Gone(old(heap));
              r == if ok then Gone(heap) else BadFree
    {
      ok := true;
      if v.Buffer? && v.addr != 0 { ok := Free(v.addr); }
    }

    method DestroyElements(e: TypeDesc, vs: seq<Stored>) returns (ok: bool)
      modifies this`heap
      ensures DestroyedAll(e, vs, old(heap)) == if ok then Gone(heap) else BadFree
      decreases e, 1
    {
      for i := 0 to |vs|
        invariant DestroyedAll(e, vs[..i], old(heap)) == Gone(heap)
      {
        assert vs[..i + 1][..i] == vs[..i];
        ok := Destroy(e, vs[i]);
        if !ok {
          BadPrefix(e, vs, i + 1, old(heap));
          return;
        }
      }
      assert vs[..|vs|] == vs;
      ok := true;
    }

    method DestroyMembers(fs: seq<TypeDesc>, vs: seq<Stored>) returns (ok: bool)
      requires |fs| == |vs|
      modifies this`heap
      ensures DestroyedMembers(fs, vs, old(heap)) == if ok then Gone(heap) else BadFree
      decreases fs, 0
    {
      for i := 0 to |fs|
        invariant DestroyedMembers(fs[..i], vs[..i], old(heap)) == Gone(heap)
      {
        assert fs[..i + 1][..i] == fs[..i] && vs[..i + 1][..i] == vs[..i];
        if !fs[i].Walked() { continue; }
        ok := Destroy(fs[i], vs[i]);
        if !ok {
          BadMembers(fs, vs, i + 1, old(heap));
          return;
        }
      }
      assert fs[..|fs|] == fs && vs[..|vs|] == vs;
      ok := true;
    }
  }

  /** What a prefix decides is decided. */
  lemma {:induction false} DecidedPrefix(e: TypeDesc, xs: seq<Stored>, ys: seq<Stored>, stride: nat, total: nat, i: nat, h: Heap)
    requires |xs| == |ys| && AllValid(e, xs, h) && AllValid(e, ys, h) && i <= |xs|
    requires AllEqual(e, xs[..i], ys[..i], stride, total, h) != Equal
    ensures AllEqual(e, xs, ys, stride, total, h) == AllEqual(e, xs[..i], ys[..i], stride, total, h)
    decreases |xs|
  {
    if i < |xs| {
      var n := |xs| - 1;
      assert xs[..n][..i] == xs[..i] && ys[..n][..i] == ys[..i];
      DecidedPrefix(e, xs[..n], ys[..n], stride, total, i, h);
    } else {
      assert xs[..i] == xs && ys[..i] == ys;
    }
  }

  lemma {:induction false} DecidedMembers(fs: seq<TypeDesc>, xs: seq<Stored>, ys: seq<Stored>, i: nat, h: Heap)
    requires |fs| == |xs| == |ys| && MembersValid(fs, xs, h) && MembersValid(fs, ys, h) && i <= |fs|
    requires MembersEqual(fs[..i], xs[..i], ys[..i], h) != Equal
    ensures MembersEqual(fs, xs, ys, h) == MembersEqual(fs[..i], xs[..i], ys[..i], h)
    decreases |fs|
  {
    if i < |fs| {
      var n := |fs| - 1;
      assert fs[..n][..i] == fs[..i] && xs[..n][..i] == xs[..i] && ys[..n][..i] == ys[..i];
      DecidedMembers(fs[..n], xs[..n], ys[..n], i, h);
    } else {
      assert fs[..i] == fs && xs[..i] == xs && ys[..i] == ys;
    }
  }

  lemma {:induction false} BadPrefix(e: TypeDesc, vs: seq<Stored>, i: nat, h: Heap)
    requires i <= |vs| && DestroyedAll(e, vs[..i], h).BadFree?
    ensures DestroyedAll(e, vs, h).BadFree?
    decreases |vs|
  {
    if i < |vs| {
      assert vs[..|vs| - 1][..i] == vs[..i];
      BadPrefix(e, vs[..|vs| - 1], i, h);
    } else {
      assert vs[..i] == vs;
    }
  }

  lemma {:induction false} BadMembers(fs: seq<TypeDesc>, vs: seq<Stored>, i: nat, h: Heap)
    requires |fs| == |vs| && i <= |fs| && DestroyedMembers(fs[..i], vs[..i], h).BadFree?
    ensures DestroyedMembers(fs, vs, h).BadFree?
    decreases |fs|
  {
    if i < |fs| {
      var n := |fs| - 1;
      assert fs[..n][..i] == fs[..i] && vs[..n][..i] == vs[..i];
      BadMembers(fs[..n], vs[..n], i, h);
    } else {
      assert fs[..i] == fs && vs[..i] == vs;
    }
  }
}
