/** Where the parts of an accessor stand in memory. */
module AccessorLayout {

  import opened Common
  import opened Bytes
  import opened Accessor

  /** Component `r` of column `q` of a matrix: columns are as long as their components, rounded up to four bytes. */
  lemma ColumnsAligned(t: Shape, c: Component, q: nat, r: nat) returns (width: nat)
    requires (t == Mat2 || t == Mat3 || t == Mat4) && r < Rows(t)
    ensures width % 4 == 0 && Rows(t) * ComponentSize(c) <= width < Rows(t) * ComponentSize(c) + 4
    ensures ComponentOffset(t, c, q * Rows(t) + r) == q * width + r * ComponentSize(c)
  {
    width := Align4(Rows(t) * ComponentSize(c));
    RoundedUp(Rows(t) * ComponentSize(c));
    match t
    case Mat2 => assert (q * 2 + r) / 2 == q && (q * 2 + r) % 2 == r;
    case Mat3 => assert (q * 3 + r) / 3 == q && (q * 3 + r) % 3 == r;
    case Mat4 => assert (q * 4 + r) / 4 == q && (q * 4 + r) % 4 == r;
  }

  lemma RoundedUp(n: nat)
    ensures Align4(n) % 4 == 0 && n <= Align4(n) < n + 4
  {
  }

  lemma OneAfterTheOther(t: Shape, c: Component, i: nat)
    requires t != Mat2 && t != Mat3 && t != Mat4
    ensures ComponentOffset(t, c, i) == i * ComponentSize(c)
  {
  }

  /** Base element `i` starts `i` strides behind the accessor's offset in its view. */
  lemma BaseStands(a: Accessor, i: nat, c: nat, p: int)
    requires Readable(a) && a.view.Some? && BaseReady(a) && i < a.count && c < NumComponents(a.shape)
    requires p == a.offset + i * a.stride + ComponentOffset(a.shape, a.component, c)
    ensures var m := ViewData(a.view.value).value;
            0 <= p <= p + ComponentSize(a.component) <= |m| && BaseRow(a, i)[c] == ReadFloat(m, p, a.component, a.normalized)
  {
    OffsetFits(a.shape, a.component, c);
    FitsAt(ViewData(a.view.value).value, a.offset, a.stride, a.count, CalcSize(a.shape, a.component), i);
  }

  /** Sparse value `k` starts `k` strides of the accessor behind the offset of the values. */
  lemma SparseStands(a: Accessor, k: nat, c: nat, p: int)
    requires Readable(a) && a.sparse.Some? && SparseReady(a.sparse.value) && k < a.sparse.value.count && c < NumComponents(a.shape)
    requires p == a.sparse.value.valuesOffset + k * a.stride + ComponentOffset(a.shape, a.component, c)
    ensures var m := ViewData(a.sparse.value.values).value;
            0 <= p <= p + ComponentSize(a.component) <= |m| && SparseRow(a, k)[c] == ReadFloat(m, p, a.component, a.normalized)
  {
    var s := a.sparse.value;
    OffsetFits(a.shape, a.component, c);
    FitsAt(ViewData(s.values).value, s.valuesOffset, a.stride, s.count, CalcSize(a.shape, a.component), k);
  }

  /** Sparse index `k` stands `k` components behind the offset of the indices. */
  lemma IndexStands(a: Accessor, k: nat, p: int)
    requires Readable(a) && a.sparse.Some? && SparseReady(a.sparse.value) && k < a.sparse.value.count
    requires p == a.sparse.value.indicesOffset + k * ComponentSize(a.sparse.value.indexComponent)
    ensures var s := a.sparse.value;
            var m := ViewData(s.indices).value;
            0 <= p <= p + ComponentSize(s.indexComponent) <= |m| && Indices(a)[k] == ReadIndex(m, p, s.indexComponent)
  {
    var s := a.sparse.value;
    FitsAt(ViewData(s.indices).value, s.indicesOffset, ComponentSize(s.indexComponent), s.count, ComponentSize(s.indexComponent), k);
  }

  /** A view's own data comes before the buffer's, and the offset counts for the buffer only. */
  lemma ViewExact(v: View, i: nat)
    requires ViewOk(v)
    ensures ViewData(v).None? <==> v.data.None? && v.buffer.None?
    ensures v.data.Some? ==> ViewData(v) == v.data
    ensures v.data.None? && v.buffer.Some? ==>
              && |ViewData(v).value| == |v.buffer.value| - v.offset
              && (i < |ViewData(v).value| ==> ViewData(v).value[i] == v.buffer.value[v.offset + i])
  {
  }
}
