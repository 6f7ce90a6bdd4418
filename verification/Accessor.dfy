/**
 Reading glTF accessors as floats: one element at a time, with a binary search for sparse elements, and in bulk.
 A float is either the 32 bits found in the file or the exact number an integer component stands for.
 */
module Accessor {

  import opened Common
  import opened Bytes

  datatype Component = InvalidComponent | R8 | R8u | R16 | R16u | R32u | R32f
  datatype Shape = InvalidShape | Scalar | Vec2 | Vec3 | Vec4 | Mat2 | Mat3 | Mat4
  datatype Float = Bits(bits: u32) | Number(value: real)

  const ZERO := Bits(0)

  function NumComponents(t: Shape): (n: nat)
    ensures n >= 1
  {
    match t
    case Vec2 => 2 case Vec3 => 3 case Vec4 => 4 case Mat2 => 4 case Mat3 => 9 case Mat4 => 16
    case _ => 1
  }

  function ComponentSize(c: Component): nat {
    match c
    case R8 => 1 case R8u => 1 case R16 => 2 case R16u => 2 case R32u => 4 case R32f => 4
    case InvalidComponent => 0
  }

  function CalcSize(t: Shape, c: Component): nat {
    var size := ComponentSize(c);
    if t == Mat2 && size == 1 then 8
    else if t == Mat3 && (size == 1 || size == 2) then 12 * size
    else size * NumComponents(t)
  }

  // ---------------------------------------------------------------- components

  function Unsigned(m: bytes, p: nat, size: nat): nat
    requires p + size <= |m|
    decreases size
  {
    if size == 0 then 0 else m[p] as int + 256 * Unsigned(m, p + 1, size - 1)
  }

  /** The value of a two's complement number. */
  function Signed(n: int, range: int): int { if 2 * n < range then n else n - range }

  function ReadInteger(m: bytes, p: nat, c: Component): int
    requires p + ComponentSize(c) <= |m|
  {
    match c
    case R8 => Signed(Unsigned(m, p, 1), 0x100)
    case R16 => Signed(Unsigned(m, p, 2), 0x1_0000)
    case R8u => Unsigned(m, p, 1)
    case R16u => Unsigned(m, p, 2)
    case R32u => Unsigned(m, p, 4)
    case _ => 0
  }

  function ReadIndex(m: bytes, p: nat, c: Component): (n: nat)
    requires p + ComponentSize(c) <= |m|
  {
    if c == R8u || c == R16u || c == R32u then Unsigned(m, p, ComponentSize(c)) else 0
  }

  function FloatAt(m: bytes, p: nat): Float
    requires p + 4 <= |m|
  {
    Bits(FromLE32(m[p..p + 4]))
  }

  function ReadFloat(m: bytes, p: nat, c: Component, normalized: bool): Float
    requires p + ComponentSize(c) <= |m|
  {
    if c == R32f then FloatAt(m, p)
    else if normalized then
      match c
      case R16 => Number(ReadInteger(m, p, c) as real / 32767.0)
      case R16u => Number(ReadInteger(m, p, c) as real / 65535.0)
      case R8 => Number(ReadInteger(m, p, c) as real / 127.0)
      case R8u => Number(ReadInteger(m, p, c) as real / 255.0)
      case _ => Number(0.0)
    else Number(ReadInteger(m, p, c) as real)
  }

  /** The smallest and the largest number of an integer component. */
  function Lowest(c: Component): int {
    match c
    case R8 => -128 case R16 => -32768
    case _ => 0
  }

  function Highest(c: Component): int {
    match c
    case R8 => 127 case R8u => 255 case R16 => 32767 case R16u => 65535 case R32u => 0xFFFF_FFFF
    case _ => 0
  }

  /** The bytes of `m` from `p` are those of `n`, the lowest first and a negative number in two's complement. */
  predicate HasBytes(m: bytes, p: nat, n: int, size: nat)
    requires p + size <= |m|
    decreases size
  {
    size == 0 || (m[p] as int == n % 256 && HasBytes(m, p + 1, n / 256, size - 1))
  }

  /** How many numbers `size` bytes can tell apart. */
  function Range(size: nat): (r: int)
    ensures r > 0
  {
    if size == 0 then 1 else 256 * Range(size - 1)
  }

  lemma {:induction false} UnsignedExact(m: bytes, p: nat, n: int, size: nat)
    requires p + size <= |m|
    ensures n == Unsigned(m, p, size) <==> 0 <= n < Range(size) && HasBytes(m, p, n, size)
    decreases size
  {
    if size > 0 { UnsignedExact(m, p + 1, n / 256, size - 1); }
  }

  /** Adding the range to a number does not change its bytes. */
  lemma {:induction false} SameBytes(m: bytes, p: nat, n: int, size: nat)
    requires p + size <= |m|
    ensures HasBytes(m, p, n, size) <==> HasBytes(m, p, n + Range(size), size)
    decreases size
  {
    if size > 0 {
      SameBytes(m, p + 1, n / 256, size - 1);
      assert (n + 256 * Range(size - 1)) / 256 == n / 256 + Range(size - 1);
    }
  }

  lemma SignedExact(m: bytes, p: nat, n: int, size: nat)
    requires p + size <= |m|
    ensures n == Signed(Unsigned(m, p, size), Range(size)) <==> -Range(size) <= 2 * n < Range(size) && HasBytes(m, p, n, size)
  {
    UnsignedExact(m, p, Unsigned(m, p, size), size);
    UnsignedExact(m, p, n, size);
    UnsignedExact(m, p, n + Range(size), size);
    SameBytes(m, p, n, size);
  }

  lemma Ranges()
    ensures Range(1) == 0x100 && Range(2) == 0x1_0000 && Range(4) == 0x1_0000_0000
  {
    assert Range(3) == 256 * Range(2);
  }

  /** An integer component is the one number in its range with these bytes. */
  lemma IntegerExact(m: bytes, p: nat, c: Component, n: int)
    requires p + ComponentSize(c) <= |m| && c != InvalidComponent && c != R32f
    ensures n == ReadInteger(m, p, c) <==> Lowest(c) <= n <= Highest(c) && HasBytes(m, p, n, ComponentSize(c))
  {
    Ranges();
    if c == R8 || c == R16 { SignedExact(m, p, n, ComponentSize(c)); } else { UnsignedExact(m, p, n, ComponentSize(c)); }
  }

  /** An index is the unsigned number with these bytes; components that are not unsigned give 0. */
  lemma IndexExact(m: bytes, p: nat, c: Component, n: nat)
    requires p + ComponentSize(c) <= |m|
    ensures n == ReadIndex(m, p, c) <==>
            if c == R8u || c == R16u || c == R32u then n <= Highest(c) && HasBytes(m, p, n, ComponentSize(c)) else n == 0
  {
    Ranges();
    UnsignedExact(m, p, n, ComponentSize(c));
  }

  /** A float component keeps its bits, whether it is called normalized or not. */
  lemma FloatExact(m: bytes, p: nat, normalized: bool, f: Float)
    requires p + 4 <= |m|
    ensures f == ReadFloat(m, p, R32f, normalized) <==> f.Bits? && HasBytes(m, p, f.bits as int, 4)
  {
    Ranges();
    SameWord(m, p);
    if f.Bits? { UnsignedExact(m, p, f.bits, 4); }
  }

  lemma SameWord(m: bytes, p: nat)
    requires p + 4 <= |m|
    ensures FloatAt(m, p).bits == Unsigned(m, p, 4)
  {
    var b := m[p..p + 4];
    assert b[0] == m[p] && b[1] == m[p + 1] && b[2] == m[p + 2] && b[3] == m[p + 3];
    assert Unsigned(m, p + 3, 1) == m[p + 3] as int;
    assert Unsigned(m, p + 2, 2) == m[p + 2] as int + 256 * m[p + 3] as int;
    assert Unsigned(m, p + 1, 3) == m[p + 1] as int + 256 * (m[p + 2] as int + 256 * m[p + 3] as int);
  }

  /**
   A normalized component is the share of the largest number: the largest gives 1, zero 0, and the order is kept. It lies
   within [-1, 1] except for the lowest number of a signed component, for which glTF 2.0, section 3.11, asks for -1.
   Without normalization the number itself is given.
   */
  lemma NormalizedMeaning(m: bytes, p: nat, c: Component)
    requires p + ComponentSize(c) <= |m| && c in {R8, R8u, R16, R16u}
    ensures var n, f := ReadInteger(m, p, c), ReadFloat(m, p, c, true);
            && f.Number? && f.value * Highest(c) as real == n as real
            && (f.value == 1.0 <==> n == Highest(c)) && (f.value == 0.0 <==> n == 0)
            && (-1.0 <= f.value <= 1.0 <==> n == 0 || n != Lowest(c))
    ensures ReadFloat(m, p, c, false) == Number(ReadInteger(m, p, c) as real)
  {
    IntegerExact(m, p, c, ReadInteger(m, p, c));
  }

  /** Wider integers cannot be normalized, and an unknown component reads as zero. */
  lemma OtherComponents(m: bytes, p: nat, normalized: bool)
    ensures p + 4 <= |m| ==> ReadFloat(m, p, R32u, normalized) == Number(if normalized then 0.0 else ReadInteger(m, p, R32u) as real)
    ensures p <= |m| ==> ReadFloat(m, p, InvalidComponent, normalized) == Number(0.0)
  {
  }

  /** End values: 255 in one byte is 1 when unsigned and -1 when not; 0x80 goes below -1 when normalized. */
  lemma EndValues()
    ensures ReadFloat([0xFF], 0, R8u, true) == Number(1.0) && ReadFloat([0xFF], 0, R8, false) == Number(-1.0)
    ensures ReadFloat([0x80], 0, R8, true) == Number(-128.0 / 127.0) && -128.0 / 127.0 < -1.0
    ensures ReadFloat([0x00, 0x80], 0, R16, false) == Number(-32768.0) && ReadFloat([0xFF, 0x7F], 0, R16, true) == Number(1.0)
  {
    IntegerExact([0xFF], 0, R8u, 255);
    IntegerExact([0xFF], 0, R8, -1);
    IntegerExact([0x80], 0, R8, -128);
    IntegerExact([0x00, 0x80], 0, R16, -32768);
    IntegerExact([0xFF, 0x7F], 0, R16, 32767);
  }

  // ---------------------------------------------------------------- elements

  /** Rows of a matrix; other elements are a single column. */
  function Rows(t: Shape): nat {
    match t
    case Mat2 => 2 case Mat3 => 3 case Mat4 => 4
    case _ => NumComponents(t)
  }

  function Align4(n: nat): nat { (n + 3) / 4 * 4 }

  /** Where component `i` lies: every column of a matrix starts at a multiple of four bytes (glTF 2.0, section 3.6.2.4). */
  function ComponentOffset(t: Shape, c: Component, i: nat): nat {
    var size := ComponentSize(c);
    if t == Mat2 || t == Mat3 || t == Mat4 then i / Rows(t) * Align4(Rows(t) * size) + i % Rows(t) * size
    else i * size
  }

  /** All components lie within the element. */
  lemma OffsetFits(t: Shape, c: Component, i: nat)
    requires i < NumComponents(t)
    ensures ComponentOffset(t, c, i) + ComponentSize(c) <= CalcSize(t, c)
  {
  }

  /** An element takes up its columns, each rounded up to four bytes in a matrix, and nothing more. */
  lemma SizeExact(t: Shape, c: Component)
    ensures CalcSize(t, c) == if t == Mat2 || t == Mat3 || t == Mat4 then NumComponents(t) / Rows(t) * Align4(Rows(t) * ComponentSize(c))
                              else NumComponents(t) * ComponentSize(c)
  {
  }

  function Element(m: bytes, p: nat, t: Shape, c: Component, normalized: bool): (r: seq<Float>)
    requires p + CalcSize(t, c) <= |m|
    ensures |r| == NumComponents(t)
  {
    seq(NumComponents(t), i requires 0 <= i < NumComponents(t) =>
      OffsetFits(t, c, i);
      ReadFloat(m, p + ComponentOffset(t, c, i), c, normalized))
  }

  /** The three special cases and the general one put every component where the alignment rule says. */
  method ReadElement(m: bytes, p: nat, t: Shape, c: Component, normalized: bool, out: array<Float>, at: nat, elementSize: nat) returns (ok: bool)
    requires p + CalcSize(t, c) <= |m| && at + elementSize <= out.Length
    modifies out
    ensures ok <==> elementSize >= NumComponents(t)
    ensures !ok ==> out[..] == old(out[..])
    ensures ok ==> out[..] == Spliced(old(out[..]), at, Element(m, p, t, c, normalized))
  {
    var n := NumComponents(t);
    if elementSize < n { return false; }
    ok := true;
    ghost var before := out[..];
    ghost var row := Element(m, p, t, c, normalized);
    var size := ComponentSize(c);
    var padded := NeedsPadding(t, size);
    for i := 0 to n
      invariant out[..] == Spliced(before, at, row[..i])
    {
      var offset := if padded then PaddedOffset(t, size, i) else size * i;
      assert offset == CodeOffset(t, size, i);
      var f := ReadComponent(m, p, t, c, normalized, i, offset);
      SpliceNext(before, at, row, i);
      out[at + i] := f;
    }
    assert row[..n] == row;
  }

  method ReadComponent(m: bytes, p: nat, t: Shape, c: Component, normalized: bool, i: nat, offset: nat) returns (f: Float)
    requires p + CalcSize(t, c) <= |m| && i < NumComponents(t) && offset == CodeOffset(t, ComponentSize(c), i)
    ensures f == Element(m, p, t, c, normalized)[i]
  {
    OffsetsAgree(t, c, i);
    OffsetFits(t, c, i);
    f := ReadFloat(m, p + offset, c, normalized);
  }

  predicate NeedsPadding(t: Shape, size: nat) {
    (t == Mat2 && size == 1) || (t == Mat3 && (size == 1 || size == 2))
  }

  function CodeOffset(t: Shape, size: nat, i: nat): nat
    requires i < NumComponents(t)
  {
    if NeedsPadding(t, size) then PaddedOffset(t, size, i) else size * i
  }

  /** The offsets of the components in the three special cases, written out. */
  function PaddedOffset(t: Shape, size: nat, i: nat): nat
    requires i < NumComponents(t) && NeedsPadding(t, size)
  {
    if t == Mat2 then [0, 1, 4, 5][i]
    else if size == 1 then [0, 1, 2, 4, 5, 6, 8, 9, 10][i]
    else [0, 2, 4, 8, 10, 12, 16, 18, 20][i]
  }

  lemma OffsetsAgree(t: Shape, c: Component, i: nat)
    requires i < NumComponents(t)
    ensures ComponentOffset(t, c, i) == CodeOffset(t, ComponentSize(c), i)
  {
    var size := ComponentSize(c);
    if t == Mat2 || t == Mat3 || t == Mat4 {
      if NeedsPadding(t, size) {
        PaddedOffsets(t, size, i);
      } else {
        assert Align4(Rows(t) * size) == Rows(t) * size;
        Columns(i, Rows(t), size);
      }
    }
  }

  lemma PaddedOffsets(t: Shape, size: nat, i: nat)
    requires i < NumComponents(t) && NeedsPadding(t, size)
    ensures i / Rows(t) * Align4(Rows(t) * size) + i % Rows(t) * size == PaddedOffset(t, size, i)
  {
  }

  lemma Columns(i: nat, rows: nat, size: nat)
    requires rows > 0
    ensures i / rows * (rows * size) + i % rows * size == size * i
  {
    var q, r := i / rows, i % rows;
    assert i == q * rows + r;
    assert q * (rows * size) == (q * rows) * size;
    assert (q * rows) * size + r * size == (q * rows + r) * size;
  }

  function Spliced<T>(s: seq<T>, at: nat, row: seq<T>): seq<T>
    requires at + |row| <= |s|
  {
    s[..at] + row + s[at + |row|..]
  }

  lemma SpliceNext<T>(s: seq<T>, at: nat, row: seq<T>, i: nat)
    requires i < |row| && at + |row| <= |s|
    ensures Spliced(s, at, row[..i])[at + i := row[i]] == Spliced(s, at, row[..i + 1])
  {
  }

  // ---------------------------------------------------------------- views and accessors

  /** A buffer view; its own data wins over the buffer's. */
  datatype View = View(data: Option<bytes>, buffer: Option<bytes>, offset: nat)

  predicate ViewOk(v: View) { v.buffer.Some? ==> v.offset <= |v.buffer.value| }

  function ViewData(v: View): Option<bytes>
    requires ViewOk(v)
  {
    if v.data.Some? then v.data else if v.buffer.None? then None else Some(v.buffer.value[v.offset..])
  }

  datatype Sparse = Sparse(count: nat, indices: View, indicesOffset: nat, indexComponent: Component, values: View, valuesOffset: nat)

  datatype Accessor = Accessor(shape: Shape, component: Component, normalized: bool, offset: nat, count: nat, stride: nat,
                               view: Option<View>, sparse: Option<Sparse>)

  /** `count` elements of `size` bytes, `stride` bytes apart, fit into the memory behind `start`. */
  predicate Fits(m: bytes, start: nat, stride: nat, count: nat, size: nat) {
    count > 0 ==> start + stride * (count - 1) + size <= |m|
  }

  lemma FitsAt(m: bytes, start: nat, stride: nat, count: nat, size: nat, k: nat)
    requires Fits(m, start, stride, count, size) && k < count
    ensures start + stride * k + size <= |m|
  {
    assert stride * k <= stride * (count - 1);
  }

  predicate SparseReady(s: Sparse) {
    ViewOk(s.indices) && ViewOk(s.values) && ViewData(s.indices).Some? && ViewData(s.values).Some?
  }

  predicate SparseFits(s: Sparse, a: Accessor)
    requires ViewOk(s.indices) && ViewOk(s.values)
  {
    SparseReady(s) ==>
      && Fits(ViewData(s.indices).value, s.indicesOffset, ComponentSize(s.indexComponent), s.count, ComponentSize(s.indexComponent))
      && Fits(ViewData(s.values).value, s.valuesOffset, a.stride, s.count, CalcSize(a.shape, a.component))
  }

  predicate BaseFits(a: Accessor, data: Option<bytes>) {
    data.Some? ==> Fits(data.value, a.offset, a.stride, a.count, CalcSize(a.shape, a.component))
  }

  /** Everything an accessor may read lies in memory. */
  predicate Readable(a: Accessor) {
    && (a.view.Some? ==> ViewOk(a.view.value) && BaseFits(a, ViewData(a.view.value)))
    && (a.sparse.Some? ==> ViewOk(a.sparse.value.indices) && ViewOk(a.sparse.value.values) && SparseFits(a.sparse.value, a))
  }

  function Zeros(n: nat): (r: seq<Float>)
    ensures |r| == n && forall i | 0 <= i < n :: r[i] == ZERO
  {
    if n == 0 then [] else Zeros(n - 1) + [ZERO]
  }

  predicate BaseReady(a: Accessor)
    requires Readable(a)
  {
    a.view.Some? ==> ViewData(a.view.value).Some?
  }

  /** Element `i` without the sparse part. */
  function BaseRow(a: Accessor, i: nat): (r: seq<Float>)
    requires Readable(a) && BaseReady(a) && i < a.count
    ensures |r| == NumComponents(a.shape)
  {
    if a.view.None? then Zeros(NumComponents(a.shape))
    else
      var m := ViewData(a.view.value).value;
      FitsAt(m, a.offset, a.stride, a.count, CalcSize(a.shape, a.component), i);
      Element(m, a.offset + a.stride * i, a.shape, a.component, a.normalized)
  }

  function SparseIndex(s: Sparse, k: nat): nat
    requires SparseReady(s) && k < s.count
    requires Fits(ViewData(s.indices).value, s.indicesOffset, ComponentSize(s.indexComponent), s.count, ComponentSize(s.indexComponent))
  {
    var m := ViewData(s.indices).value;
    FitsAt(m, s.indicesOffset, ComponentSize(s.indexComponent), s.count, ComponentSize(s.indexComponent), k);
    ReadIndex(m, s.indicesOffset + ComponentSize(s.indexComponent) * k, s.indexComponent)
  }

  function SparseRow(a: Accessor, k: nat): (r: seq<Float>)
    requires Readable(a) && a.sparse.Some? && SparseReady(a.sparse.value) && k < a.sparse.value.count
    ensures |r| == NumComponents(a.shape)
  {
    var s := a.sparse.value;
    var m := ViewData(s.values).value;
    FitsAt(m, s.valuesOffset, a.stride, s.count, CalcSize(a.shape, a.component), k);
    Element(m, s.valuesOffset + a.stride * k, a.shape, a.component, a.normalized)
  }

  /** All sparse indices; none without sparse data. */
  function Indices(a: Accessor): (r: seq<nat>)
    requires Readable(a)
    ensures a.sparse.Some? && SparseReady(a.sparse.value) ==> |r| == a.sparse.value.count
  {
    if a.sparse.Some? && SparseReady(a.sparse.value) then
      seq(a.sparse.value.count, k requires 0 <= k < a.sparse.value.count => SparseIndex(a.sparse.value, k))
    else []
  }

  // ---------------------------------------------------------------- first and last entries for an index

  ghost predicate Sorted(s: seq<nat>) { forall j, k | 0 <= j < k < |s| :: s[j] <= s[k] }

  ghost predicate StrictlyIncreasing(s: seq<nat>) { forall j, k | 0 <= j < k < |s| :: s[j] < s[k] }

  /** The first entry for `x`, from entry `k` on. */
  function FirstEntry(s: seq<nat>, x: nat, k: nat): (r: Option<nat>)
    requires k <= |s|
    ensures r.Some? ==> k <= r.value < |s| && s[r.value] == x && forall j | k <= j < r.value :: s[j] != x
    ensures r.None? ==> forall j | k <= j < |s| :: s[j] != x
    decreases |s| - k
  {
    if k == |s| then None else if s[k] == x then Some(k) else FirstEntry(s, x, k + 1)
  }

  /** The last entry for `x` among the first `k`. */
  function LastEntry(s: seq<nat>, x: nat, k: nat): (r: Option<nat>)
    requires k <= |s|
    ensures r.Some? ==> r.value < k && s[r.value] == x && forall j | r.value < j < k :: s[j] != x
    ensures r.None? ==> forall j | 0 <= j < k :: s[j] != x
  {
    if k == 0 then None else if s[k - 1] == x then Some(k - 1) else LastEntry(s, x, k - 1)
  }

  /** Sorted indices have a unique entry for every index exactly when they are strictly increasing. */
  lemma EntriesAgree(s: seq<nat>)
    requires Sorted(s)
    ensures (forall x: nat :: FirstEntry(s, x, 0) == LastEntry(s, x, |s|)) <==> StrictlyIncreasing(s)
  {
    if StrictlyIncreasing(s) {
      forall x: nat ensures FirstEntry(s, x, 0) == LastEntry(s, x, |s|) {
        var first, last := FirstEntry(s, x, 0), LastEntry(s, x, |s|);
        assert first.Some? ==> s[first.value] == x;
        assert last.Some? ==> s[last.value] == x;
      }
    } else {
      var j, k :| 0 <= j < k < |s| && s[j] >= s[k];
      assert s[j] == s[k];
      assert FirstEntry(s, s[j], 0).value <= j && LastEntry(s, s[j], |s|).value >= k;
    }
  }

  /** With an index given twice the single form takes the first entry and the bulk form the last. */
  lemma RepeatedIndex(x: nat)
    ensures Sorted([x, x]) && FirstEntry([x, x], x, 0) == Some(0) && LastEntry([x, x], x, 2) == Some(1)
  {
  }

  /** The branchless binary search; the entry for `needle` as a position among the sparse entries. */
  method FindSparseIndex(a: Accessor, needle: nat) returns (r: Option<nat>)
    requires Readable(a) && a.sparse.Some?
    ensures r.Some? ==> SparseReady(a.sparse.value) && r.value < |Indices(a)| && Indices(a)[r.value] == needle
    ensures Sorted(Indices(a)) ==> r == FirstEntry(Indices(a), needle, 0)
  {
    var s := a.sparse.value;
    if ViewData(s.indices).None? || ViewData(s.values).None? { return None; }
    ghost var indices := Indices(a);
    var offset, length := 0, s.count;
    assert |indices| == s.count;
    while length > 0
      invariant offset >= 0 && length >= 0 && Bracket(indices, offset, offset + length, needle)
      decreases length
    {
      var rem := length % 2;
      length := length / 2;
      var index := ReadSparseIndex(a, offset + length);
      BracketStep(indices, offset, length, rem, needle);
      offset := offset + if index < needle then length + rem else 0;
    }
    FirstIn(indices, offset, needle);
    if offset == s.count {
      return None;
    }
    var index := ReadSparseIndex(a, offset);
    r := if index == needle then Some(offset) else None;
  }

  method ReadSparseIndex(a: Accessor, k: nat) returns (index: nat)
    requires Readable(a) && a.sparse.Some? && SparseReady(a.sparse.value) && k < |Indices(a)|
    ensures index == Indices(a)[k]
  {
    index := SparseIndex(a.sparse.value, k);
  }

  /** Everything before `lo` is smaller than `x`, nothing from `hi` on is. */
  ghost predicate Bracket(s: seq<nat>, lo: nat, hi: nat, x: nat) {
    lo <= hi <= |s|
    && (Sorted(s) ==> (forall k | 0 <= k < lo :: s[k] < x) && (forall k | hi <= k < |s| :: s[k] >= x))
  }

  lemma BracketStep(s: seq<nat>, lo: nat, half: nat, rem: nat, x: nat)
    requires rem < 2 && half + rem > 0 && Bracket(s, lo, lo + 2 * half + rem, x)
    ensures Bracket(s, if s[lo + half] < x then lo + half + rem else lo, if s[lo + half] < x then lo + 2 * half + rem else lo + half, x)
  {
  }

  /** Where the bracket closes is the lower bound. */
  lemma FirstIn(s: seq<nat>, k: nat, x: nat)
    requires Bracket(s, k, k, x)
    ensures Sorted(s) ==> FirstEntry(s, x, 0) == if k < |s| && s[k] == x then Some(k) else None
  {
    var first := FirstEntry(s, x, 0);
    if Sorted(s) && first.Some? {
      assert s[first.value] == x;
      assert first.value >= k;
      assert s[k] <= s[first.value];
    }
  }

  // ---------------------------------------------------------------- one element at a time

  /** What reading element `i` gives; `None` when there is no data to read. */
  function Value(a: Accessor, i: nat, entry: Option<nat>): Option<seq<Float>>
    requires Readable(a) && i < a.count && (entry.Some? ==> entry.value < |Indices(a)|)
  {
    if entry.Some? then Some(SparseRow(a, entry.value))
    else if BaseReady(a) then Some(BaseRow(a, i))
    else None
  }

  method FillZeros(out: array<Float>, size: nat)
    requires size <= out.Length
    modifies out
    ensures out[..size] == Zeros(size) && out[size..] == old(out[size..])
  {
    for j := 0 to size
      invariant forall k | 0 <= k < j :: out[k] == ZERO
      invariant out[size..] == old(out[size..])
    {
      out[j] := ZERO;
    }
  }

  /** What the single read leaves in an output that asks for `size` floats; `None` when it fails. */
  function SingleRead(a: Accessor, i: nat, entry: Option<nat>, out: seq<Float>, size: nat): Option<seq<Float>>
    requires Readable(a) && i < a.count && (entry.Some? ==> entry.value < |Indices(a)|) && size <= |out|
  {
    if entry.None? && a.view.None? then Some(Zeros(size) + out[size..])
    else if Value(a, i, entry).None? || size < NumComponents(a.shape) then None
    else Some(Spliced(out, 0, Value(a, i, entry).value))
  }

  method AccessorReadFloat(a: Accessor, i: nat, out: array<Float>, elementSize: nat) returns (ok: bool)
    requires Readable(a) && i < a.count && elementSize <= out.Length
    modifies out
    ensures Sorted(Indices(a)) ==>
              var r := SingleRead(a, i, FirstEntry(Indices(a), i, 0), old(out[..]), elementSize);
              ok == r.Some? && out[..] == if ok then r.value else old(out[..])
    ensures out[elementSize..] == old(out[elementSize..])
  {
    if a.sparse.Some? {
      var entry := FindSparseIndex(a, i);
      if entry.Some? {
        ok := ReadSparseRow(a, entry.value, out, elementSize);
        return;
      }
    }
    if a.view.None? {
      FillZeros(out, elementSize);
      assert out[..] == out[..elementSize] + out[elementSize..];
      return true;
    }
    var data := ViewData(a.view.value);
    if data.None? { return false; }
    ok := ReadBaseRow(a, i, out, elementSize);
  }

  method ReadSparseRow(a: Accessor, k: nat, out: array<Float>, elementSize: nat) returns (ok: bool)
    requires Readable(a) && a.sparse.Some? && SparseReady(a.sparse.value) && k < a.sparse.value.count && elementSize <= out.Length
    modifies out
    ensures ok <==> elementSize >= NumComponents(a.shape)
    ensures out[..] == if ok then Spliced(old(out[..]), 0, SparseRow(a, k)) else old(out[..])
    ensures out[elementSize..] == old(out[elementSize..])
  {
    var s := a.sparse.value;
    var m := ViewData(s.values).value;
    var p := s.valuesOffset + a.stride * k;
    SparseRowAt(a, k, m, p);
    ghost var before := out[..];
    ok := ReadElement(m, p, a.shape, a.component, a.normalized, out, 0, elementSize);
    if ok { SpliceStart(before, SparseRow(a, k), elementSize); }
  }

  method ReadBaseRow(a: Accessor, i: nat, out: array<Float>, elementSize: nat) returns (ok: bool)
    requires Readable(a) && a.view.Some? && BaseReady(a) && i < a.count && elementSize <= out.Length
    modifies out
    ensures ok <==> elementSize >= NumComponents(a.shape)
    ensures out[..] == if ok then Spliced(old(out[..]), 0, BaseRow(a, i)) else old(out[..])
    ensures out[elementSize..] == old(out[elementSize..])
  {
    var m := ViewData(a.view.value).value;
    var p := a.offset + a.stride * i;
    BaseRowAt(a, i, m, p);
    ghost var before := out[..];
    ok := ReadElement(m, p, a.shape, a.component, a.normalized, out, 0, elementSize);
    if ok { SpliceStart(before, BaseRow(a, i), elementSize); }
  }

  lemma SparseRowAt(a: Accessor, k: nat, m: bytes, p: nat)
    requires Readable(a) && a.sparse.Some? && SparseReady(a.sparse.value) && k < a.sparse.value.count
    requires ViewData(a.sparse.value.values) == Some(m) && p == a.sparse.value.valuesOffset + a.stride * k
    ensures p + CalcSize(a.shape, a.component) <= |m| && SparseRow(a, k) == Element(m, p, a.shape, a.component, a.normalized)
  {
    FitsAt(m, a.sparse.value.valuesOffset, a.stride, a.sparse.value.count, CalcSize(a.shape, a.component), k);
  }

  lemma BaseRowAt(a: Accessor, i: nat, m: bytes, p: nat)
    requires Readable(a) && a.view.Some? && ViewData(a.view.value) == Some(m) && i < a.count && p == a.offset + a.stride * i
    ensures p + CalcSize(a.shape, a.component) <= |m| && BaseRow(a, i) == Element(m, p, a.shape, a.component, a.normalized)
  {
    FitsAt(m, a.offset, a.stride, a.count, CalcSize(a.shape, a.component), i);
  }

  lemma SpliceStart(s: seq<Float>, row: seq<Float>, size: nat)
    requires |row| <= size <= |s|
    ensures Spliced(s, 0, row)[..|row|] == row && Spliced(s, 0, row)[size..] == s[size..]
  {
  }

  // ---------------------------------------------------------------- all elements at once

  function Flat(rows: seq<seq<Float>>): seq<Float> {
    if rows == [] then [] else Flat(rows[..|rows| - 1]) + rows[|rows| - 1]
  }

  ghost predicate Uniform(rows: seq<seq<Float>>, n: nat) {
    forall i | 0 <= i < |rows| :: |rows[i]| == n
  }

  lemma {:induction false} FlatLength(rows: seq<seq<Float>>, n: nat)
    requires Uniform(rows, n)
    ensures |Flat(rows)| == |rows| * n
  {
    if rows != [] {
      FlatLength(rows[..|rows| - 1], n);
      assert |rows| * n == (|rows| - 1) * n + n;
    }
  }

  /** Row `i` of the flattened rows. */
  lemma {:induction false} FlatRow(rows: seq<seq<Float>>, n: nat, i: nat)
    requires Uniform(rows, n) && i < |rows|
    ensures i * n + n <= |Flat(rows)| && Flat(rows)[i * n..i * n + n] == rows[i]
  {
    var front, last := rows[..|rows| - 1], rows[|rows| - 1];
    assert Flat(rows) == Flat(front) + last;
    if i < |front| {
      FlatRow(front, n, i);
      SliceFirst(Flat(front), last, i * n, n);
    } else {
      FlatLength(front, n);
      SliceLast(Flat(front), last);
    }
  }

  lemma SliceFirst(a: seq<Float>, b: seq<Float>, at: nat, n: nat)
    requires at + n <= |a|
    ensures (a + b)[at..at + n] == a[at..at + n]
  {
  }

  lemma SliceLast(a: seq<Float>, b: seq<Float>)
    ensures (a + b)[|a|..|a| + |b|] == b
  {
  }

  /** Overwriting one row. */
  lemma {:induction false} FlatUpdate(rows: seq<seq<Float>>, n: nat, i: nat, row: seq<Float>)
    requires Uniform(rows, n) && i < |rows| && |row| == n
    ensures i * n + n <= |Flat(rows)| && Flat(rows[i := row]) == Spliced(Flat(rows), i * n, row)
  {
    var front, last := rows[..|rows| - 1], rows[|rows| - 1];
    FlatLength(rows, n);
    FlatLength(front, n);
    assert |rows| * n == (|rows| - 1) * n + n;
    if i < |front| {
      FlatUpdate(front, n, i, row);
      assert rows[i := row][..|rows| - 1] == front[i := row];
      assert Spliced(Flat(front), i * n, row) + last == Spliced(Flat(rows), i * n, row);
    } else {
      assert rows[i := row][..|rows| - 1] == front;
      assert Spliced(Flat(rows), i * n, row) == Flat(front) + row;
    }
  }

  /** The rows after the first `k` sparse entries have been written over the base. */
  function RowsAfter(a: Accessor, elements: nat, k: nat): (rows: seq<seq<Float>>)
    requires Readable(a) && BaseReady(a) && elements <= a.count && k <= |Indices(a)|
    ensures |rows| == elements && Uniform(rows, NumComponents(a.shape))
  {
    seq(elements, i requires 0 <= i < elements => RowAfter(a, i, k))
  }

  function RowAfter(a: Accessor, i: nat, k: nat): (row: seq<Float>)
    requires Readable(a) && BaseReady(a) && i < a.count && k <= |Indices(a)|
    ensures |row| == NumComponents(a.shape)
  {
    Value(a, i, LastEntry(Indices(a), i, k)).value
  }

  lemma RowsStep(a: Accessor, elements: nat, k: nat)
    requires Readable(a) && BaseReady(a) && elements <= a.count && k < |Indices(a)|
    ensures RowsAfter(a, elements, k + 1) ==
              if Indices(a)[k] < elements then RowsAfter(a, elements, k)[Indices(a)[k] := SparseRow(a, k)] else RowsAfter(a, elements, k)
  {
  }

  /** Everything the bulk form reads can be reached. */
  predicate BulkReady(a: Accessor)
    requires Readable(a)
  {
    BaseReady(a) && (a.sparse.Some? ==> SparseReady(a.sparse.value))
  }

  /** Where in the output sparse entry `k` belongs. */
  function Place(a: Accessor, k: nat): nat
    requires Readable(a) && k < |Indices(a)|
  {
    Indices(a)[k] * NumComponents(a.shape)
  }

  /** Every sparse entry has a place in an output of `size` floats. */
  predicate EntriesFit(a: Accessor, size: nat)
    requires Readable(a)
  {
    forall k | 0 <= k < |Indices(a)| :: Place(a, k) + NumComponents(a.shape) <= size
  }

  /** The output after the first `k` sparse entries have been written to their places in it. */
  function Scattered(a: Accessor, out: seq<Float>, k: nat): (r: seq<Float>)
    requires Readable(a) && k <= |Indices(a)| && EntriesFit(a, |out|)
    ensures |r| == |out|
  {
    if k == 0 then out
    else
      var before := Scattered(a, out, k - 1);
      assert Place(a, k - 1) + NumComponents(a.shape) <= |before|;
      Spliced(before, Place(a, k - 1), SparseRow(a, k - 1))
  }

  /** The output after both passes over the first `elements` elements. */
  function Unpacked(a: Accessor, out: seq<Float>, elements: nat): (r: seq<Float>)
    requires Readable(a) && BaseReady(a) && elements <= a.count && elements * NumComponents(a.shape) <= |out| && EntriesFit(a, |out|)
    ensures |r| == |out|
  {
    FlatLength(RowsAfter(a, elements, 0), NumComponents(a.shape));
    Scattered(a, Flat(RowsAfter(a, elements, 0)) + out[elements * NumComponents(a.shape)..], |Indices(a)|)
  }

  /**
   The bulk form: the number of floats, or 0 when data is missing; `None` stands for a sparse entry written beyond the
   memory behind `out`.
   */
  method UnpackFloats(a: Accessor, out: array?<Float>, floatCount: nat) returns (written: Option<nat>)
    requires Readable(a) && (out != null ==> floatCount <= out.Length)
    modifies out
    ensures var n := NumComponents(a.shape);
            var elements := Elements(a, floatCount);
            && (out == null ==> written == Some(a.count * n))
            && (out != null && !BulkReady(a) ==> written == Some(0))
            && (out != null && BulkReady(a) && !EntriesFit(a, out.Length) ==> written == None)
            && (out != null && BulkReady(a) && EntriesFit(a, out.Length) ==>
                  && elements <= a.count && elements * n <= floatCount
                  && written == Some(elements * n) && out[..] == Unpacked(a, old(out[..]), elements))
  {
    var n := NumComponents(a.shape);
    var available := a.count * n;
    if out == null { return Some(available); }
    var count := if available < floatCount then available else floatCount;
    var elements := count / n;
    ElementsBound(a, floatCount);
    ghost var before := out[..];
    var ok := UnpackBase(a, out, elements);
    if !ok { return Some(0); }
    FlatLength(RowsAfter(a, elements, 0), n);
    assert out[..] == Flat(RowsAfter(a, elements, 0)) + before[elements * n..];
    if a.sparse.Some? {
      var sparse := UnpackSparse(a, out);
      if sparse != Some(true) { return if sparse.None? then None else Some(0); }
    }
    written := Some(elements * n);
  }

  /** The output starts with the base elements. */
  ghost predicate Holds(a: Accessor, out: seq<Float>, elements: nat, k: nat)
    requires Readable(a) && BaseReady(a) && elements <= a.count && k <= |Indices(a)|
  {
    elements * NumComponents(a.shape) <= |out| && out[..elements * NumComponents(a.shape)] == Flat(RowsAfter(a, elements, k))
  }

  /** How many whole elements a request for so many floats covers. */
  function Elements(a: Accessor, floatCount: nat): nat {
    var available := a.count * NumComponents(a.shape);
    (if available < floatCount then available else floatCount) / NumComponents(a.shape)
  }

  lemma ElementsBound(a: Accessor, floatCount: nat)
    ensures Elements(a, floatCount) <= a.count && Elements(a, floatCount) * NumComponents(a.shape) <= floatCount
    ensures floatCount >= a.count * NumComponents(a.shape) ==> Elements(a, floatCount) == a.count
  {
    var n := NumComponents(a.shape);
    var count := if a.count * n < floatCount then a.count * n else floatCount;
    QuotientBound(count, n, a.count);
  }

  lemma QuotientBound(x: nat, n: nat, c: nat)
    requires n > 0 && x <= c * n
    ensures x / n <= c && x / n * n <= x && (x == c * n ==> x / n == c)
  {
    var q := x / n;
    assert x == q * n + x % n;
    CancelProduct(q, c, n);
    assert (q + 1) * n == q * n + n;
    CancelProduct(c, q + 1, n);
  }

  lemma CancelProduct(a: nat, b: nat, n: nat)
    requires n > 0
    ensures a * n <= b * n ==> a <= b
    ensures a * n < b * n ==> a < b
  {
    if a > b { Grows(b, a - b, n); }
    if a == b { assert a * n == b * n; }
  }

  lemma Grows(b: nat, d: nat, n: nat)
    requires d > 0 && n > 0
    ensures (b + d) * n > b * n
  {
    assert (b + d) * n == b * n + d * n;
    assert d * n > 0;
  }

  /** The first pass: zeros, a plain copy, or element by element. */
  method UnpackBase(a: Accessor, out: array<Float>, elements: nat) returns (ok: bool)
    requires Readable(a) && elements <= a.count && elements * NumComponents(a.shape) <= out.Length
    modifies out
    ensures ok <==> BaseReady(a)
    ensures out[elements * NumComponents(a.shape)..] == old(out[elements * NumComponents(a.shape)..])
    ensures ok ==> Holds(a, out[..], elements, 0)
  {
    var n := NumComponents(a.shape);
    if a.view.None? {
      FillZeros(out, elements * n);
      FlatZeros(a, elements);
      return true;
    }
    var data := ViewData(a.view.value);
    if data.None? { return false; }
    ok := true;
    if a.component == R32f && a.stride == n * 4 {
      CopyFloats(data.value, a.offset, out, elements * n, a, elements);
    } else {
      UnpackEach(data.value, a, out, elements);
    }
  }

  lemma {:induction false} ZerosAdd(m: nat, n: nat)
    ensures Zeros(m) + Zeros(n) == Zeros(m + n)
  {
    assert |Zeros(m) + Zeros(n)| == |Zeros(m + n)|;
  }

  lemma {:induction false} FlatZeros(a: Accessor, elements: nat)
    requires Readable(a) && a.view.None? && elements <= a.count
    ensures Flat(RowsAfter(a, elements, 0)) == Zeros(elements * NumComponents(a.shape))
  {
    var n := NumComponents(a.shape);
    if elements > 0 {
      FlatZeros(a, elements - 1);
      RowsFront(a, elements);
      ZerosAdd((elements - 1) * n, n);
      assert (elements - 1) * n + n == elements * n;
    }
  }

  /** The bytes of `size` floats, one after the other. */
  function FloatsAt(m: bytes, p: nat, size: nat): (r: seq<Float>)
    requires size > 0 ==> p + 4 * size <= |m|
    ensures |r| == size
  {
    seq(size, j requires 0 <= j < size => FloatAt(m, p + 4 * j))
  }

  method CopyFloats(m: bytes, p: nat, out: array<Float>, size: nat, ghost a: Accessor, ghost elements: nat)
    requires Readable(a) && a.view.Some? && ViewData(a.view.value) == Some(m) && p == a.offset && elements <= a.count
    requires a.component == R32f && a.stride == NumComponents(a.shape) * 4 && size == elements * NumComponents(a.shape) <= out.Length
    modifies out
    ensures out[..size] == Flat(RowsAfter(a, elements, 0)) && out[size..] == old(out[size..])
  {
    FlatFloats(a, elements);
    for j := 0 to size
      invariant forall k | 0 <= k < j :: out[k] == FloatAt(m, p + 4 * k)
      invariant out[size..] == old(out[size..])
    {
      out[j] := FloatAt(m, p + 4 * j);
    }
    assert out[..size] == FloatsAt(m, p, size);
  }

  /** Tightly packed floats: the rows one after the other are the floats one after the other. */
  lemma {:induction false} FlatFloats(a: Accessor, elements: nat)
    requires Readable(a) && a.view.Some? && ViewData(a.view.value).Some? && elements <= a.count
    requires a.component == R32f && a.stride == NumComponents(a.shape) * 4
    ensures var m := ViewData(a.view.value).value;
            var size := elements * NumComponents(a.shape);
            (size > 0 ==> a.offset + 4 * size <= |m|) && Flat(RowsAfter(a, elements, 0)) == FloatsAt(m, a.offset, size)
  {
    if elements > 0 {
      var n := NumComponents(a.shape);
      var m := ViewData(a.view.value).value;
      var done := (elements - 1) * n;
      Tight(n, elements, a.stride);
      FlatFloats(a, elements - 1);
      RowsFront(a, elements);
      RowFloats(a, elements - 1, done);
      FloatsJoin(m, a.offset, done, n);
    } else {
      assert RowsAfter(a, elements, 0) == [];
    }
  }

  lemma Tight(n: nat, elements: nat, stride: nat)
    requires elements > 0 && stride == n * 4
    ensures stride * (elements - 1) == 4 * ((elements - 1) * n) && (elements - 1) * n + n == elements * n
  {
    assert stride * (elements - 1) == (n * 4) * (elements - 1);
  }

  lemma RowsFront(a: Accessor, elements: nat)
    requires Readable(a) && BaseReady(a) && 0 < elements <= a.count
    ensures var rows := RowsAfter(a, elements, 0);
            rows[..elements - 1] == RowsAfter(a, elements - 1, 0) && rows[elements - 1] == RowAfter(a, elements - 1, 0)
  {
  }

  lemma FloatsJoin(m: bytes, p: nat, done: nat, n: nat)
    requires n > 0 && p + 4 * (done + n) <= |m|
    ensures FloatsAt(m, p, done) + FloatsAt(m, p + 4 * done, n) == FloatsAt(m, p, done + n)
  {
  }

  lemma RowFloats(a: Accessor, i: nat, done: nat)
    requires Readable(a) && a.view.Some? && ViewData(a.view.value).Some? && i < a.count
    requires a.component == R32f && done == i * NumComponents(a.shape) && a.stride * i == 4 * done
    ensures var m := ViewData(a.view.value).value;
            var n := NumComponents(a.shape);
            a.offset + 4 * (done + n) <= |m| && RowAfter(a, i, 0) == FloatsAt(m, a.offset + 4 * done, n)
  {
    var m := ViewData(a.view.value).value;
    var n := NumComponents(a.shape);
    FitsAt(m, a.offset, a.stride, a.count, CalcSize(a.shape, R32f), i);
    var p := a.offset + 4 * done;
    forall j | 0 <= j < n ensures Element(m, p, a.shape, R32f, a.normalized)[j] == FloatAt(m, p + 4 * j) {
      OffsetsAgree(a.shape, R32f, j);
    }
  }

  method UnpackEach(m: bytes, a: Accessor, out: array<Float>, elements: nat)
    requires Readable(a) && a.view.Some? && ViewData(a.view.value) == Some(m) && elements <= a.count
    requires elements * NumComponents(a.shape) <= out.Length
    modifies out
    ensures var size := elements * NumComponents(a.shape);
            out[..size] == Flat(RowsAfter(a, elements, 0)) && out[size..] == old(out[size..])
  {
    var n := NumComponents(a.shape);
    var dest: nat, element: nat := 0, a.offset;
    ghost var before := out[..];
    for index := 0 to elements
      invariant dest == index * n && element == a.offset + a.stride * index
      invariant dest <= elements * n
      invariant out[..dest] == Flat(RowsAfter(a, index, 0)) && out[dest..] == before[dest..]
    {
      NextPlace(index, elements, n, a.stride, dest, a.offset, element);
      UnpackOne(m, a, out, index, dest, element);
      dest := dest + n;
      element := element + a.stride;
    }
  }

  method UnpackOne(m: bytes, a: Accessor, out: array<Float>, index: nat, dest: nat, element: nat)
    requires Readable(a) && a.view.Some? && ViewData(a.view.value) == Some(m) && index < a.count
    requires element == a.offset + a.stride * index && dest + NumComponents(a.shape) <= out.Length
    requires out[..dest] == Flat(RowsAfter(a, index, 0))
    modifies out
    ensures var n := NumComponents(a.shape);
            out[..dest + n] == Flat(RowsAfter(a, index + 1, 0)) && out[dest + n..] == old(out[dest + n..])
  {
    ghost var before := out[..];
    BaseRowAt(a, index, m, element);
    var _ := ReadElement(m, element, a.shape, a.component, a.normalized, out, dest, NumComponents(a.shape));
    SpliceEnd(before, dest, BaseRow(a, index));
    RowsFront(a, index + 1);
  }

  lemma SpliceEnd(s: seq<Float>, at: nat, row: seq<Float>)
    requires at + |row| <= |s|
    ensures Spliced(s, at, row)[..at + |row|] == s[..at] + row && Spliced(s, at, row)[at + |row|..] == s[at + |row|..]
  {
  }

  lemma NextRow(i: nat, count: nat, n: nat, stride: nat)
    requires i < count
    ensures (i + 1) * n == i * n + n <= count * n && stride * (i + 1) == stride * i + stride
  {
  }

  lemma NextPlace(i: nat, count: nat, n: nat, stride: nat, dest: nat, offset: nat, element: nat)
    requires i < count && dest == i * n && element == offset + stride * i
    ensures dest + n == (i + 1) * n <= count * n && element + stride == offset + stride * (i + 1)
  {
    NextRow(i, count, n, stride);
  }

  /** The second pass: every sparse entry to its place; `None` when there is no such place in the memory. */
  method UnpackSparse(a: Accessor, out: array<Float>) returns (ok: Option<bool>)
    requires Readable(a) && a.sparse.Some?
    modifies out
    ensures !SparseReady(a.sparse.value) ==> ok == Some(false)
    ensures SparseReady(a.sparse.value) ==> ok == if EntriesFit(a, out.Length) then Some(true) else None
    ensures ok == Some(true) ==> out[..] == Scattered(a, old(out[..]), |Indices(a)|)
  {
    var s := a.sparse.value;
    if ViewData(s.indices).None? || ViewData(s.values).None? { return Some(false); }
    var n := NumComponents(a.shape);
    for k := 0 to s.count
      invariant forall j | 0 <= j < k :: Place(a, j) + n <= out.Length
      invariant EntriesFit(a, out.Length) ==> out[..] == Scattered(a, old(out[..]), k)
    {
      var index := ReadSparseIndex(a, k);
      assert index * n == Place(a, k);
      if index * n + n > out.Length { return None; }
      PutSparse(a, out, k, index);
    }
    ok := Some(true);
  }

  /** One sparse entry over row `index`. */
  method PutSparse(a: Accessor, out: array<Float>, k: nat, index: nat)
    requires Readable(a) && a.sparse.Some? && SparseReady(a.sparse.value) && k < a.sparse.value.count
    requires index * NumComponents(a.shape) + NumComponents(a.shape) <= out.Length
    modifies out
    ensures out[..] == Spliced(old(out[..]), index * NumComponents(a.shape), SparseRow(a, k))
  {
    var s := a.sparse.value;
    var n := NumComponents(a.shape);
    var m := ViewData(s.values).value;
    var p := s.valuesOffset + a.stride * k;
    SparseRowAt(a, k, m, p);
    var _ := ReadElement(m, p, a.shape, a.component, a.normalized, out, index * n, n);
  }

  // ---------------------------------------------------------------- where the bulk form writes

  lemma SpliceInside(s: seq<Float>, size: nat, at: nat, row: seq<Float>)
    requires at + |row| <= size <= |s|
    ensures Spliced(s, at, row)[..size] == Spliced(s[..size], at, row) && Spliced(s, at, row)[size..] == s[size..]
  {
  }

  lemma SpliceBeyond(s: seq<Float>, size: nat, at: nat, row: seq<Float>)
    requires size <= at && at + |row| <= |s|
    ensures Spliced(s, at, row)[..size] == s[..size]
  {
  }

  lemma PlaceOf(index: nat, elements: nat, n: nat)
    requires n > 0
    ensures index < elements <==> index * n + n <= elements * n
    ensures index >= elements <==> index * n >= elements * n
  {
    CancelProduct(index + 1, elements, n);
    CancelProduct(elements, index, n);
    if index < elements { NextRow(index, elements, n, 0); } else { NextRow(elements, index + 1, n, 0); }
    assert (index + 1) * n == index * n + n;
  }

  lemma PutKeeps(a: Accessor, out: seq<Float>, elements: nat, k: nat)
    requires Readable(a) && BaseReady(a) && elements <= a.count && k < |Indices(a)| && Holds(a, out, elements, k)
    requires Place(a, k) + NumComponents(a.shape) <= |out|
    ensures Holds(a, Spliced(out, Place(a, k), SparseRow(a, k)), elements, k + 1)
  {
    var n, index, row := NumComponents(a.shape), Indices(a)[k], SparseRow(a, k);
    RowsStep(a, elements, k);
    PlaceOf(index, elements, n);
    if index < elements {
      FlatUpdate(RowsAfter(a, elements, k), n, index, row);
      SpliceInside(out, elements * n, index * n, row);
    } else {
      SpliceBeyond(out, elements * n, index * n, row);
    }
  }

  lemma ScatterStep(a: Accessor, out: seq<Float>, k: nat)
    requires Readable(a) && 0 < k <= |Indices(a)| && EntriesFit(a, |out|)
    ensures Place(a, k - 1) + NumComponents(a.shape) <= |out|
    ensures Scattered(a, out, k) == Spliced(Scattered(a, out, k - 1), Place(a, k - 1), SparseRow(a, k - 1))
  {
  }

  /** The requested floats hold the rows, whatever is written elsewhere. */
  lemma {:induction false} ScatteredRows(a: Accessor, out: seq<Float>, elements: nat, k: nat)
    requires Readable(a) && BaseReady(a) && elements <= a.count && k <= |Indices(a)| && EntriesFit(a, |out|) && Holds(a, out, elements, 0)
    ensures Holds(a, Scattered(a, out, k), elements, k)
    decreases k
  {
    if k > 0 {
      var before := Scattered(a, out, k - 1);
      ScatteredRows(a, out, elements, k - 1);
      assert Place(a, k - 1) + NumComponents(a.shape) <= |before|;
      PutKeeps(a, before, elements, k - 1);
      ScatterStep(a, out, k);
    }
  }

  /** What the bulk form leaves in the requested floats. */
  lemma UnpackedRows(a: Accessor, out: seq<Float>, elements: nat)
    requires Readable(a) && BaseReady(a) && elements <= a.count && elements * NumComponents(a.shape) <= |out| && EntriesFit(a, |out|)
    ensures Unpacked(a, out, elements)[..elements * NumComponents(a.shape)] == Flat(RowsAfter(a, elements, |Indices(a)|))
  {
    FlatLength(RowsAfter(a, elements, 0), NumComponents(a.shape));
    ScatteredRows(a, Flat(RowsAfter(a, elements, 0)) + out[elements * NumComponents(a.shape)..], elements, |Indices(a)|);
  }

  ghost predicate IndicesBelow(a: Accessor, elements: nat)
    requires Readable(a)
  {
    forall k | 0 <= k < |Indices(a)| :: Indices(a)[k] < elements
  }

  lemma BelowFits(a: Accessor, elements: nat)
    requires Readable(a)
    ensures IndicesBelow(a, elements) <==> EntriesFit(a, elements * NumComponents(a.shape))
  {
    forall k | 0 <= k < |Indices(a)|
      ensures Indices(a)[k] < elements <==> Place(a, k) + NumComponents(a.shape) <= elements * NumComponents(a.shape)
    {
      PlaceOf(Indices(a)[k], elements, NumComponents(a.shape));
    }
  }

  /** With all places within the first `size` floats nothing else is written. */
  lemma {:induction false} ScatteredInside(a: Accessor, out: seq<Float>, size: nat, k: nat)
    requires Readable(a) && k <= |Indices(a)| && size <= |out| && EntriesFit(a, size) && EntriesFit(a, |out|)
    ensures Scattered(a, out, k)[size..] == out[size..]
    decreases k
  {
    if k > 0 {
      ScatteredInside(a, out, size, k - 1);
      var before, at, row := Scattered(a, out, k - 1), Place(a, k - 1), SparseRow(a, k - 1);
      assert at + |row| <= size;
      SpliceInside(before, size, at, row);
      assert Scattered(a, out, k) == Spliced(before, at, row);
    }
  }

  /** A float that is not `f`. */
  function Other(f: Float): (g: Float)
    ensures g != f
  {
    if f == ZERO then Bits(1) else ZERO
  }

  /** The first float of an entry's place does not depend on `out` once the entry has been written. */
  lemma {:induction false} ScatteredFixed(a: Accessor, x: seq<Float>, y: seq<Float>, k: nat, j: nat)
    requires Readable(a) && j < k <= |Indices(a)| && |x| == |y| && EntriesFit(a, |x|) && EntriesFit(a, |y|)
    ensures Place(a, j) < |x| && Scattered(a, x, k)[Place(a, j)] == Scattered(a, y, k)[Place(a, j)]
    decreases k
  {
    assert Place(a, j) + NumComponents(a.shape) <= |x|;
    if j < k - 1 { ScatteredFixed(a, x, y, k - 1, j); }
    SameSplice(Scattered(a, x, k - 1), Scattered(a, y, k - 1), Place(a, k - 1), SparseRow(a, k - 1), Place(a, j));
  }

  lemma SameSplice(x: seq<Float>, y: seq<Float>, at: nat, row: seq<Float>, p: nat)
    requires |x| == |y| && at + |row| <= |x| && p < |x| && (x[p] == y[p] || at <= p < at + |row|)
    ensures Spliced(x, at, row)[p] == Spliced(y, at, row)[p]
  {
  }

  /** An entry beyond the requested elements overwrites a float there. */
  lemma WritesOutside(a: Accessor, elements: nat, length: nat, j: nat) returns (out: seq<Float>)
    requires Readable(a) && BaseReady(a) && elements <= a.count && elements * NumComponents(a.shape) <= length && EntriesFit(a, length)
    requires j < |Indices(a)| && Indices(a)[j] >= elements
    ensures |out| == length
    ensures var size := elements * NumComponents(a.shape); Unpacked(a, out, elements)[size..] != out[size..]
  {
    var n := NumComponents(a.shape);
    var size, p := elements * n, Place(a, j);
    var rows := Flat(RowsAfter(a, elements, 0));
    FlatLength(RowsAfter(a, elements, 0), n);
    PlaceOf(Indices(a)[j], elements, n);
    assert p + n <= length;
    var x := Zeros(length);
    var v := Unpacked(a, x, elements)[p];
    out := x[p := Other(v)];
    ScatteredFixed(a, rows + x[size..], rows + out[size..], |Indices(a)|, j);
    assert Unpacked(a, out, elements)[p] == v;
    assert Unpacked(a, out, elements)[size..][p - size] != out[size..][p - size];
  }

  /**
   The floats behind the requested elements stay as they are, whatever they hold, if and only if all sparse indices
   are below the number of requested elements.
   */
  lemma WritesInside(a: Accessor, elements: nat, length: nat)
    requires Readable(a) && BaseReady(a) && elements <= a.count && elements * NumComponents(a.shape) <= length && EntriesFit(a, length)
    ensures var size := elements * NumComponents(a.shape);
            (forall out: seq<Float> | |out| == length :: Unpacked(a, out, elements)[size..] == out[size..]) <==> IndicesBelow(a, elements)
  {
    var size := elements * NumComponents(a.shape);
    if IndicesBelow(a, elements) {
      BelowFits(a, elements);
      forall out: seq<Float> | |out| == length ensures Unpacked(a, out, elements)[size..] == out[size..] { UnpackedBehind(a, out, elements); }
    } else {
      var j :| 0 <= j < |Indices(a)| && Indices(a)[j] >= elements;
      var out := WritesOutside(a, elements, length, j);
    }
  }

  lemma UnpackedBehind(a: Accessor, out: seq<Float>, elements: nat)
    requires Readable(a) && BaseReady(a) && elements <= a.count && elements * NumComponents(a.shape) <= |out|
    requires EntriesFit(a, |out|) && EntriesFit(a, elements * NumComponents(a.shape))
    ensures var size := elements * NumComponents(a.shape); Unpacked(a, out, elements)[size..] == out[size..]
  {
    var size := elements * NumComponents(a.shape);
    var rows := Flat(RowsAfter(a, elements, 0));
    FlatLength(RowsAfter(a, elements, 0), NumComponents(a.shape));
    ScatteredInside(a, rows + out[size..], size, |Indices(a)|);
    assert (rows + out[size..])[size..] == out[size..];
  }

  // ---------------------------------------------------------------- the two ways agree

  /** What the bulk form gives for element `i`, when all elements are requested. */
  function BulkSlot(a: Accessor, out: seq<Float>, i: nat): Option<seq<Float>>
    requires Readable(a) && i < a.count && a.count * NumComponents(a.shape) <= |out| && EntriesFit(a, |out|)
  {
    var n := NumComponents(a.shape);
    PlaceOf(i, a.count, n);
    if BulkReady(a) then Some(Unpacked(a, out, a.count)[i * n..i * n + n]) else None
  }

  /** What reading it by itself gives. */
  function SingleSlot(a: Accessor, out: seq<Float>, i: nat): Option<seq<Float>>
    requires Readable(a) && i < a.count && NumComponents(a.shape) <= |out|
  {
    var n := NumComponents(a.shape);
    var r := SingleRead(a, i, FirstEntry(Indices(a), i, 0), out, n);
    if r.Some? then Some(r.value[..n]) else None
  }

  lemma SingleIsValue(a: Accessor, out: seq<Float>, i: nat)
    requires Readable(a) && i < a.count && NumComponents(a.shape) <= |out|
    ensures SingleSlot(a, out, i) == Value(a, i, FirstEntry(Indices(a), i, 0))
  {
    var n := NumComponents(a.shape);
    var v := Value(a, i, FirstEntry(Indices(a), i, 0));
    if v.Some? { SpliceStart(out, v.value, n); }
    assert (Zeros(n) + out[n..])[..n] == Zeros(n);
  }

  /** One row of floats that start with the flattened rows. */
  lemma RowWithin(u: seq<Float>, rows: seq<seq<Float>>, n: nat, i: nat, size: nat)
    requires n > 0 && Uniform(rows, n) && i < |rows| && size == |rows| * n <= |u| && u[..size] == Flat(rows)
    ensures i * n + n <= size && u[i * n..i * n + n] == rows[i]
  {
    FlatRow(rows, n, i);
    PlaceOf(i, |rows|, n);
    SliceWithin(u, size, i * n, n);
  }

  lemma SliceWithin(s: seq<Float>, size: nat, at: nat, n: nat)
    requires at + n <= size <= |s|
    ensures s[..size][at..at + n] == s[at..at + n]
  {
  }

  /** Element `i` of the bulk form. */
  lemma BulkSlotIs(a: Accessor, out: seq<Float>, i: nat)
    requires Readable(a) && BulkReady(a) && i < a.count && a.count * NumComponents(a.shape) <= |out| && EntriesFit(a, |out|)
    ensures BulkSlot(a, out, i) == Some(RowAfter(a, i, |Indices(a)|))
  {
    UnpackedRows(a, out, a.count);
    RowWithin(Unpacked(a, out, a.count), RowsAfter(a, a.count, |Indices(a)|), NumComponents(a.shape), i, a.count * NumComponents(a.shape));
  }

  /** When everything can be reached, element `i` of the bulk form is what reading element `i` by itself gives. */
  lemma SlotAgrees(a: Accessor, out: seq<Float>, one: seq<Float>, i: nat)
    requires Readable(a) && BulkReady(a) && StrictlyIncreasing(Indices(a)) && i < a.count
    requires a.count * NumComponents(a.shape) <= |out| && EntriesFit(a, |out|) && NumComponents(a.shape) <= |one|
    ensures SingleSlot(a, one, i) == BulkSlot(a, out, i)
  {
    EntriesAgree(Indices(a));
    BulkSlotIs(a, out, i);
    SingleIsValue(a, one, i);
  }

  /**
   With strictly increasing indices the two ways agree on all elements (or fail on all of them alike) if and only if
   base and sparse data can both be reached, or there is nothing the single form could read: no element at all, or a
   base that cannot be reached and no sparse entry for any element.
   */
  lemma BulkAgreesWithSingle(a: Accessor, out: seq<Float>, one: seq<Float>)
    requires Readable(a) && StrictlyIncreasing(Indices(a))
    requires a.count * NumComponents(a.shape) <= |out| && EntriesFit(a, |out|) && NumComponents(a.shape) <= |one|
    ensures (forall i | 0 <= i < a.count :: SingleSlot(a, one, i) == BulkSlot(a, out, i))
            <==> BulkReady(a) || a.count == 0 || (!BaseReady(a) && forall k | 0 <= k < |Indices(a)| :: Indices(a)[k] >= a.count)
  {
    forall i | 0 <= i < a.count ensures SingleSlot(a, one, i) == Value(a, i, FirstEntry(Indices(a), i, 0)) { SingleIsValue(a, one, i); }
    if BulkReady(a) {
      forall i | 0 <= i < a.count ensures SingleSlot(a, one, i) == BulkSlot(a, out, i) { SlotAgrees(a, out, one, i); }
    } else if a.count > 0 {
      forall i | 0 <= i < a.count ensures BulkSlot(a, out, i) == None {}
      if BaseReady(a) {
        assert SingleSlot(a, one, 0).Some?;
      } else if k :| 0 <= k < |Indices(a)| && Indices(a)[k] < a.count {
        assert FirstEntry(Indices(a), Indices(a)[k], 0).Some?;
        assert SingleSlot(a, one, Indices(a)[k]).Some?;
      }
    }
  }

  // ---------------------------------------------------------------- where they differ

  const NOWHERE := View(None, None, 0)

  /** One scalar byte without a base, and a sparse part whose data is missing: the single form gives 0, the bulk form fails. */
  lemma SparseUnreachable(out: seq<Float>)
    requires |out| >= 1
    ensures var a := Accessor(Scalar, R8u, false, 0, 1, 1, None, Some(Sparse(1, NOWHERE, 0, R8u, NOWHERE, 0)));
            && Readable(a) && Indices(a) == [] && BaseReady(a) && EntriesFit(a, |out|)
            && SingleSlot(a, out, 0) == Some([ZERO]) && BulkSlot(a, out, 0) == None
  {
    var a := Accessor(Scalar, R8u, false, 0, 1, 1, None, Some(Sparse(1, NOWHERE, 0, R8u, NOWHERE, 0)));
    SingleIsValue(a, out, 0);
    assert Zeros(1) == [ZERO];
  }

  /** One sparse byte of value 7 for element 0, and a base whose data is missing. */
  function Headless(): Accessor {
    Accessor(Scalar, R8u, false, 0, 1, 1, Some(NOWHERE), Some(Sparse(1, View(Some([0]), None, 0), 0, R8u, View(Some([7]), None, 0), 0)))
  }

  /** The single form gives the sparse value, the bulk form fails. */
  lemma BaseUnreachable(out: seq<Float>)
    requires |out| >= 1
    ensures var a := Headless();
            && Readable(a) && Indices(a) == [0] && !BaseReady(a) && EntriesFit(a, |out|)
            && SingleSlot(a, out, 0) == Some([Number(7.0)]) && BulkSlot(a, out, 0) == None
  {
    var a := Headless();
    assert Unsigned([0], 0, 1) == 0 + 256 * Unsigned([0], 1, 0);
    assert SparseIndex(a.sparse.value, 0) == 0;
    assert FirstEntry(Indices(a), 0, 0) == Some(0);
    assert Unsigned([7], 0, 1) == 7 + 256 * Unsigned([7], 1, 0);
    assert SparseRow(a, 0) == [Number(7.0)];
    SingleIsValue(a, out, 0);
  }

  /** Two bytes without a base, of which the second is 7. */
  function Tailed(): Accessor {
    Accessor(Scalar, R8u, false, 0, 2, 1, None, Some(Sparse(1, View(Some([1]), None, 0), 0, R8u, View(Some([7]), None, 0), 0)))
  }

  /** Asked for one float the bulk form writes the second one too. */
  lemma WritesBeyondRequest(out: seq<Float>)
    requires |out| == 2
    ensures var a := Tailed();
            && Readable(a) && BulkReady(a) && Elements(a, 1) == 1 && EntriesFit(a, 2)
            && Unpacked(a, out, 1)[1] == Number(7.0)
  {
    var a := Tailed();
    assert Unsigned([1], 0, 1) == 1 + 256 * Unsigned([1], 1, 0);
    assert Indices(a) == [1];
    assert Unsigned([7], 0, 1) == 7 + 256 * Unsigned([7], 1, 0);
    assert SparseRow(a, 0) == [Number(7.0)];
    FlatLength(RowsAfter(a, 1, 0), 1);
    var base := Flat(RowsAfter(a, 1, 0)) + out[1..];
    assert Scattered(a, base, 1) == Spliced(Scattered(a, base, 0), 1, SparseRow(a, 0));
  }
}
