/**
 The node hierarchy of a glTF file: parents derived from child lists, the cycle check of
 `cgltf_validate`, and the loop of `cgltf_node_transform_world` that relies on it.
 A node is an index; -1 is the null pointer.
 */
module NodeTree {

  import opened Common
  import opened Rotation

  // ---------------------------------------------------------------- ancestors

  /** Every entry is null or a node. */
  ghost predicate Linked(parent: seq<int>) {
    forall i | 0 <= i < |parent| :: -1 <= parent[i] < |parent|
  }

  /** The k-th ancestor of `i`; null once the chain has ended. */
  ghost function Up(parent: seq<int>, i: int, k: nat): (r: int)
    requires Linked(parent) && -1 <= i < |parent|
    ensures -1 <= r < |parent|
    decreases k
  {
    if k == 0 || i == -1 then i else Up(parent, parent[i], k - 1)
  }

  ghost predicate ReachesNull(parent: seq<int>, i: int)
    requires Linked(parent) && -1 <= i < |parent|
  {
    exists k: nat :: Up(parent, i, k) == -1
  }

  lemma {:induction false} UpAdd(parent: seq<int>, i: int, a: nat, b: nat)
    requires Linked(parent) && -1 <= i < |parent|
    ensures Up(parent, i, a + b) == Up(parent, Up(parent, i, a), b)
    decreases a
  {
    if a > 0 && i != -1 { UpAdd(parent, parent[i], a - 1, b); }
  }

  /** Two equal ancestors make the chain periodic from there on. */
  lemma {:induction false} UpPeriodic(parent: seq<int>, i: int, a: nat, q: nat, x: nat, m: nat)
    requires Linked(parent) && -1 <= i < |parent| && a <= x
    requires Up(parent, i, a + q) == Up(parent, i, a)
    ensures Up(parent, i, x + q * m) == Up(parent, i, x)
    decreases m
  {
    if m > 0 {
      UpPeriodic(parent, i, a, q, x, m - 1);
      var y := x + q * (m - 1);
      assert q * m == q * (m - 1) + q;
      assert q * (m - 1) >= 0;
      UpAdd(parent, i, a + q, y - a);
      UpAdd(parent, i, a, y - a);
    }
  }

  lemma {:induction false} DistinctBounded(s: seq<int>, n: nat)
    requires forall i | 0 <= i < |s| :: 0 <= s[i] < n
    requires forall i, j | 0 <= i < j < |s| :: s[i] != s[j]
    ensures |s| <= n
  {
    var used := set i | 0 <= i < |s| :: s[i];
    DistinctSize(s);
    assert used <= Range(n);
    SubsetSize(used, Range(n));
  }

  function Range(n: nat): (r: set<int>)
    ensures |r| == n && forall x: int :: x in r <==> 0 <= x < n
  {
    if n == 0 then {} else Range(n - 1) + {n - 1}
  }

  lemma {:induction false} DistinctSize(s: seq<int>)
    requires forall i, j | 0 <= i < j < |s| :: s[i] != s[j]
    ensures |set i | 0 <= i < |s| :: s[i]| == |s|
    decreases |s|
  {
    if s != [] {
      var t := s[..|s| - 1];
      DistinctSize(t);
      assert (set i | 0 <= i < |s| :: s[i]) == (set i | 0 <= i < |t| :: t[i]) + {s[|s| - 1]};
    }
  }

  /** Where the slow and the fast pointer are equal: after at most as many rounds as there are nodes. */
  lemma MeetingPoint(parent: seq<int>, i: int) returns (k: nat)
    requires Linked(parent) && 0 <= i < |parent|
    ensures k >= 1 && Up(parent, i, k) == Up(parent, i, 2 * k)
  {
    var n := |parent|;
    var chain := seq(n + 1, j requires 0 <= j < n + 1 => Up(parent, i, j));
    if a :| 0 <= a < n + 1 && chain[a] == -1 {
      k := a;
      UpAdd(parent, i, a, k - a);
      UpAdd(parent, i, a, 2 * k - a);
    } else {
      if forall a, b | 0 <= a < b < n + 1 :: chain[a] != chain[b] {
        DistinctBounded(chain, n);
        assert false;
      }
      var a, b :| 0 <= a < b < n + 1 && chain[a] == chain[b];
      k := MeetingAfterRepeat(parent, i, a, b - a);
    }
  }

  lemma MeetingAfterRepeat(parent: seq<int>, i: int, a: nat, q: nat) returns (k: nat)
    requires Linked(parent) && 0 <= i < |parent| && q >= 1 && Up(parent, i, a + q) == Up(parent, i, a)
    ensures k >= 1 && Up(parent, i, k) == Up(parent, i, 2 * k)
  {
    k := q * (a + 1);
    MulGrows(q, a + 1);
    UpPeriodic(parent, i, a, q, k, a + 1);
    assert k + q * (a + 1) == 2 * k;
  }

  lemma MulGrows(q: int, m: int)
    requires q >= 1 && m >= 0
    ensures q * m >= m
  {
  }

  /** Meeting at a node means going round for ever. */
  lemma MeetingIsCycle(parent: seq<int>, i: int, k: nat)
    requires Linked(parent) && 0 <= i < |parent| && k >= 1
    requires Up(parent, i, k) == Up(parent, i, 2 * k) != -1
    ensures !ReachesNull(parent, i)
  {
    forall m: nat ensures Up(parent, i, m) != -1 {
      UpPeriodic(parent, i, k, k, k, m);
      MulGrows(k, m);
      UpAdd(parent, i, m, k + k * m - m);
    }
  }

  /** The node part of `cgltf_validate`: two pointers, one twice as fast, from every node. */
  method CheckCycles(parent: array<int>) returns (ok: bool)
    requires Linked(parent[..])
    ensures ok <==> forall i | 0 <= i < parent.Length :: ReachesNull(parent[..], i)
  {
    ghost var ps := parent[..];
    for i := 0 to parent.Length
      invariant forall j | 0 <= j < i :: ReachesNull(ps, j)
    {
      var p1 := parent[i];
      var p2 := if p1 != -1 then parent[p1] else -1;
      ghost var meeting := MeetingPoint(ps, i);
      ghost var t := 1;
      assert p1 == Up(ps, i, 1) && p2 == Up(ps, i, 2);
      while p1 != -1 && p2 != -1
        invariant 1 <= t <= meeting
        invariant p1 == Up(ps, i, t) && p2 == Up(ps, i, 2 * t)
        decreases meeting - t
      {
        if p1 == p2 {
          MeetingIsCycle(ps, i, t);
          assert parent[..] == ps && !ReachesNull(parent[..], i);
          return false;
        }
        UpAdd(ps, i, t, 1);
        UpAdd(ps, i, 2 * t, 2);
        assert Up(ps, p2, 2) == if parent[p2] != -1 then parent[parent[p2]] else -1;
        p1 := parent[p1];
        p2 := if parent[p2] != -1 then parent[parent[p2]] else -1;
        t := t + 1;
      }
      assert ReachesNull(ps, i);
    }
    ok := true;
  }

  // ---------------------------------------------------------------- parents from child lists

  /** A child entry `children[i][j]` is a node number counted from one; zero means none. */
  ghost predicate EntriesInRange(children: seq<seq<nat>>) {
    forall i | 0 <= i < |children| :: forall j | 0 <= j < |children[i]| :: 1 <= children[i][j] <= |children|
  }

  /** No node is listed twice. */
  ghost predicate EntriesUnique(children: seq<seq<nat>>) {
    forall i, i' | 0 <= i < |children| && 0 <= i' < |children| ::
      forall j, j' | 0 <= j < |children[i]| && 0 <= j' < |children[i']| ::
        children[i][j] == children[i'][j'] ==> i == i' && j == j'
  }

  /** The first `len` entries of a row are distinct nodes that have `x` as their parent. */
  ghost predicate RowDone(row: seq<nat>, len: nat, parent: seq<int>, x: int) {
    && len <= |row|
    && (forall k | 0 <= k < len :: 1 <= row[k] <= |parent| && parent[row[k] - 1] == x)
    && (forall k, k' | 0 <= k < k' < len :: row[k] != row[k'])
  }

  /** Rows before `i` and the first `j` entries of row `i` have been entered, and nothing else. */
  ghost predicate Entered(children: seq<seq<nat>>, parent: seq<int>, i: nat, j: nat) {
    && |parent| == |children| && i <= |children|
    && (forall x | 0 <= x < i :: RowDone(children[x], |children[x]|, parent, x))
    && (if i == |children| then j == 0 else RowDone(children[i], j, parent, i))
    && (forall c | 0 <= c < |parent| :: parent[c] == -1 || OwnedBy(children, parent[c], c, i, j))
  }

  ghost predicate OwnedBy(children: seq<seq<nat>>, p: int, c: int, i: nat, j: nat) {
    && 0 <= p < |children| && p <= i
    && exists k | 0 <= k < |children[p]| :: children[p][k] == c + 1 && (p < i || k < j)
  }

  /** The node part of `cgltf_fixup_pointers`. */
  method FixupParents(children: seq<seq<nat>>, parent: array<int>) returns (ok: bool)
    requires parent.Length == |children| && forall c | 0 <= c < parent.Length :: parent[c] == -1
    modifies parent
    ensures ok <==> EntriesInRange(children) && EntriesUnique(children)
    ensures ok ==> Linked(parent[..])
    ensures ok ==> forall c, p | 0 <= c < parent.Length && 0 <= p < parent.Length :: parent[c] == p <==> c + 1 in children[p]
  {
    ok := true;
    var i := 0;
    while i < |children| && ok
      invariant i <= |children|
      invariant if ok then Entered(children, parent[..], i, 0) else !(EntriesInRange(children) && EntriesUnique(children))
      decreases |children| - i
    {
      ok := EnterRow(children, parent, i);
      i := i + 1;
    }
    if ok {
      AllEntered(children, parent[..]);
    }
  }

  /** The children of one node. */
  method EnterRow(children: seq<seq<nat>>, parent: array<int>, i: nat) returns (ok: bool)
    requires i < |children| && Entered(children, parent[..], i, 0)
    modifies parent
    ensures if ok then Entered(children, parent[..], i + 1, 0) else !(EntriesInRange(children) && EntriesUnique(children))
  {
    var row := children[i];
    for j := 0 to |row|
      invariant Entered(children, parent[..], i, j)
    {
      ok := EnterEntry(children, parent, i, j);
      if !ok { return; }
    }
    NextRow(children, parent[..], i);
    ok := true;
  }

  /** One child. */
  method EnterEntry(children: seq<seq<nat>>, parent: array<int>, i: nat, j: nat) returns (ok: bool)
    requires i < |children| && j < |children[i]| && Entered(children, parent[..], i, j)
    modifies parent
    ensures if ok then Entered(children, parent[..], i, j + 1) else !(EntriesInRange(children) && EntriesUnique(children))
  {
    var c := children[i][j];
    if c == 0 || c > |children| {
      BadEntry(children, i, j);
      return false;
    }
    if parent[c - 1] != -1 {
      AlreadyEntered(children, parent[..], i, j);
      return false;
    }
    EnterOne(children, parent[..], i, j);
    ghost var before := parent[..];
    parent[c - 1] := i;
    assert parent[..] == before[c - 1 := i];
    ok := true;
  }

  lemma BadEntry(children: seq<seq<nat>>, i: nat, j: nat)
    requires i < |children| && j < |children[i]| && !(1 <= children[i][j] <= |children|)
    ensures !EntriesInRange(children)
  {
  }

  lemma AlreadyEntered(children: seq<seq<nat>>, parent: seq<int>, i: nat, j: nat)
    requires Entered(children, parent, i, j) && i < |children| && j < |children[i]|
    requires 1 <= children[i][j] <= |children| && parent[children[i][j] - 1] != -1
    ensures !EntriesUnique(children)
  {
    var c := children[i][j] - 1;
    var p := parent[c];
    assert OwnedBy(children, p, c, i, j);
    var k :| 0 <= k < |children[p]| && children[p][k] == c + 1 && (p < i || k < j);
    assert children[i][j] == children[p][k];
  }

  lemma RowKept(row: seq<nat>, len: nat, parent: seq<int>, x: int, c: nat, i: int)
    requires RowDone(row, len, parent, x) && c < |parent| && parent[c] == -1 != x
    ensures RowDone(row, len, parent[c := i], x)
    ensures forall k | 0 <= k < len :: row[k] != c + 1
  {
    forall k | 0 <= k < len ensures row[k] != c + 1 { assert parent[row[k] - 1] == x; }
  }

  lemma EnterOne(children: seq<seq<nat>>, parent: seq<int>, i: nat, j: nat)
    requires Entered(children, parent, i, j) && i < |children| && j < |children[i]|
    requires 1 <= children[i][j] <= |children| && parent[children[i][j] - 1] == -1
    ensures Entered(children, parent[children[i][j] - 1 := i], i, j + 1)
  {
    var c := children[i][j] - 1;
    var after := parent[c := i];
    forall x | 0 <= x < i ensures RowDone(children[x], |children[x]|, after, x) {
      RowKept(children[x], |children[x]|, parent, x, c, i);
    }
    RowExtended(children[i], j, parent, i, c);
    OwnersExtended(children, parent, i, j);
  }

  lemma RowExtended(row: seq<nat>, j: nat, parent: seq<int>, i: nat, c: nat)
    requires RowDone(row, j, parent, i) && j < |row| && c < |parent| && row[j] == c + 1 && parent[c] == -1
    ensures RowDone(row, j + 1, parent[c := i], i)
  {
    RowKept(row, j, parent, i, c, i);
  }

  lemma OwnersExtended(children: seq<seq<nat>>, parent: seq<int>, i: nat, j: nat)
    requires i < |children| && j < |children[i]| && 1 <= children[i][j] <= |parent|
    requires forall d | 0 <= d < |parent| :: parent[d] == -1 || OwnedBy(children, parent[d], d, i, j)
    ensures var after := parent[children[i][j] - 1 := i];
            forall d | 0 <= d < |after| :: after[d] == -1 || OwnedBy(children, after[d], d, i, j + 1)
  {
    var c := children[i][j] - 1;
    var after := parent[c := i];
    forall d | 0 <= d < |after| && after[d] != -1 ensures OwnedBy(children, after[d], d, i, j + 1) {
      if d == c {
        assert children[i][j] == d + 1;
      } else {
        OwnedLater(children, parent[d], d, i, j);
      }
    }
  }

  lemma OwnedLater(children: seq<seq<nat>>, p: int, c: int, i: nat, j: nat)
    requires OwnedBy(children, p, c, i, j)
    ensures OwnedBy(children, p, c, i, j + 1)
  {
    var k :| 0 <= k < |children[p]| && children[p][k] == c + 1 && (p < i || k < j);
  }

  lemma NextRow(children: seq<seq<nat>>, parent: seq<int>, i: nat)
    requires i < |children| && Entered(children, parent, i, |children[i]|)
    ensures Entered(children, parent, i + 1, 0)
  {
    forall d | 0 <= d < |parent| && parent[d] != -1 ensures OwnedBy(children, parent[d], d, i + 1, 0) {
      assert OwnedBy(children, parent[d], d, i, |children[i]|);
      var k :| 0 <= k < |children[parent[d]]| && children[parent[d]][k] == d + 1;
      assert parent[d] < i + 1;
    }
  }

  lemma AllEntered(children: seq<seq<nat>>, parent: seq<int>)
    requires Entered(children, parent, |children|, 0)
    ensures EntriesInRange(children) && EntriesUnique(children) && Linked(parent)
    ensures forall c, p | 0 <= c < |parent| && 0 <= p < |parent| :: parent[c] == p <==> c + 1 in children[p]
  {
    forall i | 0 <= i < |children| ensures forall j | 0 <= j < |children[i]| :: 1 <= children[i][j] <= |children| {
      assert RowDone(children[i], |children[i]|, parent, i);
    }
    forall i, i' | 0 <= i < |children| && 0 <= i' < |children|
      ensures forall j, j' | 0 <= j < |children[i]| && 0 <= j' < |children[i']| ::
                children[i][j] == children[i'][j'] ==> i == i' && j == j'
    {
      assert RowDone(children[i], |children[i]|, parent, i) && RowDone(children[i'], |children[i']|, parent, i');
    }
    forall c | 0 <= c < |parent| ensures -1 <= parent[c] < |parent| {
      assert parent[c] == -1 || OwnedBy(children, parent[c], c, |children|, 0);
    }
    forall c, p | 0 <= c < |parent| && 0 <= p < |parent| ensures parent[c] == p <==> c + 1 in children[p] {
      if parent[c] == p {
        assert OwnedBy(children, p, c, |children|, 0);
      }
      if c + 1 in children[p] {
        assert RowDone(children[p], |children[p]|, parent, p);
      }
    }
  }

  // ---------------------------------------------------------------- world transforms

  /** A 4x4 matrix in cgltf's flat order: entry (i, j) at index 4 * i + j; points are row vectors. */
  type Matrix = m: seq<real> | |m| == 16 witness seq(16, _ => 0.0)

  /** The first `n` terms of entry (i, j) of a product. */
  function Dot(a: Matrix, b: Matrix, i: nat, j: nat, n: nat): real
    requires i < 4 && j < 4 && n <= 4
  {
    if n == 0 then 0.0 else Dot(a, b, i, j, n - 1) + a[4 * i + n - 1] * b[4 * (n - 1) + j]
  }

  function Entry(a: Matrix, b: Matrix, i: nat, j: nat): real
    requires i < 4 && j < 4
  {
    Dot(a, b, i, j, 4)
  }

  lemma ThreeTerms(a: Matrix, b: Matrix, i: nat, j: nat)
    requires i < 4 && j < 4
    ensures Dot(a, b, i, j, 3) == a[4 * i] * b[j] + a[4 * i + 1] * b[4 + j] + a[4 * i + 2] * b[8 + j]
  {
    assert Dot(a, b, i, j, 0) == 0.0;
    assert Dot(a, b, i, j, 1) == a[4 * i] * b[j];
    assert Dot(a, b, i, j, 2) == Dot(a, b, i, j, 1) + a[4 * i + 1] * b[4 + j];
  }

  lemma EntryTerms(a: Matrix, b: Matrix, i: nat, j: nat)
    requires i < 4 && j < 4
    ensures Entry(a, b, i, j) == a[4 * i] * b[j] + a[4 * i + 1] * b[4 + j] + a[4 * i + 2] * b[8 + j] + a[4 * i + 3] * b[12 + j]
  {
    ThreeTerms(a, b, i, j);
  }

  /** The full matrix product. */
  function Mul(a: Matrix, b: Matrix): Matrix {
    seq(16, k requires 0 <= k < 16 => Entry(a, b, k / 4, k % 4))
  }

  predicate Affine(m: Matrix) { m[3] == 0.0 && m[7] == 0.0 && m[11] == 0.0 && m[15] == 1.0 }

  function Coordinate(p: Point, m: Matrix, j: nat): real
    requires j < 4
  {
    p.x * m[j] + p.y * m[4 + j] + p.z * m[8 + j] + m[12 + j]
  }

  function Apply(m: Matrix, p: Point): Point { Point(Coordinate(p, m, 0), Coordinate(p, m, 1), Coordinate(p, m, 2)) }

  /** A node's own transform: a matrix, or translation, rotation (a quaternion) and scale. */
  datatype Node = WithMatrix(matrix: Matrix) | WithParts(t: Point, r: Quaternion, s: Point)

  /** `cgltf_node_transform_local`. */
  function Local(n: Node): Matrix {
    match n
    case WithMatrix(m) => m
    case WithParts(t, q, s) =>
      [(1.0 - 2.0 * q.y * q.y - 2.0 * q.z * q.z) * s.x, (2.0 * q.x * q.y + 2.0 * q.z * q.w) * s.x, (2.0 * q.x * q.z - 2.0 * q.y * q.w) * s.x, 0.0,
       (2.0 * q.x * q.y - 2.0 * q.z * q.w) * s.y, (1.0 - 2.0 * q.x * q.x - 2.0 * q.z * q.z) * s.y, (2.0 * q.y * q.z + 2.0 * q.x * q.w) * s.y, 0.0,
       (2.0 * q.x * q.z + 2.0 * q.y * q.w) * s.z, (2.0 * q.y * q.z - 2.0 * q.x * q.w) * s.z, (1.0 - 2.0 * q.x * q.x - 2.0 * q.y * q.y) * s.z, 0.0,
       t.x, t.y, t.z, 1.0]
  }

  /** Node `i` and its ancestors have affine transforms. */
  ghost predicate AffineAbove(locals: seq<Matrix>, parent: seq<int>, i: int)
    requires Linked(parent) && |locals| == |parent| && -1 <= i < |parent|
  {
    forall k: nat | Up(parent, i, k) != -1 :: Affine(locals[Up(parent, i, k)])
  }

  lemma AffineUp(locals: seq<Matrix>, parent: seq<int>, i: int)
    requires Linked(parent) && |locals| == |parent| && 0 <= i < |parent| && AffineAbove(locals, parent, i)
    ensures Affine(locals[i]) && AffineAbove(locals, parent, parent[i])
  {
    assert Up(parent, i, 0) == i;
    forall k: nat | Up(parent, parent[i], k) != -1 ensures Affine(locals[Up(parent, parent[i], k)]) {
      assert Up(parent, i, k + 1) == Up(parent, parent[i], k);
    }
  }

  /** A node given by parts always has an affine transform, one given by a matrix exactly when that is affine. */
  lemma LocalAffine(n: Node)
    ensures Affine(Local(n)) <==> (n.WithMatrix? ==> Affine(n.matrix))
  {
  }

  // ---------------------------------------------------------------- what the parts of a transform do

  /**
   A node given by a translation, a unit quaternion and a scale moves a point as it should: first scaled along the axes,
   then turned (`q p q^-1`, whose real part stays zero), then moved.
   */
  lemma LocalMeans(t: Point, q: Quaternion, s: Point, p: Point)
    requires IsUnit(q)
    ensures var scaled := Point(s.x * p.x, s.y * p.y, s.z * p.z);
            var turned := Product(Product(q, Pure(scaled)), Conjugate(q));
            && turned.w == 0.0
            && Apply(Local(WithParts(t, q, s)), p) == Point(turned.x + t.x, turned.y + t.y, turned.z + t.z)
  {
    TurnedIsRows(q, Point(s.x * p.x, s.y * p.y, s.z * p.z));
    ScaledX(t, q, s, p);
    ScaledY(t, q, s, p);
    ScaledZ(t, q, s, p);
  }

  lemma ScaledX(t: Point, q: Quaternion, s: Point, p: Point)
    ensures Apply(Local(WithParts(t, q, s)), p).x == Rows(q, Point(s.x * p.x, s.y * p.y, s.z * p.z)).x + t.x
  {
    var m := Local(WithParts(t, q, s));
    TurningPart(t, q, s);
    ScaledRow(s, p, XX(q.y, q.z), XY(q.x, q.y, q.z, q.w), XZ(q.x, q.y, q.z, q.w), m[0], m[4], m[8]);
  }

  lemma ScaledY(t: Point, q: Quaternion, s: Point, p: Point)
    ensures Apply(Local(WithParts(t, q, s)), p).y == Rows(q, Point(s.x * p.x, s.y * p.y, s.z * p.z)).y + t.y
  {
    var m := Local(WithParts(t, q, s));
    TurningPart(t, q, s);
    ScaledRow(s, p, XZ(q.y, q.z, q.x, q.w), XX(q.z, q.x), XY(q.y, q.z, q.x, q.w), m[1], m[5], m[9]);
  }

  lemma ScaledZ(t: Point, q: Quaternion, s: Point, p: Point)
    ensures Apply(Local(WithParts(t, q, s)), p).z == Rows(q, Point(s.x * p.x, s.y * p.y, s.z * p.z)).z + t.z
  {
    var m := Local(WithParts(t, q, s));
    TurningPart(t, q, s);
    ScaledRow(s, p, XY(q.z, q.x, q.y, q.w), XZ(q.z, q.x, q.y, q.w), XX(q.x, q.y), m[2], m[6], m[10]);
  }

  lemma TurningPart(t: Point, q: Quaternion, s: Point)
    ensures var m := Local(WithParts(t, q, s));
            && m[0] == XX(q.y, q.z) * s.x && m[4] == XY(q.x, q.y, q.z, q.w) * s.y && m[8] == XZ(q.x, q.y, q.z, q.w) * s.z
            && m[1] == XZ(q.y, q.z, q.x, q.w) * s.x && m[5] == XX(q.z, q.x) * s.y && m[9] == XY(q.y, q.z, q.x, q.w) * s.z
            && m[2] == XY(q.z, q.x, q.y, q.w) * s.x && m[6] == XZ(q.z, q.x, q.y, q.w) * s.y && m[10] == XX(q.x, q.y) * s.z
  {
  }

  /** One coordinate of a scaled and turned point from the entries of the matrix. */
  lemma ScaledRow(s: Point, p: Point, a: real, b: real, c: real, ma: real, mb: real, mc: real)
    requires ma == a * s.x && mb == b * s.y && mc == c * s.z
    ensures p.x * ma + p.y * mb + p.z * mc == a * (s.x * p.x) + b * (s.y * p.y) + c * (s.z * p.z)
  {
    Regroup(a, s.x, p.x);
    Regroup(b, s.y, p.y);
    Regroup(c, s.z, p.z);
  }

  lemma Regroup(c: real, s: real, p: real)
    ensures p * (c * s) == c * (s * p)
  {
  }

  lemma {:induction false} Distribute(a: real, b: real, c: real, d: real, x: real, y: real, z: real, p: real)
    ensures (x * a + y * b + z * c + d) * p == x * (a * p) + y * (b * p) + z * (c * p) + d * p
  {
    assert (x * a) * p == x * (a * p);
    assert (y * b) * p == y * (b * p);
    assert (z * c) * p == z * (c * p);
  }

  /** Transforming by an affine product is transforming by its factors one after the other. */
  lemma ApplyMul(a: Matrix, b: Matrix, p: Point)
    requires Affine(a)
    ensures Apply(Mul(a, b), p) == Apply(b, Apply(a, p))
  {
    forall j: nat | j < 3 ensures Coordinate(p, Mul(a, b), j) == Coordinate(Apply(a, p), b, j) {
      CoordinateMul(a, b, p, j);
      CoordinateTwice(a, b, p, j);
    }
  }

  /** A coordinate moved by both matrices, written out. */
  function Terms(a: Matrix, b: Matrix, p: Point, j: nat): real
    requires j < 3
  {
    (p.x * (a[0] * b[j]) + p.y * (a[4] * b[j]) + p.z * (a[8] * b[j]) + a[12] * b[j])
    + (p.x * (a[1] * b[4 + j]) + p.y * (a[5] * b[4 + j]) + p.z * (a[9] * b[4 + j]) + a[13] * b[4 + j])
    + (p.x * (a[2] * b[8 + j]) + p.y * (a[6] * b[8 + j]) + p.z * (a[10] * b[8 + j]) + a[14] * b[8 + j]) + b[12 + j]
  }

  lemma CoordinateMul(a: Matrix, b: Matrix, p: Point, j: nat)
    requires Affine(a) && j < 3
    ensures Coordinate(p, Mul(a, b), j) == Terms(a, b, p, j)
  {
    ColumnTerms(a, b, 0, j, p.x);
    ColumnTerms(a, b, 1, j, p.y);
    ColumnTerms(a, b, 2, j, p.z);
    EntryTerms(a, b, 3, j);
    var m := Mul(a, b);
    assert m[j] == Entry(a, b, 0, j) && m[4 + j] == Entry(a, b, 1, j) && m[8 + j] == Entry(a, b, 2, j) && m[12 + j] == Entry(a, b, 3, j);
  }

  lemma CoordinateTwice(a: Matrix, b: Matrix, p: Point, j: nat)
    requires j < 3
    ensures Coordinate(Apply(a, p), b, j) == Terms(a, b, p, j)
  {
    Distribute(a[0], a[4], a[8], a[12], p.x, p.y, p.z, b[j]);
    Distribute(a[1], a[5], a[9], a[13], p.x, p.y, p.z, b[4 + j]);
    Distribute(a[2], a[6], a[10], a[14], p.x, p.y, p.z, b[8 + j]);
  }

  lemma ColumnTerms(a: Matrix, b: Matrix, i: nat, j: nat, x: real)
    requires i < 3 && j < 3 && a[4 * i + 3] == 0.0
    ensures x * Entry(a, b, i, j) == x * (a[4 * i] * b[j]) + x * (a[4 * i + 1] * b[4 + j]) + x * (a[4 * i + 2] * b[8 + j])
  {
    EntryTerms(a, b, i, j);
    Spread(x, a[4 * i] * b[j], a[4 * i + 1] * b[4 + j], a[4 * i + 2] * b[8 + j]);
  }

  lemma Spread(x: real, u: real, v: real, w: real)
    ensures x * (u + v + w) == x * u + x * v + x * w
  {
  }

  /** The product of `acc` with the transforms of at most `k` further ancestors, nearest first. */
  ghost function Fold(locals: seq<Matrix>, parent: seq<int>, acc: Matrix, p: int, k: nat): Matrix
    requires Linked(parent) && |locals| == |parent| && -1 <= p < |parent|
    decreases k
  {
    if p == -1 || k == 0 then acc else Fold(locals, parent, Mul(acc, locals[p]), parent[p], k - 1)
  }

  /** A point of node `i` carried through the transforms of `i` and its ancestors, one at a time. */
  ghost function Carry(locals: seq<Matrix>, parent: seq<int>, i: int, p: Point, k: nat): Point
    requires Linked(parent) && |locals| == |parent| && -1 <= i < |parent|
    decreases k
  {
    if i == -1 || k == 0 then p else Carry(locals, parent, parent[i], Apply(locals[i], p), k - 1)
  }

  lemma MulAffine(a: Matrix, b: Matrix)
    requires Affine(a) && Affine(b)
    ensures Affine(Mul(a, b))
  {
    EntryTerms(a, b, 0, 3);
    EntryTerms(a, b, 1, 3);
    EntryTerms(a, b, 2, 3);
    EntryTerms(a, b, 3, 3);
    var m := Mul(a, b);
    assert m[3] == Entry(a, b, 0, 3) && m[7] == Entry(a, b, 1, 3) && m[11] == Entry(a, b, 2, 3) && m[15] == Entry(a, b, 3, 3);
  }

  /** The product of all transforms moves a point the way the transforms do one after the other. */
  lemma {:induction false} FoldMeaning(locals: seq<Matrix>, parent: seq<int>, acc: Matrix, p: int, k: nat, v: Point)
    requires Linked(parent) && |locals| == |parent| && -1 <= p < |parent| && AffineAbove(locals, parent, p) && Affine(acc)
    ensures Apply(Fold(locals, parent, acc, p, k), v) == Carry(locals, parent, p, Apply(acc, v), k)
    decreases k
  {
    if p != -1 && k > 0 {
      AffineUp(locals, parent, p);
      MulAffine(acc, locals[p]);
      ApplyMul(acc, locals[p], v);
      FoldMeaning(locals, parent, Mul(acc, locals[p]), parent[p], k - 1, v);
    }
  }

  /** Entry `k` after the three-column update of all rows. */
  function ThreeColumns(a: Matrix, b: Matrix, k: nat): real
    requires k < 16
  {
    var i, j := k / 4, k % 4;
    if j == 3 then a[k] else Dot(a, b, i, j, 3)
  }

  /** For affine matrices that update, with the translation added to the last row, is the full product. */
  lemma ShortcutIsProduct(a: Matrix, b: Matrix, k: nat)
    requires Affine(a) && Affine(b) && k < 16
    ensures Mul(a, b)[k] == ThreeColumns(a, b, k) + if 12 <= k < 15 then b[k] else 0.0
  {
    var i, j := k / 4, k % 4;
    assert Mul(a, b)[k] == Entry(a, b, i, j);
    EntryTerms(a, b, i, j);
    assert i == 0 || i == 1 || i == 2 || i == 3;
  }

  /** One round of the loop over the parents. */
  method MulInPlace(lm: array<real>, pm: Matrix)
    requires lm.Length == 16 && Affine(lm[..]) && Affine(pm)
    modifies lm
    ensures lm[..] == Mul(old(lm[..]), pm)
  {
    ghost var a: Matrix := lm[..];
    for i := 0 to 4
      invariant forall k | 4 * i <= k < 16 :: lm[k] == a[k]
      invariant forall k | 0 <= k < 4 * i :: lm[k] == ThreeColumns(a, pm, k)
    {
      UpdateRow(lm, pm, i, a);
    }
    lm[12], lm[13], lm[14] := lm[12] + pm[12], lm[13] + pm[13], lm[14] + pm[14];
    forall k | 0 <= k < 16 ensures lm[k] == Mul(a, pm)[k] { ShortcutIsProduct(a, pm, k); }
  }

  /** The three assignments to one row. */
  method UpdateRow(lm: array<real>, pm: Matrix, i: nat, ghost a: Matrix)
    requires lm.Length == 16 && i < 4 && forall k | 4 * i <= k < 4 * i + 4 :: lm[k] == a[k]
    modifies lm
    ensures lm[..] == old(lm[..])[4 * i := ThreeColumns(a, pm, 4 * i)][4 * i + 1 := ThreeColumns(a, pm, 4 * i + 1)][4 * i + 2 := ThreeColumns(a, pm, 4 * i + 2)]
  {
    var r := i * 4;
    var l0, l1, l2 := lm[r], lm[r + 1], lm[r + 2];
    ColumnValue(a, pm, i, 0, l0, l1, l2);
    ColumnValue(a, pm, i, 1, l0, l1, l2);
    ColumnValue(a, pm, i, 2, l0, l1, l2);
    var x := l0 * pm[0] + l1 * pm[4] + l2 * pm[8];
    var y := l0 * pm[1] + l1 * pm[5] + l2 * pm[9];
    var z := l0 * pm[2] + l1 * pm[6] + l2 * pm[10];
    assert x == ThreeColumns(a, pm, 4 * i);
    assert y == ThreeColumns(a, pm, 4 * i + 1);
    assert z == ThreeColumns(a, pm, 4 * i + 2);
    StoreRow(lm, r, x, y, z);
  }

  lemma ColumnValue(a: Matrix, b: Matrix, i: nat, j: nat, l0: real, l1: real, l2: real)
    requires i < 4 && j < 3 && l0 == a[4 * i] && l1 == a[4 * i + 1] && l2 == a[4 * i + 2]
    ensures l0 * b[j] + l1 * b[j + 4] + l2 * b[j + 8] == ThreeColumns(a, b, 4 * i + j)
  {
    ThreeTerms(a, b, i, j);
  }

  method StoreRow(lm: array<real>, r: nat, x: real, y: real, z: real)
    requires r + 2 < lm.Length
    modifies lm
    ensures lm[..] == old(lm[..])[r := x][r + 1 := y][r + 2 := z]
  {
    lm[r], lm[r + 1], lm[r + 2] := x, y, z;
  }

  /**
   `cgltf_node_transform_world`, safe to run once validation has succeeded: the loop over the parents
   ends and the result is the product of the local transforms up to the root.
   The nodes enter through their local matrices (`Local`).
   */
  method TransformWorld(locals: seq<Matrix>, parent: array<int>, start: nat, lm: array<real>) returns (ghost depth: nat)
    requires Linked(parent[..]) && |locals| == parent.Length && start < |locals| && AffineAbove(locals, parent[..], start) && lm.Length == 16
    requires ReachesNull(parent[..], start)
    modifies lm
    ensures depth >= 1 && Up(parent[..], start, depth) == -1 && (forall k: nat | k < depth :: Up(parent[..], start, k) != -1)
    ensures lm[..] == Fold(locals, parent[..], locals[start], parent[start], depth - 1)
  {
    ghost var ps := parent[..];
    AffineUp(locals, ps, start);
    depth := FirstNull(ps, start);
    var local := locals[start];
    forall k | 0 <= k < 16 {
      lm[k] := local[k];
    }
    assert lm[..] == local;
    var p := parent[start];
    ghost var left: nat := depth - 1;
    while p != -1
      invariant -1 <= p < |locals| && Affine(lm[..]) && parent[..] == ps && AffineAbove(locals, ps, p)
      invariant Up(ps, p, left) == -1
      invariant Fold(locals, ps, local, ps[start], depth - 1) == Fold(locals, ps, lm[..], p, left)
      decreases left
    {
      ghost var m: Matrix := lm[..];
      AffineUp(locals, ps, p);
      MulAffine(m, locals[p]);
      MulInPlace(lm, locals[p]);
      p := parent[p];
      left := left - 1;
    }
  }

  /** Hence the world matrix moves every point of a node the way the transforms up to the root do. */
  lemma WorldMeaning(locals: seq<Matrix>, parent: seq<int>, start: nat, depth: nat, v: Point)
    requires Linked(parent) && |locals| == |parent| && start < |parent| && AffineAbove(locals, parent, start) && depth >= 1
    ensures Apply(Fold(locals, parent, locals[start], parent[start], depth - 1), v) == Carry(locals, parent, start, v, depth)
  {
    AffineUp(locals, parent, start);
    FoldMeaning(locals, parent, locals[start], parent[start], depth - 1, v);
  }

  /** The length of a chain that ends. */
  lemma FirstNull(parent: seq<int>, i: int) returns (k: nat)
    requires Linked(parent) && 0 <= i < |parent| && ReachesNull(parent, i)
    ensures k >= 1 && Up(parent, i, k) == -1 && forall m: nat | m < k :: Up(parent, i, m) != -1
  {
    var bound: nat :| Up(parent, i, bound) == -1;
    k := 0;
    while Up(parent, i, k) != -1
      invariant k <= bound && forall m: nat | m < k :: Up(parent, i, m) != -1
      decreases bound - k
    {
      k := k + 1;
    }
  }
}
