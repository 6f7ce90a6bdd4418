/**
 The squarified treemap: items are laid out group by group along the shorter side, and the groups
 partition the bounds exactly. Coordinates and sizes are reals.
 */
module Treemap {

  import opened Common

  datatype Rect = Rect(x: real, y: real, w: real, h: real)
  datatype Item<T> = Item(value: real, userData: Option<T>, rect: Rect)

  /** Rows and columns hold at most this many rectangles. */
  const ROW_MAX := 32
  /** What the ratio of a longer row is taken to be. */
  const HUGE_RATIO := 1000000000.0

  // ---------------------------------------------------------------- sums

  function Sum(s: seq<real>, n: nat): real
    requires n <= |s|
  {
    if n == 0 then 0.0 else Sum(s, n - 1) + s[n - 1]
  }

  ghost predicate Positive(s: seq<real>) {
    forall i | 0 <= i < |s| :: s[i] > 0.0
  }

  /** The sizes are positive and add up to the area; nothing is asked when there is no item. */
  ghost predicate Fills(s: seq<real>, dx: real, dy: real) {
    s != [] ==> Positive(s) && dx > 0.0 && dy > 0.0 && Sum(s, |s|) == dx * dy
  }

  lemma {:induction false} SumPositive(s: seq<real>, n: nat)
    requires Positive(s) && 0 < n <= |s|
    ensures Sum(s, n) > 0.0
  {
    if n > 1 { SumPositive(s, n - 1); }
  }

  lemma {:induction false} SumSplit(s: seq<real>, g: nat, n: nat)
    requires g + n <= |s|
    ensures Sum(s, g + n) == Sum(s, g) + Sum(s[g..], n)
    decreases n
  {
    if n > 0 { SumSplit(s, g, n - 1); }
  }

  lemma {:induction false} SumSame(s: seq<real>, t: seq<real>, n: nat)
    requires n <= |s| && n <= |t| && forall i | 0 <= i < n :: s[i] == t[i]
    ensures Sum(s, n) == Sum(t, n)
  {
    if n > 0 { SumSame(s, t, n - 1); }
  }

  lemma {:induction false} SumScaled(s: seq<real>, t: seq<real>, n: nat, f: real)
    requires n <= |s| == |t| && forall i | 0 <= i < n :: t[i] == s[i] * f
    ensures Sum(t, n) == Sum(s, n) * f
  {
    if n > 0 { SumScaled(s, t, n - 1, f); }
  }

  method Covered(sizes: seq<real>, n: nat) returns (total: real)
    requires n <= |sizes|
    ensures total == Sum(sizes, n)
  {
    total := 0.0;
    for i := 0 to n
      invariant total == Sum(sizes, i)
    {
      total := total + sizes[i];
    }
  }

  /** Scales the sizes so that they fill a `w` by `h` rectangle. */
  method NormalizeSizes(sizes: array<real>, w: real, h: real) returns (total: real)
    requires Positive(sizes[..]) && w > 0.0 && h > 0.0
    modifies sizes
    ensures Fills(sizes[..], w, h)
    ensures sizes.Length > 0 ==> total > 0.0 && Proportional(old(sizes[..]), sizes[..], w * h / total)
  {
    ghost var before := sizes[..];
    total := Covered(sizes[..], sizes.Length);
    if sizes.Length == 0 { return; }
    SumPositive(before, |before|);
    var area := w * h;
    ProductPositive(w, h);
    ScaleAll(sizes, area, total);
    Scaled(before, sizes[..], area, total);
  }

  method ScaleAll(sizes: array<real>, area: real, total: real)
    requires total != 0.0
    modifies sizes
    ensures Proportional(old(sizes[..]), sizes[..], area / total)
  {
    ghost var before := sizes[..];
    ghost var f := area / total;
    for i := 0 to sizes.Length
      invariant forall k | 0 <= k < i :: sizes[k] == before[k] * f
      invariant forall k | i <= k < sizes.Length :: sizes[k] == before[k]
    {
      ScaleOne(sizes[i], area, total, f);
      sizes[i] := sizes[i] * area / total;
    }
  }

  lemma ScaleOne(v: real, area: real, total: real, f: real)
    requires total != 0.0 && f == area / total
    ensures v * area / total == v * f
  {
  }

  /** Every size has been multiplied by the same factor. */
  ghost predicate Proportional(s: seq<real>, t: seq<real>, f: real) {
    |s| == |t| && forall i | 0 <= i < |s| :: t[i] == s[i] * f
  }

  lemma Scaled(s: seq<real>, t: seq<real>, area: real, total: real)
    requires Positive(s) && s != [] && area > 0.0 && total == Sum(s, |s|) > 0.0
    requires Proportional(s, t, area / total)
    ensures Positive(t) && Sum(t, |t|) == area
  {
    Quotient(area, total);
    SumScaled(s, t, |s|, area / total);
    forall i | 0 <= i < |t| ensures t[i] > 0.0 { ProductPositive(s[i], area / total); }
  }

  lemma ProductPositive(a: real, b: real)
    requires a > 0.0 && b > 0.0
    ensures a * b > 0.0
  {
  }

  // ---------------------------------------------------------------- one row or column

  /** How far along the strip item `i` starts, when the strip is `thick` across. */
  function Offset(s: seq<real>, thick: real, i: nat): real
    requires i <= |s| && thick > 0.0
  {
    if i == 0 then 0.0 else Offset(s, thick, i - 1) + s[i - 1] / thick
  }

  /** The thickness of a strip of the first `n` items across a side. */
  function Thick(s: seq<real>, n: nat, side: real): (t: real)
    requires 0 < n <= |s| && Positive(s) && side > 0.0
    ensures t > 0.0 && t * side == Sum(s, n)
  {
    SumPositive(s, n);
    Quotient(Sum(s, n), side);
    Sum(s, n) / side
  }

  lemma Quotient(a: real, b: real)
    requires b > 0.0
    ensures (a / b) * b == a && b * (a / b) == a
    ensures a > 0.0 ==> a / b > 0.0
  {
  }

  /** Item `i` of a strip: a row runs down the left side, a column along the top. */
  function StripRect(s: seq<real>, n: nat, x: real, y: real, dx: real, dy: real, i: nat): Rect
    requires 0 < n <= |s| && i < n && Positive(s) && dx > 0.0 && dy > 0.0
  {
    if dx >= dy then
      var t := Thick(s, n, dy);
      Rect(x, y + Offset(s, t, i), t, s[i] / t)
    else
      var t := Thick(s, n, dx);
      Rect(x + Offset(s, t, i), y, s[i] / t, t)
  }

  function Strip(s: seq<real>, n: nat, x: real, y: real, dx: real, dy: real): (r: seq<Rect>)
    requires 0 < n <= |s| && Positive(s) && dx > 0.0 && dy > 0.0
    ensures |r| == n
  {
    seq(n, i requires 0 <= i < n => StripRect(s, n, x, y, dx, dy, i))
  }

  method LayoutRow(sizes: seq<real>, n: nat, x: real, y: real, dx: real, dy: real, outRects: array<Rect>)
    requires 0 < n <= |sizes| && n <= outRects.Length && Positive(sizes) && dx >= dy > 0.0
    modifies outRects
    ensures outRects[..n] == Strip(sizes, n, x, y, dx, dy)
  {
    var coveredArea := Covered(sizes, n);
    var width := coveredArea / dy;
    assert width == Thick(sizes, n, dy);
    var yoff := y;
    for i := 0 to n
      invariant yoff == y + Offset(sizes, width, i)
      invariant forall k | 0 <= k < i :: outRects[k] == StripRect(sizes, n, x, y, dx, dy, k)
    {
      var h := sizes[i] / width;
      outRects[i] := Rect(x, yoff, width, h);
      yoff := yoff + h;
    }
  }

  method LayoutColumn(sizes: seq<real>, n: nat, x: real, y: real, dx: real, dy: real, outRects: array<Rect>)
    requires 0 < n <= |sizes| && n <= outRects.Length && Positive(sizes) && 0.0 < dx < dy
    modifies outRects
    ensures outRects[..n] == Strip(sizes, n, x, y, dx, dy)
  {
    var coveredArea := Covered(sizes, n);
    var height := coveredArea / dx;
    assert height == Thick(sizes, n, dx);
    var xoff := x;
    for i := 0 to n
      invariant xoff == x + Offset(sizes, height, i)
      invariant forall k | 0 <= k < i :: outRects[k] == StripRect(sizes, n, x, y, dx, dy, k)
    {
      var w := sizes[i] / height;
      outRects[i] := Rect(xoff, y, w, height);
      xoff := xoff + w;
    }
  }

  method Layout(sizes: seq<real>, n: nat, x: real, y: real, dx: real, dy: real, outRects: array<Rect>)
    requires 0 < n <= |sizes| && n <= outRects.Length && Positive(sizes) && dx > 0.0 && dy > 0.0
    modifies outRects
    ensures outRects[..n] == Strip(sizes, n, x, y, dx, dy)
  {
    if dx >= dy {
      LayoutRow(sizes, n, x, y, dx, dy, outRects);
    } else {
      LayoutColumn(sizes, n, x, y, dx, dy, outRects);
    }
  }

  /** What remains of the bounds beside a strip of the first `n` items. */
  function Rest(s: seq<real>, n: nat, x: real, y: real, dx: real, dy: real): Rect
    requires 0 < n <= |s| && Positive(s) && dx > 0.0 && dy > 0.0
  {
    if dx >= dy then
      var t := Thick(s, n, dy);
      Rect(x + t, y, dx - t, dy)
    else
      var t := Thick(s, n, dx);
      Rect(x, y + t, dx, dy - t)
  }

  method Leftover(sizes: seq<real>, n: nat, x: real, y: real, dx: real, dy: real) returns (ox: real, oy: real, odx: real, ody: real)
    requires 0 < n <= |sizes| && Positive(sizes) && dx > 0.0 && dy > 0.0
    ensures Rect(ox, oy, odx, ody) == Rest(sizes, n, x, y, dx, dy)
  {
    var coveredArea := Covered(sizes, n);
    if dx >= dy {
      var width := coveredArea / dy;
      assert width == Thick(sizes, n, dy);
      ox, oy, odx, ody := x + width, y, dx - width, dy;
    } else {
      var height := coveredArea / dx;
      assert height == Thick(sizes, n, dx);
      ox, oy, odx, ody := x, y + height, dx, dy - height;
    }
  }

  // ---------------------------------------------------------------- the size of a group

  function Ratio(r: Rect): real
    requires r.w > 0.0 && r.h > 0.0
  {
    if r.w > r.h then r.w / r.h else r.h / r.w
  }

  ghost predicate Sized(rects: seq<Rect>) {
    forall i | 0 <= i < |rects| :: rects[i].w > 0.0 && rects[i].h > 0.0
  }

  /** `v` is the largest ratio of some rectangles. */
  ghost predicate IsWorst(rects: seq<Rect>, v: real)
    requires Sized(rects)
  {
    && (forall i | 0 <= i < |rects| :: Ratio(rects[i]) <= v)
    && (exists i :: 0 <= i < |rects| && Ratio(rects[i]) == v)
  }

  function WorstOf(rects: seq<Rect>): (v: real)
    requires |rects| > 0 && Sized(rects)
    ensures IsWorst(rects, v)
  {
    var last := Ratio(rects[|rects| - 1]);
    if |rects| == 1 then
      assert Ratio(rects[0]) == last;
      last
    else
      assert Sized(rects[..|rects| - 1]);
      var v := WorstOf(rects[..|rects| - 1]);
      WorstStep(rects, v);
      if last > v then last else v
  }

  lemma WorstStep(rects: seq<Rect>, v: real)
    requires |rects| > 1 && Sized(rects) && Sized(rects[..|rects| - 1]) && IsWorst(rects[..|rects| - 1], v)
    ensures IsWorst(rects, if Ratio(rects[|rects| - 1]) > v then Ratio(rects[|rects| - 1]) else v)
  {
    var front := rects[..|rects| - 1];
    var i :| 0 <= i < |front| && Ratio(front[i]) == v;
    assert Ratio(rects[i]) == v;
    forall k | 0 <= k < |front| ensures Ratio(rects[k]) <= v { assert rects[k] == front[k]; }
  }

  lemma StripSized(s: seq<real>, n: nat, x: real, y: real, dx: real, dy: real)
    requires 0 < n <= |s| && Positive(s) && dx > 0.0 && dy > 0.0
    ensures Sized(Strip(s, n, x, y, dx, dy))
  {
    forall i | 0 <= i < n ensures StripRect(s, n, x, y, dx, dy, i).w > 0.0 && StripRect(s, n, x, y, dx, dy, i).h > 0.0 {
      Quotient(s[i], Thick(s, n, if dx >= dy then dy else dx));
    }
  }

  /** The worst aspect ratio of the first `n` items laid out as one strip. */
  function WorstRatio(s: seq<real>, n: nat, x: real, y: real, dx: real, dy: real): real
    requires 0 < n <= |s| && Positive(s) && dx > 0.0 && dy > 0.0
  {
    StripSized(s, n, x, y, dx, dy);
    if n > ROW_MAX then HUGE_RATIO else WorstOf(Strip(s, n, x, y, dx, dy))
  }

  /** The worst ratio of a strip is that of one of its rectangles. */
  lemma WorstIs(s: seq<real>, n: nat, x: real, y: real, dx: real, dy: real) returns (i: nat)
    requires 0 < n <= |s| && n <= ROW_MAX && Positive(s) && dx > 0.0 && dy > 0.0
    ensures i < n
    ensures var r := StripRect(s, n, x, y, dx, dy, i); r.w > 0.0 && r.h > 0.0 && Ratio(r) == WorstRatio(s, n, x, y, dx, dy)
  {
    StripSized(s, n, x, y, dx, dy);
    var strip := Strip(s, n, x, y, dx, dy);
    i :| 0 <= i < |strip| && Ratio(strip[i]) == WorstOf(strip);
  }

  method ComputeWorstRatio(sizes: seq<real>, n: nat, x: real, y: real, dx: real, dy: real) returns (worst: real)
    requires 0 < n <= |sizes| && Positive(sizes) && dx > 0.0 && dy > 0.0
    ensures worst == WorstRatio(sizes, n, x, y, dx, dy)
  {
    if n > ROW_MAX { return HUGE_RATIO; }
    var rects := new Rect[ROW_MAX];
    Layout(sizes, n, x, y, dx, dy, rects);
    StripSized(sizes, n, x, y, dx, dy);
    worst := LargestRatio(rects, n);
  }

  method LargestRatio(rects: array<Rect>, n: nat) returns (worst: real)
    requires 0 < n <= rects.Length && Sized(rects[..n])
    ensures worst == WorstOf(rects[..n])
  {
    worst := 0.0;
    for i := 0 to n
      invariant if i == 0 then worst == 0.0 else Sized(rects[..i]) && worst == WorstOf(rects[..i])
    {
      var r := rects[i];
      assert r == rects[..n][i];
      var ratio := if r.w > r.h then r.w / r.h else r.h / r.w;
      RatioPositive(r);
      assert rects[..i + 1][..i] == rects[..i];
      assert Sized(rects[..i + 1]) by { forall k | 0 <= k < i + 1 ensures rects[k].w > 0.0 && rects[k].h > 0.0 { assert rects[k] == rects[..n][k]; } }
      if ratio > worst { worst := ratio; }
    }
  }

  lemma RatioPositive(r: Rect)
    requires r.w > 0.0 && r.h > 0.0
    ensures Ratio(r) > 0.0
  {
    Quotient(r.w, r.h);
    Quotient(r.h, r.w);
  }

  /** Adding items beyond the first `i` as long as the worst ratio does not grow. */
  function GroupFrom(s: seq<real>, i: nat, x: real, y: real, dx: real, dy: real): (g: nat)
    requires 0 < i <= |s| && Positive(s) && dx > 0.0 && dy > 0.0
    ensures i <= g <= |s|
    ensures forall k | i <= k < g :: WorstRatio(s, k, x, y, dx, dy) >= WorstRatio(s, k + 1, x, y, dx, dy)
    ensures g < |s| ==> WorstRatio(s, g, x, y, dx, dy) < WorstRatio(s, g + 1, x, y, dx, dy)
    decreases |s| - i
  {
    if i < |s| && WorstRatio(s, i, x, y, dx, dy) >= WorstRatio(s, i + 1, x, y, dx, dy) then
      GroupFrom(s, i + 1, x, y, dx, dy)
    else i
  }

  function Group(s: seq<real>, x: real, y: real, dx: real, dy: real): (g: nat)
    requires s != [] && Positive(s) && dx > 0.0 && dy > 0.0
    ensures 1 <= g <= |s|
  {
    GroupFrom(s, 1, x, y, dx, dy)
  }

  /**
   From these items on there are more than 32, the ratio never grows up to 32 items, and 32 items have a
   ratio of at least one in 10^9.
   */
  ghost predicate LongStart(s: seq<real>, x: real, y: real, dx: real, dy: real) {
    && |s| > ROW_MAX && Positive(s) && dx > 0.0 && dy > 0.0
    && WorstRatio(s, ROW_MAX, x, y, dx, dy) >= HUGE_RATIO
    && forall k | 1 <= k < ROW_MAX :: WorstRatio(s, k, x, y, dx, dy) >= WorstRatio(s, k + 1, x, y, dx, dy)
  }

  /** A group outgrows the 32 rectangles it has room for exactly at such a start; it then takes all remaining items. */
  lemma GroupTooLong(s: seq<real>, x: real, y: real, dx: real, dy: real)
    requires s != [] && Positive(s) && dx > 0.0 && dy > 0.0
    ensures Group(s, x, y, dx, dy) > ROW_MAX <==> LongStart(s, x, y, dx, dy)
    ensures Group(s, x, y, dx, dy) > ROW_MAX ==> Group(s, x, y, dx, dy) == |s|
  {
    var g := Group(s, x, y, dx, dy);
    if g > ROW_MAX {
      assert WorstRatio(s, ROW_MAX, x, y, dx, dy) >= WorstRatio(s, ROW_MAX + 1, x, y, dx, dy);
    } else if |s| > ROW_MAX {
      assert WorstRatio(s, g, x, y, dx, dy) < WorstRatio(s, g + 1, x, y, dx, dy);
    }
  }

  // ---------------------------------------------------------------- all groups

  lemma RestFills(s: seq<real>, g: nat, x: real, y: real, dx: real, dy: real)
    requires s != [] && Fills(s, dx, dy) && 0 < g <= |s|
    ensures var r := Rest(s, g, x, y, dx, dy); Fills(s[g..], r.w, r.h)
    ensures dx >= dy ==> Thick(s, g, dy) <= dx
    ensures dx < dy ==> Thick(s, g, dx) <= dy
  {
    SumSplit(s, g, |s| - g);
    assert g + (|s| - g) == |s|;
    if g < |s| { SumPositive(s[g..], |s| - g); }
    if dx >= dy {
      Remainder(Thick(s, g, dy), dy, dx, Sum(s, g), Sum(s[g..], |s| - g));
    } else {
      Remainder(Thick(s, g, dx), dx, dy, Sum(s, g), Sum(s[g..], |s| - g));
    }
  }

  lemma Remainder(t: real, side: real, other: real, c: real, rest: real)
    requires side > 0.0 && t * side == c && rest >= 0.0 && other * side == c + rest
    ensures (other - t) * side == rest && side * (other - t) == rest
    ensures t <= other && (rest > 0.0 ==> t < other)
  {
  }

  /** The rectangles of all items, group by group. */
  function Tiles(s: seq<real>, x: real, y: real, dx: real, dy: real): (r: seq<Rect>)
    requires Fills(s, dx, dy)
    ensures |r| == |s|
    decreases |s|
  {
    if s == [] then []
    else if |s| == 1 then [Rect(x, y, dx, dy)]
    else
      var g := Group(s, x, y, dx, dy);
      var rest := Rest(s, g, x, y, dx, dy);
      RestFills(s, g, x, y, dx, dy);
      Strip(s, g, x, y, dx, dy) + Tiles(s[g..], rest.x, rest.y, rest.w, rest.h)
  }

  /** No group outgrows the fixed number of rectangles. */
  ghost predicate GroupsFit(s: seq<real>, x: real, y: real, dx: real, dy: real)
    requires Fills(s, dx, dy)
    decreases |s|
  {
    |s| > 1 ==>
      var g := Group(s, x, y, dx, dy);
      var rest := Rest(s, g, x, y, dx, dy);
      RestFills(s, g, x, y, dx, dy);
      g <= ROW_MAX && GroupsFit(s[g..], rest.x, rest.y, rest.w, rest.h)
  }

  lemma {:induction false} FewItemsFit(s: seq<real>, x: real, y: real, dx: real, dy: real)
    requires Fills(s, dx, dy) && |s| <= ROW_MAX
    ensures GroupsFit(s, x, y, dx, dy)
    decreases |s|
  {
    if |s| > 1 {
      var g := Group(s, x, y, dx, dy);
      var rest := Rest(s, g, x, y, dx, dy);
      RestFills(s, g, x, y, dx, dy);
      FewItemsFit(s[g..], rest.x, rest.y, rest.w, rest.h);
    }
  }

  /** The run places a group in rectangle `r` that starts with item `k`. */
  ghost predicate Reached(s: seq<real>, x: real, y: real, dx: real, dy: real, k: nat, r: Rect)
    requires Fills(s, dx, dy)
    decreases |s|
  {
    || (k == 0 && r == Rect(x, y, dx, dy))
    || (|s| > 1
        && var g := Group(s, x, y, dx, dy);
        var rest := Rest(s, g, x, y, dx, dy);
        RestFills(s, g, x, y, dx, dy);
        k >= g && Reached(s[g..], rest.x, rest.y, rest.w, rest.h, k - g, r))
  }

  /** The starts beyond the first group are those of the run over the rest. */
  lemma ReachedLater(s: seq<real>, x: real, y: real, dx: real, dy: real, g: nat, rest: Rect, k: nat, r: Rect)
    requires |s| > 1 && Fills(s, dx, dy) && g == Group(s, x, y, dx, dy) && rest == Rest(s, g, x, y, dx, dy)
    ensures Fills(s[g..], rest.w, rest.h)
    ensures Reached(s, x, y, dx, dy, g + k, r) <==> Reached(s[g..], rest.x, rest.y, rest.w, rest.h, k, r)
  {
    RestFills(s, g, x, y, dx, dy);
  }

  lemma ReachedFirst(s: seq<real>, x: real, y: real, dx: real, dy: real, k: nat, r: Rect)
    requires |s| > 1 && Fills(s, dx, dy) && k < Group(s, x, y, dx, dy)
    ensures Reached(s, x, y, dx, dy, k, r) <==> k == 0 && r == Rect(x, y, dx, dy)
  {
  }

  /** A start that the run reaches and that is a long one. */
  ghost predicate LongAt(s: seq<real>, x: real, y: real, dx: real, dy: real, k: nat, r: Rect)
    requires Fills(s, dx, dy)
  {
    k < |s| && Reached(s, x, y, dx, dy, k, r) && LongStart(s[k..], r.x, r.y, r.w, r.h)
  }

  lemma LongLater(s: seq<real>, x: real, y: real, dx: real, dy: real, g: nat, rest: Rect, k: nat, r: Rect)
    requires |s| > 1 && Fills(s, dx, dy) && g == Group(s, x, y, dx, dy) && rest == Rest(s, g, x, y, dx, dy)
    ensures Fills(s[g..], rest.w, rest.h)
    ensures LongAt(s, x, y, dx, dy, g + k, r) <==> LongAt(s[g..], rest.x, rest.y, rest.w, rest.h, k, r)
  {
    ReachedLater(s, x, y, dx, dy, g, rest, k, r);
    if g + k < |s| { assert s[g..][k..] == s[g + k..]; }
  }

  lemma LongFirst(s: seq<real>, x: real, y: real, dx: real, dy: real, k: nat, r: Rect)
    requires |s| > 1 && Fills(s, dx, dy) && k < Group(s, x, y, dx, dy)
    ensures LongAt(s, x, y, dx, dy, k, r) <==> k == 0 && r == Rect(x, y, dx, dy) && Group(s, x, y, dx, dy) > ROW_MAX
  {
    ReachedFirst(s, x, y, dx, dy, k, r);
    GroupTooLong(s, x, y, dx, dy);
    assert s[0..] == s;
  }

  /** The run reaches a long start. */
  ghost predicate ReachesLong(s: seq<real>, x: real, y: real, dx: real, dy: real)
    requires Fills(s, dx, dy)
  {
    exists k: nat, r :: LongAt(s, x, y, dx, dy, k, r)
  }

  /** It does so with its first group or in the rest. */
  lemma ReachesStep(s: seq<real>, x: real, y: real, dx: real, dy: real) returns (g: nat, rest: Rect)
    requires |s| > 1 && Fills(s, dx, dy)
    ensures 0 < g <= |s| && Fills(s[g..], rest.w, rest.h)
    ensures GroupsFit(s, x, y, dx, dy) <==> g <= ROW_MAX && GroupsFit(s[g..], rest.x, rest.y, rest.w, rest.h)
    ensures ReachesLong(s, x, y, dx, dy) <==> g > ROW_MAX || ReachesLong(s[g..], rest.x, rest.y, rest.w, rest.h)
  {
    g := Group(s, x, y, dx, dy);
    rest := Rest(s, g, x, y, dx, dy);
    GroupStep(s, x, y, dx, dy, g, rest);
    LongFirst(s, x, y, dx, dy, 0, Rect(x, y, dx, dy));
    if k: nat, r :| LongAt(s, x, y, dx, dy, k, r) {
      if k < g { LongFirst(s, x, y, dx, dy, k, r); } else { LongLater(s, x, y, dx, dy, g, rest, k - g, r); }
    }
    if k: nat, r :| LongAt(s[g..], rest.x, rest.y, rest.w, rest.h, k, r) {
      LongLater(s, x, y, dx, dy, g, rest, k, r);
    }
  }

  /** A whole run outgrows its room exactly when it reaches a long start. */
  lemma {:induction false} RunTooLong(s: seq<real>, x: real, y: real, dx: real, dy: real)
    requires Fills(s, dx, dy)
    ensures !GroupsFit(s, x, y, dx, dy) <==> ReachesLong(s, x, y, dx, dy)
    decreases |s|
  {
    if |s| > 1 {
      var g, rest := ReachesStep(s, x, y, dx, dy);
      RunTooLong(s[g..], rest.x, rest.y, rest.w, rest.h);
    }
  }

  // ---------------------------------------------------------------- when groups are short enough

  lemma CancelLess(a: real, b: real, c: real)
    requires c > 0.0
    ensures a * c < b * c ==> a < b
    ensures a * c <= b * c ==> a <= b
  {
    assert (b - a) * c == b * c - a * c;
  }

  /** The ratio of a rectangle of area `v` with sides up to `side`. */
  lemma RatioBelow(w: real, h: real, v: real, side: real)
    requires 0.0 < w <= side && 0.0 < h <= side && w * h == v && v * HUGE_RATIO > side * side
    ensures w / h < HUGE_RATIO
  {
    var q := w / h;
    Quotient(w, h);
    ProductPositive(w, h);
    assert q * v == (q * h) * w;
    SquareBelow(w, side);
    CancelLess(q, HUGE_RATIO, v);
  }

  lemma SquareBelow(a: real, b: real)
    requires 0.0 <= a <= b
    ensures a * a <= b * b
  {
    assert a * a <= a * b <= b * b;
  }

  /** An item is no longer than the strip it lies in. */
  lemma ItemLength(s: seq<real>, n: nat, side: real, i: nat)
    requires i < n <= |s| && Positive(s) && side > 0.0
    ensures var t := Thick(s, n, side); 0.0 < s[i] / t <= side && (s[i] / t) * t == s[i] == t * (s[i] / t)
  {
    var t := Thick(s, n, side);
    Quotient(s[i], t);
    OffsetEnd(s, n, side);
    OffsetMonotone(s, t, 0, i);
    OffsetMonotone(s, t, i + 1, n);
  }

  /** Sides of a tile of the first strip. */
  lemma StripSides(s: seq<real>, n: nat, x: real, y: real, dx: real, dy: real, i: nat)
    requires s != [] && Fills(s, dx, dy) && i < n <= |s|
    ensures var r := StripRect(s, n, x, y, dx, dy, i); 0.0 < r.w <= dx && 0.0 < r.h <= dy && r.w * r.h == s[i]
  {
    RestFills(s, n, x, y, dx, dy);
    if dx >= dy { ItemLength(s, n, dy, i); } else { ItemLength(s, n, dx, i); }
  }

  lemma LargeItemRatio(s: seq<real>, n: nat, x: real, y: real, dx: real, dy: real, side: real, i: nat)
    requires s != [] && Fills(s, dx, dy) && dx <= side && dy <= side && i < n <= |s| && s[i] * HUGE_RATIO > side * side
    ensures var r := StripRect(s, n, x, y, dx, dy, i); r.w > 0.0 && r.h > 0.0 && Ratio(r) < HUGE_RATIO
  {
    StripSides(s, n, x, y, dx, dy, i);
    WorseBelow(StripRect(s, n, x, y, dx, dy, i), s[i], side);
  }

  lemma WorseBelow(r: Rect, v: real, side: real)
    requires 0.0 < r.w <= side && 0.0 < r.h <= side && r.w * r.h == v && v * HUGE_RATIO > side * side
    ensures Ratio(r) < HUGE_RATIO
  {
    if r.w > r.h { RatioBelow(r.w, r.h, v, side); } else { RatioBelow(r.h, r.w, v, side); }
  }

  /** 32 items that are large enough for the bounds never have a ratio of one in 10^9. */
  lemma LargeItemsMild(s: seq<real>, x: real, y: real, dx: real, dy: real, side: real)
    requires s != [] && Fills(s, dx, dy) && dx <= side && dy <= side
    requires forall i | 0 <= i < |s| :: s[i] * HUGE_RATIO > side * side
    ensures !LongStart(s, x, y, dx, dy)
  {
    if |s| > ROW_MAX {
      var i := WorstIs(s, ROW_MAX, x, y, dx, dy);
      LargeItemRatio(s, ROW_MAX, x, y, dx, dy, side, i);
    }
  }

  /**
   A condition on the input alone: when no item is smaller than a 10^9th of the square of the longer side, no group
   of the run outgrows its room.
   */
  lemma {:induction false} LargeItemsFit(s: seq<real>, x: real, y: real, dx: real, dy: real, side: real)
    requires Fills(s, dx, dy) && dx <= side && dy <= side
    requires forall i | 0 <= i < |s| :: s[i] * HUGE_RATIO > side * side
    ensures GroupsFit(s, x, y, dx, dy)
    decreases |s|
  {
    if |s| > 1 {
      var g := Group(s, x, y, dx, dy);
      var rest := Rest(s, g, x, y, dx, dy);
      RestFills(s, g, x, y, dx, dy);
      GroupTooLong(s, x, y, dx, dy);
      LargeItemsMild(s, x, y, dx, dy, side);
      LargeItemsFit(s[g..], rest.x, rest.y, rest.w, rest.h, side);
    }
  }

  // ---------------------------------------------------------------- an input whose group is too long

  /** 33 items of one half and one that fills the rest of a square of a million by a million. */
  function Crumbs(): (s: seq<real>) {
    seq(34, i => if i < 33 then 0.5 else 999999999983.5)
  }

  const MILLION := 1000000.0

  lemma {:induction false} CrumbSum(n: nat)
    requires n <= 33
    ensures Sum(Crumbs(), n) == 0.5 * n as real
  {
    if n > 0 { CrumbSum(n - 1); }
  }

  lemma CrumbsFill()
    ensures Fills(Crumbs(), MILLION, MILLION)
  {
    CrumbSum(33);
    assert Sum(Crumbs(), 34) == Sum(Crumbs(), 33) + Crumbs()[33];
  }

  /** The ratio of a strip of `n` crumbs. */
  function CrumbWorst(n: nat): real
    requires n > 0
  {
    2000000000000.0 / (n as real * n as real)
  }

  lemma CrumbRect(n: nat, i: nat)
    requires i < n <= ROW_MAX
    ensures Fills(Crumbs(), MILLION, MILLION)
    ensures var r := StripRect(Crumbs(), n, 0.0, 0.0, MILLION, MILLION, i); r.w > 0.0 && r.h > 0.0 && Ratio(r) == CrumbWorst(n)
  {
    CrumbsFill();
    CrumbSum(n);
    var t := Thick(Crumbs(), n, MILLION);
    Quotient(0.5, t);
    CrumbShape(n as real, t, 0.5 / t);
    Quotient(2000000000000.0, n as real * n as real);
    Cancel((0.5 / t) / t, CrumbWorst(n), n as real * n as real);
  }

  lemma CrumbShape(n: real, t: real, h: real)
    requires 1.0 <= n <= 32.0 && t > 0.0 && t * MILLION == 0.5 * n && h * t == 0.5
    ensures t < h && (h / t) * (n * n) == 2000000000000.0
  {
    assert h * n == MILLION by { assert h * (t * MILLION) == (h * t) * MILLION; }
    assert 31250.0 * n <= h * n;
    CancelLess(31250.0, h, n);
    assert 31250.0 <= h;
    assert t <= 1.0;
    var q := h / t;
    Quotient(h, t);
    assert q * (0.5 * n) == h * MILLION by { assert q * (t * MILLION) == (q * t) * MILLION; }
    assert (q * (0.5 * n)) * n == (h * n) * MILLION;
    assert (q * (0.5 * n)) * n == 0.5 * (q * (n * n));
  }

  lemma CrumbRatio(n: nat)
    requires 0 < n <= ROW_MAX
    ensures Fills(Crumbs(), MILLION, MILLION)
    ensures WorstRatio(Crumbs(), n, 0.0, 0.0, MILLION, MILLION) == CrumbWorst(n)
  {
    CrumbsFill();
    var i := WorstIs(Crumbs(), n, 0.0, 0.0, MILLION, MILLION);
    CrumbRect(n, i);
  }

  /** The ratio of crumbs does not grow. */
  lemma Shrinks(k: nat)
    requires 1 <= k
    ensures CrumbWorst(k) >= CrumbWorst(k + 1)
  {
    var n := k as real;
    var m, l := n * n, (n + 1.0) * (n + 1.0);
    assert (k + 1) as real == n + 1.0;
    var a, b := CrumbWorst(k), CrumbWorst(k + 1);
    Quotient(2000000000000.0, m);
    Quotient(2000000000000.0, l);
    assert l == m + 2.0 * n + 1.0;
    assert b * l == b * m + b * (2.0 * n + 1.0);
    ProductPositive(b, 2.0 * n + 1.0);
    assert a * m == b * l && b * m <= a * m;
    CancelLess(b, a, m);
  }

  lemma CrumbsShrink(k: nat)
    requires 1 <= k < ROW_MAX
    ensures Fills(Crumbs(), MILLION, MILLION)
    ensures WorstRatio(Crumbs(), k, 0.0, 0.0, MILLION, MILLION) >= WorstRatio(Crumbs(), k + 1, 0.0, 0.0, MILLION, MILLION)
  {
    CrumbRatio(k);
    CrumbRatio(k + 1);
    Shrinks(k);
  }

  /** The group of crumbs is too long: the code would write 34 rectangles into room for 32. */
  lemma CrumbsTooLong()
    ensures Fills(Crumbs(), MILLION, MILLION)
    ensures Group(Crumbs(), 0.0, 0.0, MILLION, MILLION) == 34 && !GroupsFit(Crumbs(), 0.0, 0.0, MILLION, MILLION)
  {
    CrumbsFill();
    forall k | 1 <= k < ROW_MAX
      ensures WorstRatio(Crumbs(), k, 0.0, 0.0, MILLION, MILLION) >= WorstRatio(Crumbs(), k + 1, 0.0, 0.0, MILLION, MILLION)
    {
      CrumbsShrink(k);
    }
    CrumbRatio(ROW_MAX);
    GroupTooLong(Crumbs(), 0.0, 0.0, MILLION, MILLION);
  }

  function UserOf<T>(userData: Option<seq<T>>, i: nat): Option<T>
    requires userData.Some? ==> i < |userData.value|
  {
    if userData.Some? then Some(userData.value[i]) else None
  }

  function Tail<T>(userData: Option<seq<T>>, g: nat): Option<seq<T>>
    requires userData.Some? ==> g <= |userData.value|
  {
    if userData.Some? then Some(userData.value[g..]) else None
  }

  /** Items from `off` on hold the sizes, the user data and the given rectangles, in input order. */
  ghost predicate Placed<T>(out: seq<Item<T>>, off: nat, s: seq<real>, userData: Option<seq<T>>, rects: seq<Rect>) {
    && |rects| == |s| && off + |s| <= |out| && (userData.Some? ==> |userData.value| >= |s|)
    && forall i | 0 <= i < |s| :: out[off + i] == Item(s[i], UserOf(userData, i), rects[i])
  }

  ghost predicate SameOutside<T>(a: seq<T>, b: seq<T>, lo: nat, hi: nat) {
    |a| == |b| && forall k | 0 <= k < |a| && !(lo <= k < hi) :: a[k] == b[k]
  }

  method ChooseGroup(sizes: seq<real>, x: real, y: real, dx: real, dy: real) returns (i: nat)
    requires sizes != [] && Positive(sizes) && dx > 0.0 && dy > 0.0
    ensures i == Group(sizes, x, y, dx, dy)
  {
    i := 1;
    while i < |sizes|
      invariant 1 <= i <= |sizes| && Group(sizes, x, y, dx, dy) == GroupFrom(sizes, i, x, y, dx, dy)
    {
      var now := ComputeWorstRatio(sizes, i, x, y, dx, dy);
      var more := ComputeWorstRatio(sizes, i + 1, x, y, dx, dy);
      if !(now >= more) { return; }
      i := i + 1;
    }
  }

  /** Places all items; `None` stands for writing past the 32 rectangles of a group. */
  method SquarifyImpl<T>(sizes: seq<real>, userData: Option<seq<T>>, x: real, y: real, dx: real, dy: real,
        outItems: array<Item<T>>, outOffset: nat) returns (end: Option<nat>)
    requires Fills(sizes, dx, dy)
    requires outOffset + |sizes| <= outItems.Length && (userData.Some? ==> |userData.value| >= |sizes|)
    modifies outItems
    ensures end == if GroupsFit(sizes, x, y, dx, dy) then Some(outOffset + |sizes|) else None
    ensures end.Some? ==> Placed(outItems[..], outOffset, sizes, userData, Tiles(sizes, x, y, dx, dy))
    ensures SameOutside(old(outItems[..]), outItems[..], outOffset, outOffset + |sizes|)
    decreases |sizes|, 2
  {
    if |sizes| == 0 {
      end := Some(outOffset);
    } else if |sizes| == 1 {
      outItems[outOffset] := Item(sizes[0], UserOf(userData, 0), Rect(x, y, dx, dy));
      end := Some(outOffset + 1);
    } else {
      end := SquarifyGroup(sizes, userData, x, y, dx, dy, outItems, outOffset);
    }
  }

  /** The general case: the first group, then the rest. */
  method SquarifyGroup<T>(sizes: seq<real>, userData: Option<seq<T>>, x: real, y: real, dx: real, dy: real,
        outItems: array<Item<T>>, outOffset: nat) returns (end: Option<nat>)
    requires |sizes| > 1 && Fills(sizes, dx, dy)
    requires outOffset + |sizes| <= outItems.Length && (userData.Some? ==> |userData.value| >= |sizes|)
    modifies outItems
    ensures end == if GroupsFit(sizes, x, y, dx, dy) then Some(outOffset + |sizes|) else None
    ensures end.Some? ==> Placed(outItems[..], outOffset, sizes, userData, Tiles(sizes, x, y, dx, dy))
    ensures SameOutside(old(outItems[..]), outItems[..], outOffset, outOffset + |sizes|)
    decreases |sizes|, 1
  {
    var i := ChooseGroup(sizes, x, y, dx, dy);
    var lx, ly, ldx, ldy := Leftover(sizes, i, x, y, dx, dy);
    GroupStep(sizes, x, y, dx, dy, i, Rect(lx, ly, ldx, ldy));
    if i > ROW_MAX { return None; }
    ghost var before, strip, others := outItems[..], Strip(sizes, i, x, y, dx, dy), Tiles(sizes[i..], lx, ly, ldx, ldy);
    PlaceGroup(sizes, userData, i, x, y, dx, dy, outItems, outOffset);
    ghost var placed := outItems[..];
    end := SquarifyRest(sizes, userData, i, lx, ly, ldx, ldy, outItems, outOffset, strip, others, GroupsFit(sizes[i..], lx, ly, ldx, ldy));
    Outside(before, placed, outItems[..], outOffset, outOffset + i, outOffset + |sizes|);
  }

  /** With the first group of `g` items placed, places the remaining items in the leftover rectangle. */
  method SquarifyRest<T>(sizes: seq<real>, userData: Option<seq<T>>, g: nat, lx: real, ly: real, ldx: real, ldy: real,
        outItems: array<Item<T>>, outOffset: nat, ghost strip: seq<Rect>, ghost others: seq<Rect>, ghost fits: bool)
    returns (end: Option<nat>)
    requires 0 < g <= |sizes| && Fills(sizes[g..], ldx, ldy)
    requires others == Tiles(sizes[g..], lx, ly, ldx, ldy) && fits == GroupsFit(sizes[g..], lx, ly, ldx, ldy)
    requires outOffset + |sizes| <= outItems.Length && (userData.Some? ==> |userData.value| >= |sizes|)
    requires Placed(outItems[..], outOffset, sizes[..g], userData, strip)
    modifies outItems
    ensures end == if fits then Some(outOffset + |sizes|) else None
    ensures end.Some? ==> Placed(outItems[..], outOffset, sizes, userData, strip + others)
    ensures SameOutside(old(outItems[..]), outItems[..], outOffset + g, outOffset + |sizes|)
    decreases |sizes|, 0
  {
    ghost var placed := outItems[..];
    end := SquarifyImpl(sizes[g..], Tail(userData, g), lx, ly, ldx, ldy, outItems, outOffset + g);
    if end.Some? {
      PlacedJoin(placed, outItems[..], outOffset, sizes, userData, g, strip, others);
    }
  }

  /** The first group and what is left over. */
  lemma GroupStep(s: seq<real>, x: real, y: real, dx: real, dy: real, g: nat, rest: Rect)
    requires |s| > 1 && Fills(s, dx, dy) && g == Group(s, x, y, dx, dy) && rest == Rest(s, g, x, y, dx, dy)
    ensures Fills(s[g..], rest.w, rest.h)
    ensures Tiles(s, x, y, dx, dy) == Strip(s, g, x, y, dx, dy) + Tiles(s[g..], rest.x, rest.y, rest.w, rest.h)
    ensures GroupsFit(s, x, y, dx, dy) <==> g <= ROW_MAX && GroupsFit(s[g..], rest.x, rest.y, rest.w, rest.h)
  {
    RestFills(s, g, x, y, dx, dy);
  }

  /** Lays out one group and copies it to the output. */
  method PlaceGroup<T>(sizes: seq<real>, userData: Option<seq<T>>, n: nat, x: real, y: real, dx: real, dy: real,
        outItems: array<Item<T>>, outOffset: nat)
    requires 0 < n <= |sizes| && n <= ROW_MAX && Positive(sizes) && dx > 0.0 && dy > 0.0
    requires outOffset + n <= outItems.Length && (userData.Some? ==> |userData.value| >= |sizes|)
    modifies outItems
    ensures Placed(outItems[..], outOffset, sizes[..n], userData, Strip(sizes, n, x, y, dx, dy))
    ensures SameOutside(old(outItems[..]), outItems[..], outOffset, outOffset + n)
  {
    var rects := new Rect[ROW_MAX];
    Layout(sizes, n, x, y, dx, dy, rects);
    CopyGroup(sizes, userData, n, rects, outItems, outOffset);
  }

  method CopyGroup<T>(sizes: seq<real>, userData: Option<seq<T>>, n: nat, rects: array<Rect>, outItems: array<Item<T>>, outOffset: nat)
    requires n <= |sizes| && n <= rects.Length && outOffset + n <= outItems.Length && (userData.Some? ==> |userData.value| >= |sizes|)
    modifies outItems
    ensures Placed(outItems[..], outOffset, sizes[..n], userData, old(rects[..n]))
    ensures SameOutside(old(outItems[..]), outItems[..], outOffset, outOffset + n)
  {
    for j := 0 to n
      invariant rects[..] == old(rects[..])
      invariant forall k | 0 <= k < j :: outItems[outOffset + k] == Item(sizes[k], UserOf(userData, k), rects[k])
      invariant forall k | 0 <= k < outItems.Length && !(outOffset <= k < outOffset + j) :: outItems[k] == old(outItems[k])
    {
      outItems[outOffset + j] := Item(sizes[j], UserOf(userData, j), rects[j]);
    }
  }

  lemma Outside<T>(before: seq<T>, mid: seq<T>, out: seq<T>, lo: nat, g: nat, hi: nat)
    requires lo <= g <= hi && SameOutside(before, mid, lo, g) && SameOutside(mid, out, g, hi)
    ensures SameOutside(before, out, lo, hi)
  {
  }

  lemma PlacedJoin<T>(mid: seq<Item<T>>, out: seq<Item<T>>, off: nat, s: seq<real>, userData: Option<seq<T>>,
        g: nat, a: seq<Rect>, b: seq<Rect>)
    requires g <= |s| && (userData.Some? ==> |userData.value| >= |s|)
    requires Placed(mid, off, s[..g], userData, a) && Placed(out, off + g, s[g..], Tail(userData, g), b)
    requires SameOutside(mid, out, off + g, off + |s|)
    ensures Placed(out, off, s, userData, a + b)
  {
    forall i | 0 <= i < |s| ensures out[off + i] == Item(s[i], UserOf(userData, i), (a + b)[i]) {
      if i < g {
        assert mid[off + i] == Item(s[..g][i], UserOf(userData, i), a[i]);
      } else {
        assert out[off + g + (i - g)] == Item(s[g..][i - g], UserOf(Tail(userData, g), i - g), b[i - g]);
      }
    }
  }

  // ---------------------------------------------------------------- padding and the public entry

  /** One unit off every side that is longer than two. */
  function Padded(r: Rect): Rect {
    var (x, w) := if r.w > 2.0 then (r.x + 1.0, r.w - 2.0) else (r.x, r.w);
    var (y, h) := if r.h > 2.0 then (r.y + 1.0, r.h - 2.0) else (r.y, r.h);
    Rect(x, y, w, h)
  }

  method Squarify<T>(sizes: seq<real>, userData: Option<seq<T>>, bounds: Rect, outItems: array<Item<T>>, pad: bool) returns (ok: bool)
    requires Fills(sizes, bounds.w, bounds.h)
    requires |sizes| <= outItems.Length && (userData.Some? ==> |userData.value| >= |sizes|)
    modifies outItems
    ensures ok <==> GroupsFit(sizes, bounds.x, bounds.y, bounds.w, bounds.h)
    ensures var tiles := Tiles(sizes, bounds.x, bounds.y, bounds.w, bounds.h);
            ok ==> forall i | 0 <= i < |sizes| ::
              outItems[i] == Item(sizes[i], UserOf(userData, i), if pad then Padded(tiles[i]) else tiles[i])
    ensures forall k | |sizes| <= k < outItems.Length :: outItems[k] == old(outItems[k])
  {
    var end := SquarifyImpl(sizes, userData, bounds.x, bounds.y, bounds.w, bounds.h, outItems, 0);
    ok := end.Some?;
    if !ok { return; }
    ghost var tiles := Tiles(sizes, bounds.x, bounds.y, bounds.w, bounds.h);
    assert forall i | 0 <= i < |sizes| :: outItems[..][0 + i] == Item(sizes[i], UserOf(userData, i), tiles[i]);
    if pad {
      PadAll(outItems, |sizes|);
    }
  }

  method PadAll<T>(outItems: array<Item<T>>, n: nat)
    requires n <= outItems.Length
    modifies outItems
    ensures forall k | 0 <= k < n :: outItems[k] == old(outItems[k]).(rect := Padded(old(outItems[k]).rect))
    ensures forall k | n <= k < outItems.Length :: outItems[k] == old(outItems[k])
  {
    for i := 0 to n
      invariant forall k | 0 <= k < i :: outItems[k] == old(outItems[k]).(rect := Padded(old(outItems[k]).rect))
      invariant forall k | i <= k < outItems.Length :: outItems[k] == old(outItems[k])
    {
      outItems[i] := outItems[i].(rect := Padded(outItems[i].rect));
    }
  }

  // ---------------------------------------------------------------- the tiling theorem

  datatype Point = Point(x: real, y: real)

  /** Rectangles are closed on the left and top sides and open on the others. */
  predicate Inside(r: Rect, p: Point) {
    r.x <= p.x < r.x + r.w && r.y <= p.y < r.y + r.h
  }

  /** `p` lies in rectangle `i` and in no other. */
  ghost predicate OnlyIn(rects: seq<Rect>, i: nat, p: Point) {
    i < |rects| && Inside(rects[i], p) && forall j | 0 <= j < |rects| && j != i :: !Inside(rects[j], p)
  }

  ghost predicate InNone(rects: seq<Rect>, p: Point) {
    forall j | 0 <= j < |rects| :: !Inside(rects[j], p)
  }

  lemma {:induction false} OffsetSum(s: seq<real>, thick: real, i: nat)
    requires i <= |s| && thick > 0.0
    ensures Offset(s, thick, i) * thick == Sum(s, i)
  {
    if i > 0 {
      OffsetSum(s, thick, i - 1);
      Quotient(s[i - 1], thick);
      Distribute(Offset(s, thick, i - 1), s[i - 1] / thick, thick);
    }
  }

  lemma Distribute(a: real, b: real, c: real)
    ensures (a + b) * c == a * c + b * c
  {
  }

  lemma Cancel(a: real, b: real, c: real)
    requires c > 0.0 && a * c == b * c
    ensures a == b
  {
    assert (a - b) * c == 0.0;
  }

  /** The items of a strip cover the whole side. */
  lemma OffsetEnd(s: seq<real>, n: nat, side: real)
    requires 0 < n <= |s| && Positive(s) && side > 0.0
    ensures Offset(s, Thick(s, n, side), n) == side
  {
    var t := Thick(s, n, side);
    OffsetSum(s, t, n);
    assert side * t == t * side;
    Cancel(Offset(s, t, n), side, t);
  }

  lemma {:induction false} OffsetMonotone(s: seq<real>, thick: real, i: nat, j: nat)
    requires i <= j <= |s| && thick > 0.0 && Positive(s)
    ensures Offset(s, thick, i) <= Offset(s, thick, j)
    decreases j
  {
    if i < j {
      OffsetMonotone(s, thick, i, j - 1);
      Quotient(s[j - 1], thick);
    }
  }

  /** The item of a strip that a position along it falls on. */
  lemma {:induction false} Locate(s: seq<real>, thick: real, n: nat, t: real) returns (i: nat)
    requires n <= |s| && thick > 0.0 && Positive(s) && 0.0 <= t < Offset(s, thick, n)
    ensures i < n && Offset(s, thick, i) <= t < Offset(s, thick, i + 1)
    decreases n
  {
    if Offset(s, thick, n - 1) <= t {
      i := n - 1;
    } else {
      i := Locate(s, thick, n - 1, t);
    }
  }

  /** A strip and the rest beside it: what is inside the bounds is in exactly one item or in the rest. */
  lemma StripExact(s: seq<real>, n: nat, x: real, y: real, dx: real, dy: real, p: Point) returns (i: nat)
    requires s != [] && Fills(s, dx, dy) && 0 < n <= |s|
    requires Inside(Rect(x, y, dx, dy), p) && !Inside(Rest(s, n, x, y, dx, dy), p)
    ensures OnlyIn(Strip(s, n, x, y, dx, dy), i, p)
  {
    var down := dx >= dy;
    var side := if down then dy else dx;
    var t := Thick(s, n, side);
    var along := if down then p.y - y else p.x - x;
    OffsetEnd(s, n, side);
    i := Locate(s, t, n, along);
    var strip := Strip(s, n, x, y, dx, dy);
    assert strip[i] == StripRect(s, n, x, y, dx, dy, i);
    forall j | 0 <= j < n && j != i ensures !Inside(strip[j], p) {
      assert strip[j] == StripRect(s, n, x, y, dx, dy, j);
      if j < i { OffsetMonotone(s, t, j + 1, i); } else { OffsetMonotone(s, t, i + 1, j); }
    }
  }

  lemma StripOutside(s: seq<real>, n: nat, x: real, y: real, dx: real, dy: real, p: Point)
    requires s != [] && Fills(s, dx, dy) && 0 < n <= |s|
    requires !Inside(Rect(x, y, dx, dy), p) || Inside(Rest(s, n, x, y, dx, dy), p)
    ensures InNone(Strip(s, n, x, y, dx, dy), p)
  {
    var side := if dx >= dy then dy else dx;
    var t := Thick(s, n, side);
    RestFills(s, n, x, y, dx, dy);
    OffsetEnd(s, n, side);
    var strip := Strip(s, n, x, y, dx, dy);
    forall j | 0 <= j < n ensures !Inside(strip[j], p) {
      assert strip[j] == StripRect(s, n, x, y, dx, dy, j);
      OffsetMonotone(s, t, 0, j);
      OffsetMonotone(s, t, j + 1, n);
    }
  }

  lemma RestInside(s: seq<real>, n: nat, x: real, y: real, dx: real, dy: real, p: Point)
    requires s != [] && Fills(s, dx, dy) && 0 < n <= |s| && Inside(Rest(s, n, x, y, dx, dy), p)
    ensures Inside(Rect(x, y, dx, dy), p)
  {
  }

  lemma RestEmpty(s: seq<real>, x: real, y: real, dx: real, dy: real, p: Point)
    requires s != [] && Fills(s, dx, dy)
    ensures !Inside(Rest(s, |s|, x, y, dx, dy), p)
  {
    if dx >= dy {
      Cancel(Thick(s, |s|, dy), dx, dy);
    } else {
      assert dx * dy == dy * dx;
      Cancel(Thick(s, |s|, dx), dy, dx);
    }
  }

  /** Every point of the bounds lies in exactly one tile. */
  lemma {:induction false} TilesExact(s: seq<real>, x: real, y: real, dx: real, dy: real, p: Point) returns (i: nat)
    requires s != [] && Fills(s, dx, dy) && Inside(Rect(x, y, dx, dy), p)
    ensures OnlyIn(Tiles(s, x, y, dx, dy), i, p)
    decreases |s|
  {
    if |s| == 1 {
      i := 0;
    } else {
      var g := Group(s, x, y, dx, dy);
      var rest := Rest(s, g, x, y, dx, dy);
      GroupStep(s, x, y, dx, dy, g, rest);
      var strip, others := Strip(s, g, x, y, dx, dy), Tiles(s[g..], rest.x, rest.y, rest.w, rest.h);
      if Inside(rest, p) {
        if g == |s| { RestEmpty(s, x, y, dx, dy, p); assert false; }
        StripOutside(s, g, x, y, dx, dy, p);
        var k := TilesExact(s[g..], rest.x, rest.y, rest.w, rest.h, p);
        i := g + k;
        InSecond(strip, others, k, p);
      } else {
        i := StripExact(s, g, x, y, dx, dy, p);
        TilesOutside(s[g..], rest.x, rest.y, rest.w, rest.h, p);
        InFirst(strip, others, i, p);
      }
    }
  }

  /** No tile holds a point outside the bounds. */
  lemma {:induction false} TilesOutside(s: seq<real>, x: real, y: real, dx: real, dy: real, p: Point)
    requires Fills(s, dx, dy) && !Inside(Rect(x, y, dx, dy), p)
    ensures InNone(Tiles(s, x, y, dx, dy), p)
    decreases |s|
  {
    if |s| > 1 {
      var g := Group(s, x, y, dx, dy);
      var rest := Rest(s, g, x, y, dx, dy);
      GroupStep(s, x, y, dx, dy, g, rest);
      if Inside(rest, p) { RestInside(s, g, x, y, dx, dy, p); assert false; }
      StripOutside(s, g, x, y, dx, dy, p);
      TilesOutside(s[g..], rest.x, rest.y, rest.w, rest.h, p);
    }
  }

  lemma InFirst(a: seq<Rect>, b: seq<Rect>, i: nat, p: Point)
    requires OnlyIn(a, i, p) && InNone(b, p)
    ensures OnlyIn(a + b, i, p)
  {
  }

  lemma InSecond(a: seq<Rect>, b: seq<Rect>, i: nat, p: Point)
    requires InNone(a, p) && OnlyIn(b, i, p)
    ensures OnlyIn(a + b, |a| + i, p)
  {
    forall j | 0 <= j < |a + b| && j != |a| + i ensures !Inside((a + b)[j], p) {
      if j >= |a| { assert (a + b)[j] == b[j - |a|]; }
    }
  }

  ghost predicate HasArea(r: Rect, v: real) {
    r.w > 0.0 && r.h > 0.0 && r.w * r.h == v
  }

  lemma StripArea(s: seq<real>, n: nat, x: real, y: real, dx: real, dy: real, i: nat)
    requires 0 < n <= |s| && i < n && Positive(s) && dx > 0.0 && dy > 0.0
    ensures HasArea(StripRect(s, n, x, y, dx, dy, i), s[i])
  {
    Quotient(s[i], Thick(s, n, if dx >= dy then dy else dx));
  }

  /** Tile `i` is a rectangle of the first strip or a tile of the rest. */
  lemma TileSplit(s: seq<real>, x: real, y: real, dx: real, dy: real, i: nat)
    requires |s| > 1 && Fills(s, dx, dy) && i < |s|
    ensures var g := Group(s, x, y, dx, dy);
            var rest := Rest(s, g, x, y, dx, dy);
            && Fills(s[g..], rest.w, rest.h)
            && Tiles(s, x, y, dx, dy)[i] ==
               if i < g then StripRect(s, g, x, y, dx, dy, i) else Tiles(s[g..], rest.x, rest.y, rest.w, rest.h)[i - g]
  {
    var g := Group(s, x, y, dx, dy);
    GroupStep(s, x, y, dx, dy, g, Rest(s, g, x, y, dx, dy));
  }

  /** Tile `i` has the area of item `i`. */
  lemma {:induction false} TileArea(s: seq<real>, x: real, y: real, dx: real, dy: real, i: nat)
    requires Fills(s, dx, dy) && i < |s|
    ensures HasArea(Tiles(s, x, y, dx, dy)[i], s[i])
    decreases |s|
  {
    if |s| == 1 {
      assert Sum(s, 1) == Sum(s, 0) + s[0];
    } else {
      var g := Group(s, x, y, dx, dy);
      var rest := Rest(s, g, x, y, dx, dy);
      TileSplit(s, x, y, dx, dy, i);
      if i < g {
        StripArea(s, g, x, y, dx, dy, i);
      } else {
        TileArea(s[g..], rest.x, rest.y, rest.w, rest.h, i - g);
      }
    }
  }

  /** Padding keeps every rectangle within its tile. */
  lemma PaddedInside(r: Rect, p: Point)
    requires Inside(Padded(r), p)
    ensures Inside(r, p)
  {
  }

  /** Padding keeps the middle of a rectangle and takes two units off every side that is longer than that. */
  lemma PaddedCentre(r: Rect)
    ensures var q := Padded(r); q.x + q.w / 2.0 == r.x + r.w / 2.0 && q.y + q.h / 2.0 == r.y + r.h / 2.0
    ensures Padded(r).w == (if r.w > 2.0 then r.w - 2.0 else r.w) && Padded(r).h == (if r.h > 2.0 then r.h - 2.0 else r.h)
  {
  }

  // ---------------------------------------------------------------- how the tiles lie

  /** A ratio says how many times the shorter side goes into the longer one. */
  lemma RatioMeaning(r: Rect)
    requires r.w > 0.0 && r.h > 0.0
    ensures Ratio(r) >= 1.0 && Ratio(r) * (if r.w < r.h then r.w else r.h) == (if r.w < r.h then r.h else r.w)
  {
    Quotient(r.w, r.h);
    Quotient(r.h, r.w);
    if r.w > r.h { AtLeastOne(r.w / r.h, r.w, r.h); } else { AtLeastOne(r.h / r.w, r.h, r.w); }
  }

  lemma AtLeastOne(q: real, a: real, b: real)
    requires q * b == a && a >= b > 0.0
    ensures q >= 1.0
  {
    assert q < 1.0 ==> q * b < b;
  }

  /** The worst ratio of a strip of at most 32 items is reached and not exceeded. */
  lemma WorstExact(s: seq<real>, n: nat, x: real, y: real, dx: real, dy: real, v: real)
    requires 0 < n <= |s| && n <= ROW_MAX && Positive(s) && dx > 0.0 && dy > 0.0 && Sized(Strip(s, n, x, y, dx, dy))
    ensures v == WorstRatio(s, n, x, y, dx, dy) <==> IsWorst(Strip(s, n, x, y, dx, dy), v)
  {
    var rects, w := Strip(s, n, x, y, dx, dy), WorstRatio(s, n, x, y, dx, dy);
    var i :| 0 <= i < |rects| && Ratio(rects[i]) == w;
    if IsWorst(rects, v) { var j :| 0 <= j < |rects| && Ratio(rects[j]) == v; }
  }

  /** A group takes one item more as long as that does not make the worst ratio grow, and then stops. */
  lemma GroupExact(s: seq<real>, x: real, y: real, dx: real, dy: real, g: nat)
    requires s != [] && Positive(s) && dx > 0.0 && dy > 0.0
    ensures g == Group(s, x, y, dx, dy) <==>
            && 1 <= g <= |s|
            && (forall k | 1 <= k < g :: WorstRatio(s, k, x, y, dx, dy) >= WorstRatio(s, k + 1, x, y, dx, dy))
            && (g < |s| ==> WorstRatio(s, g, x, y, dx, dy) < WorstRatio(s, g + 1, x, y, dx, dy))
  {
    var h := Group(s, x, y, dx, dy);
    if 1 <= g < h { assert WorstRatio(s, g, x, y, dx, dy) >= WorstRatio(s, g + 1, x, y, dx, dy); }
    if 1 <= h < g <= |s| { assert WorstRatio(s, h, x, y, dx, dy) < WorstRatio(s, h + 1, x, y, dx, dy); }
  }

  /** The first `g` rectangles stand side by side along the whole shorter side of the bounds, all equally thick. */
  ghost predicate AlongShorterSide(rects: seq<Rect>, g: nat, x: real, y: real, dx: real, dy: real)
    requires 0 < g <= |rects|
  {
    if dx >= dy then
      && (forall i | 0 <= i < g :: rects[i].x == x && rects[i].w == rects[0].w)
      && rects[0].y == y && rects[g - 1].y + rects[g - 1].h == y + dy
      && forall i | 0 <= i < g - 1 :: rects[i + 1].y == rects[i].y + rects[i].h
    else
      && (forall i | 0 <= i < g :: rects[i].y == y && rects[i].h == rects[0].h)
      && rects[0].x == x && rects[g - 1].x + rects[g - 1].w == x + dx
      && forall i | 0 <= i < g - 1 :: rects[i + 1].x == rects[i].x + rects[i].w
  }

  /** The first group is such a strip, and the other items are laid out beside it in the same way. */
  lemma FirstStrip(s: seq<real>, x: real, y: real, dx: real, dy: real)
    requires |s| > 1 && Fills(s, dx, dy)
    ensures var g, tiles := Group(s, x, y, dx, dy), Tiles(s, x, y, dx, dy);
            var rest := if dx >= dy then Rect(x + tiles[0].w, y, dx - tiles[0].w, dy) else Rect(x, y + tiles[0].h, dx, dy - tiles[0].h);
            && AlongShorterSide(tiles, g, x, y, dx, dy)
            && Fills(s[g..], rest.w, rest.h) && tiles[g..] == Tiles(s[g..], rest.x, rest.y, rest.w, rest.h)
  {
    var g, tiles := Group(s, x, y, dx, dy), Tiles(s, x, y, dx, dy);
    var rest := Rest(s, g, x, y, dx, dy);
    RestFills(s, g, x, y, dx, dy);
    assert tiles == Strip(s, g, x, y, dx, dy) + Tiles(s[g..], rest.x, rest.y, rest.w, rest.h);
    StripAlong(s, g, x, y, dx, dy);
  }

  lemma StripAlong(s: seq<real>, g: nat, x: real, y: real, dx: real, dy: real)
    requires 0 < g <= |s| && Positive(s) && dx > 0.0 && dy > 0.0
    ensures AlongShorterSide(Strip(s, g, x, y, dx, dy), g, x, y, dx, dy)
    ensures var rest := Rest(s, g, x, y, dx, dy);
            var first := Strip(s, g, x, y, dx, dy)[0];
            rest == if dx >= dy then Rect(x + first.w, y, dx - first.w, dy) else Rect(x, y + first.h, dx, dy - first.h)
  {
    var rects := Strip(s, g, x, y, dx, dy);
    forall i | 0 <= i < g ensures rects[i] == StripRect(s, g, x, y, dx, dy, i) {}
    if dx >= dy { OffsetEnd(s, g, dy); } else { OffsetEnd(s, g, dx); }
  }
}
