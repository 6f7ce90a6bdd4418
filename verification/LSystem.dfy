/**
 The L-system interpreter of `par_shapes_create_lsystem`: an explicit stack of frames refines the recursive
 meaning of a program. Numbers are reals; sine, cosine and the reading of numeric arguments are parameters.
 */
module LSystem {

  datatype Vec = Vec(x: real, y: real, z: real)
  /** The turtle mesh: the three points of its orientation. */
  datatype Axes = Axes(a: Vec, b: Vec, c: Vec)
  datatype Axis = X | Y | Z
  datatype Turtle = Turtle(orientation: Axes, position: Vec, scale: Vec)

  /** Sine and cosine of an angle in degrees, and `atof`. */
  datatype Library = Library(cos: real -> real, sin: real -> real, number: string -> real)

  /** The command names: rx ry rz, tx ty tz, sx sy sz, sa; any other name does nothing. */
  datatype Op = PlaceShape | CallRule | Rotate(axis: Axis) | Translate(axis: Axis) | ScaleAxis(axis: Axis) | ScaleAll | Unknown
  datatype Command = Command(op: Op, arg: string)
  datatype Rule = Rule(name: string, weight: nat, commands: seq<Command>)

  /** A tube placed by the turtle, connected to the scene or merged into it. */
  datatype Shape = Shape(turtle: Turtle, connect: bool)

  const START := Turtle(Axes(Vec(1.0, 0.0, 0.0), Vec(0.0, 1.0, 0.0), Vec(0.0, 0.0, 1.0)), Vec(0.0, 0.0, 0.0), Vec(1.0, 1.0, 1.0))

  // ---------------------------------------------------------------- weighted choice

  /** The total weight of the first `n` rules of a name. */
  function Weight(rules: seq<Rule>, name: string, n: nat): nat
    requires n <= |rules|
  {
    if n == 0 then 0 else Weight(rules, name, n - 1) + if rules[n - 1].name == name then rules[n - 1].weight else 0
  }

  lemma {:induction false} WeightGrows(rules: seq<Rule>, name: string, m: nat, n: nat)
    requires m <= n <= |rules|
    ensures Weight(rules, name, m) <= Weight(rules, name, n)
    decreases n
  {
    if m < n { WeightGrows(rules, name, m, n - 1); }
  }

  /** The share of the first `n` rules of a name in their total. */
  function Share(rules: seq<Rule>, name: string, n: nat): real
    requires n <= |rules| && Weight(rules, name, |rules|) > 0
  {
    Weight(rules, name, n) as real / Weight(rules, name, |rules|) as real
  }

  /** Rule `k` is the one for the random number `r`: the first of the name whose share has reached it. */
  ghost predicate Chosen(rules: seq<Rule>, name: string, r: real, k: nat)
    requires Weight(rules, name, |rules|) > 0
  {
    k < |rules| && rules[k].name == name && Share(rules, name, k + 1) >= r
    && forall j | 0 <= j < k && rules[j].name == name :: Share(rules, name, j + 1) < r
  }

  /**
   A rule of the name, picked by weight; the last rule of all when the name has no weight.
   (With a total of zero every share is not a number and compares false.)
   */
  function Picked(rules: seq<Rule>, name: string, r: real, k: nat): (i: nat)
    requires k < |rules| && 0.0 <= r <= 1.0
    ensures i < |rules|
    decreases |rules| - k
  {
    if rules[k].name == name && Weight(rules, name, |rules|) > 0 && Share(rules, name, k + 1) >= r then k
    else if k + 1 == |rules| then k
    else Picked(rules, name, r, k + 1)
  }

  /** As long as the name has any weight, the choice is the weighted one; it never falls through. */
  lemma {:induction false} PickedIsChosen(rules: seq<Rule>, name: string, r: real, k: nat)
    requires k < |rules| && 0.0 <= r <= 1.0 && Weight(rules, name, |rules|) > 0
    requires forall j | 0 <= j < k && rules[j].name == name :: Share(rules, name, j + 1) < r
    ensures Chosen(rules, name, r, Picked(rules, name, r, k))
    decreases |rules| - k
  {
    if rules[k].name == name && Share(rules, name, k + 1) >= r {
    } else if k + 1 == |rules| {
      LastShare(rules, name, r, k + 1);
      SelfQuotient(Weight(rules, name, |rules|));
      assert false;
    } else {
      PickedIsChosen(rules, name, r, k + 1);
    }
  }

  /** Of two rules of the name with weights 1 and 3 the first is taken for a quarter of the numbers; others do not matter. */
  lemma PickExample(r: real, other: nat)
    requires 0.0 <= r <= 1.0
    ensures Picked([Rule("a", 1, []), Rule("b", other, []), Rule("a", 3, [])], "a", r, 0) == if r <= 0.25 then 0 else 2
  {
    var rules := [Rule("a", 1, []), Rule("b", other, []), Rule("a", 3, [])];
    assert Weight(rules, "a", 1) == 1 && Weight(rules, "a", 2) == 1 && Weight(rules, "a", 3) == 4;
    assert Share(rules, "a", 1) == 0.25;
    assert Picked(rules, "a", r, 1) == Picked(rules, "a", r, 2) == 2;
  }

  lemma SelfQuotient(n: nat)
    requires n > 0
    ensures n as real / n as real == 1.0
  {
  }

  /** Below `r` everywhere among the first `n` rules means below `r` in total. */
  lemma {:induction false} LastShare(rules: seq<Rule>, name: string, r: real, n: nat)
    requires n <= |rules| && 0.0 <= r && Weight(rules, name, |rules|) > 0
    requires forall j | 0 <= j < n && rules[j].name == name :: Share(rules, name, j + 1) < r
    ensures Weight(rules, name, n) == 0 || Share(rules, name, n) < r
  {
    if n > 0 && rules[n - 1].name != name { LastShare(rules, name, r, n - 1); }
  }

  method PickRule(rules: seq<Rule>, name: string, r: real) returns (i: nat)
    requires rules != [] && 0.0 <= r <= 1.0
    ensures i == Picked(rules, name, r, 0)
  {
    var total := 0;
    for k := 0 to |rules|
      invariant total == Weight(rules, name, k)
    {
      if rules[k].name == name { total := total + rules[k].weight; }
    }
    var t := 0.0;
    i := 0;
    for k := 0 to |rules|
      invariant k > 0 ==> i == k - 1
      invariant total > 0 ==> t == Share(rules, name, k)
      invariant k < |rules| ==> Picked(rules, name, r, k) == Picked(rules, name, r, 0)
      invariant k == |rules| ==> Picked(rules, name, r, 0) == k - 1
    {
      i := k;
      if rules[k].name == name && total > 0 {
        AddShare(Weight(rules, name, k), rules[k].weight, total);
        t := t + rules[k].weight as real / total as real;
        if t >= r { return; }
      }
    }
  }

  lemma AddShare(a: nat, b: nat, total: nat)
    requires total > 0
    ensures a as real / total as real + b as real / total as real == (a + b) as real / total as real
  {
  }

  // ---------------------------------------------------------------- the recursive meaning

  function Scaled(v: real, p: Vec): Vec { Vec(v * p.x, v * p.y, v * p.z) }
  function Plus(p: Vec, q: Vec): Vec { Vec(p.x + q.x, p.y + q.y, p.z + q.z) }

  function Along(p: Vec, axis: Axis): real { match axis case X => p.x case Y => p.y case Z => p.z }

  function ScaledAlong(v: real, p: Vec, axis: Axis): Vec {
    match axis
    case X => p.(x := p.x * v)
    case Y => p.(y := p.y * v)
    case Z => p.(z := p.z * v)
  }

  /** `par_shapes_rotate` around a coordinate axis, for one point. */
  function Turned(p: Vec, c: real, s: real, axis: Axis): Vec {
    match axis
    case X => Vec(p.x, c * p.y - s * p.z, s * p.y + c * p.z)
    case Y => Vec(c * p.x + s * p.z, p.y, c * p.z - s * p.x)
    case Z => Vec(c * p.x - s * p.y, s * p.x + c * p.y, p.z)
  }

  function TurnedAxes(o: Axes, c: real, s: real, axis: Axis): Axes { Axes(Turned(o.a, c, s, axis), Turned(o.b, c, s, axis), Turned(o.c, c, s, axis)) }

  /** A command other than a shape or a call. */
  function Moved(lib: Library, c: Command, t: Turtle): Turtle {
    var v := lib.number(c.arg);
    var o := t.orientation;
    match c.op
    case Rotate(axis) => t.(orientation := TurnedAxes(o, lib.cos(v), lib.sin(v), axis))
    case Translate(axis) => t.(position := Plus(t.position, Scaled(v, Vec(Along(o.a, axis), Along(o.b, axis), Along(o.c, axis)))))
    case ScaleAxis(axis) => t.(scale := ScaledAlong(v, t.scale, axis))
    case ScaleAll => t.(scale := Scaled(v, t.scale))
    case _ => t
  }

  // ---------------------------------------------------------------- where a turtle puts a shape

  function Dot(p: Vec, q: Vec): real { p.x * q.x + p.y * q.y + p.z * q.z }

  /** What the orientation makes of a point. */
  function Carried(o: Axes, q: Vec): Vec { Vec(Dot(o.a, q), Dot(o.b, q), Dot(o.c, q)) }

  /** Where a point of the template shape ends up. */
  function PointAt(t: Turtle, q: Vec): Vec {
    Plus(Carried(t.orientation, Stretched(t.scale, q)), t.position)
  }

  function Stretched(s: Vec, q: Vec): Vec { Vec(s.x * q.x, s.y * q.y, s.z * q.z) }

  /** `par_shapes__apply_turtle`: every point of the copied shape is scaled, turned and moved. */
  method ApplyTurtle(points: array<Vec>, t: Turtle)
    modifies points
    ensures forall i | 0 <= i < points.Length :: points[i] == PointAt(t, old(points[i]))
  {
    for i := 0 to points.Length
      invariant forall j | 0 <= j < i :: points[j] == PointAt(t, old(points[j]))
      invariant forall j | i <= j < points.Length :: points[j] == old(points[j])
    {
      var p := points[i];
      p := Vec(p.x * t.scale.x, p.y * t.scale.y, p.z * t.scale.z);
      assert p == Stretched(t.scale, old(points[i]));
      p := Vec(Dot(t.orientation.a, p), Dot(t.orientation.b, p), Dot(t.orientation.c, p));
      points[i] := Plus(p, t.position);
      assert points[i] == PointAt(t, old(points[i]));
    }
  }

  const UNIT_X := Vec(1.0, 0.0, 0.0)
  const UNIT_Y := Vec(0.0, 1.0, 0.0)
  const UNIT_Z := Vec(0.0, 0.0, 1.0)

  function Unit(axis: Axis): Vec { match axis case X => UNIT_X case Y => UNIT_Y case Z => UNIT_Z }

  /** A point with one coordinate multiplied. */
  function Longer(v: real, q: Vec, axis: Axis): Vec {
    match axis
    case X => Vec(v * q.x, q.y, q.z)
    case Y => Vec(q.x, v * q.y, q.z)
    case Z => Vec(q.x, q.y, v * q.z)
  }

  /**
   What the commands do to where things are put. A translation moves everything by that much along the turtle's own axis;
   scaling along an axis is scaling the shape along it first, and scaling all is scaling the shape as a whole. The other
   parts of the turtle are kept, and so is all of it by other commands.
   */
  lemma MovesPoints(lib: Library, c: Command, t: Turtle, q: Vec)
    ensures var v, u := lib.number(c.arg), Moved(lib, c, t);
            match c.op
            case Translate(axis) =>
              u.orientation == t.orientation && u.scale == t.scale && PointAt(u, q) == Plus(PointAt(t, q), Scaled(v, Carried(t.orientation, Unit(axis))))
            case ScaleAxis(axis) => u.orientation == t.orientation && u.position == t.position && PointAt(u, q) == PointAt(t, Longer(v, q, axis))
            case ScaleAll => u.orientation == t.orientation && u.position == t.position && PointAt(u, q) == PointAt(t, Scaled(v, q))
            case Rotate(axis) =>
              && u.position == t.position && u.scale == t.scale
              && PointAt(u, q) == Plus(Carried(t.orientation, Turned(Stretched(t.scale, q), lib.cos(v), -lib.sin(v), axis)), t.position)
            case _ => u == t
  {
    var v, u := lib.number(c.arg), Moved(lib, c, t);
    match c.op
    case Rotate(axis) => TurnsPoints(t.orientation, lib.cos(v), lib.sin(v), axis, Stretched(t.scale, q));
    case Translate(axis) =>
      AlongAxis(t.orientation, axis);
    case ScaleAxis(axis) => StretchedAlong(v, t.scale, q, axis);
    case ScaleAll => StretchedAll(v, t.scale, q);
    case _ =>
  }

  lemma AlongAxis(o: Axes, axis: Axis)
    ensures Carried(o, Unit(axis)) == Vec(Along(o.a, axis), Along(o.b, axis), Along(o.c, axis))
  {
  }

  lemma StretchedAlong(v: real, s: Vec, q: Vec, axis: Axis)
    ensures Stretched(ScaledAlong(v, s, axis), q) == Stretched(s, Longer(v, q, axis))
  {
    assert (s.x * v) * q.x == s.x * (v * q.x) && (s.y * v) * q.y == s.y * (v * q.y) && (s.z * v) * q.z == s.z * (v * q.z);
  }

  lemma StretchedAll(v: real, s: Vec, q: Vec)
    ensures Stretched(Scaled(v, s), q) == Stretched(s, Scaled(v, q))
  {
    assert (v * s.x) * q.x == s.x * (v * q.x) && (v * s.y) * q.y == s.y * (v * q.y) && (v * s.z) * q.z == s.z * (v * q.z);
  }

  function Next(axis: Axis): Axis { match axis case X => Y case Y => Z case Z => X }

  /** Turning around an axis leaves a point's place along it alone, and turns the next axis towards the one after that. */
  lemma TurnsRight(p: Vec, c: real, s: real, axis: Axis)
    ensures var q, next, last := Turned(p, c, s, axis), Next(axis), Next(Next(axis));
            && Along(q, axis) == Along(p, axis)
            && Along(q, next) == c * Along(p, next) - s * Along(p, last)
            && Along(q, last) == s * Along(p, next) + c * Along(p, last)
  {
    match axis
    case X => assert Next(Next(X)) == Z;
    case Y => assert Next(Next(Y)) == X;
    case Z => assert Next(Next(Z)) == Y;
  }

  /** A quarter turn takes the next axis onto the one after it. */
  lemma QuarterTurn(axis: Axis)
    ensures Turned(Unit(axis), 0.0, 1.0, axis) == Unit(axis)
    ensures Turned(Unit(Next(axis)), 0.0, 1.0, axis) == Unit(Next(Next(axis)))
  {
  }

  /** A turned turtle puts a point where it would have put the point turned the other way round its own axis. */
  lemma TurnsPoints(o: Axes, c: real, s: real, axis: Axis, q: Vec)
    ensures Carried(TurnedAxes(o, c, s, axis), q) == Carried(o, Turned(q, c, -s, axis))
  {
    DotTurned(o.a, q, c, s, axis);
    DotTurned(o.b, q, c, s, axis);
    DotTurned(o.c, q, c, s, axis);
  }

  lemma DotTurned(p: Vec, q: Vec, c: real, s: real, axis: Axis)
    ensures Dot(Turned(p, c, s, axis), q) == Dot(p, Turned(q, c, -s, axis))
  {
  }

  /** The axes have length one and are at right angles. */
  ghost predicate Rigid(o: Axes) {
    && Dot(o.a, o.a) == 1.0 && Dot(o.b, o.b) == 1.0 && Dot(o.c, o.c) == 1.0
    && Dot(o.a, o.b) == 0.0 && Dot(o.b, o.c) == 0.0 && Dot(o.c, o.a) == 0.0
  }

  ghost predicate Trigonometric(lib: Library) { forall v: real :: lib.cos(v) * lib.cos(v) + lib.sin(v) * lib.sin(v) == 1.0 }

  /** Turning keeps lengths and angles. */
  lemma TurnKeepsDot(p: Vec, q: Vec, c: real, s: real, axis: Axis)
    requires c * c + s * s == 1.0
    ensures Dot(Turned(p, c, s, axis), Turned(q, c, s, axis)) == Dot(p, q)
  {
    match axis
    case X => AroundX(p, q, c, s);
    case Y => AroundY(p, q, c, s);
    case Z => AroundZ(p, q, c, s);
  }

  lemma AroundX(p: Vec, q: Vec, c: real, s: real)
    requires c * c + s * s == 1.0
    ensures Dot(Turned(p, c, s, X), Turned(q, c, s, X)) == Dot(p, q)
  {
    var a, b := Turned(p, c, s, X), Turned(q, c, s, X);
    InPlane(p.y, p.z, q.y, q.z, a.y, a.z, b.y, b.z, c, s);
  }

  lemma AroundY(p: Vec, q: Vec, c: real, s: real)
    requires c * c + s * s == 1.0
    ensures Dot(Turned(p, c, s, Y), Turned(q, c, s, Y)) == Dot(p, q)
  {
    var a, b := Turned(p, c, s, Y), Turned(q, c, s, Y);
    InPlane(p.z, p.x, q.z, q.x, a.z, a.x, b.z, b.x, c, s);
  }

  lemma AroundZ(p: Vec, q: Vec, c: real, s: real)
    requires c * c + s * s == 1.0
    ensures Dot(Turned(p, c, s, Z), Turned(q, c, s, Z)) == Dot(p, q)
  {
    var a, b := Turned(p, c, s, Z), Turned(q, c, s, Z);
    InPlane(p.x, p.y, q.x, q.y, a.x, a.y, b.x, b.y, c, s);
  }

  lemma InPlane(a: real, b: real, d: real, e: real, a': real, b': real, d': real, e': real, c: real, s: real)
    requires c * c + s * s == 1.0 && a' == c * a - s * b && b' == s * a + c * b && d' == c * d - s * e && e' == s * d + c * e
    ensures a' * d' + b' * e' == a * d + b * e
  {
    Circle(a, b, d, e, c, s);
  }

  lemma Circle(a: real, b: real, d: real, e: real, c: real, s: real)
    requires c * c + s * s == 1.0
    ensures (c * a - s * b) * (c * d - s * e) + (s * a + c * b) * (s * d + c * e) == a * d + b * e
  {
    assert (c * a - s * b) * (c * d - s * e) + (s * a + c * b) * (s * d + c * e) == (c * c + s * s) * (a * d) + (c * c + s * s) * (b * e);
  }

  lemma MovedRigid(lib: Library, c: Command, t: Turtle)
    requires Trigonometric(lib) && Rigid(t.orientation)
    ensures Rigid(Moved(lib, c, t).orientation)
  {
    if c.op.Rotate? {
      var o, v := t.orientation, lib.number(c.arg);
      var x, y := lib.cos(v), lib.sin(v);
      assert x * x + y * y == 1.0;
      TurnKeepsDot(o.a, o.a, x, y, c.op.axis);
      TurnKeepsDot(o.b, o.b, x, y, c.op.axis);
      TurnKeepsDot(o.c, o.c, x, y, c.op.axis);
      TurnKeepsDot(o.a, o.b, x, y, c.op.axis);
      TurnKeepsDot(o.b, o.c, x, y, c.op.axis);
      TurnKeepsDot(o.c, o.a, x, y, c.op.axis);
    }
  }

  function Placed(c: Command, t: Turtle): Shape { Shape(t, c.arg == "connect") }

  /** What one execution adds to the scene, how many random numbers have been drawn, and the steps it takes. */
  datatype Outcome = Outcome(shapes: seq<Shape>, drawn: nat, steps: nat)

  /** A program, the random numbers, and the library. */
  datatype World = World(rules: seq<Rule>, random: nat -> real, lib: Library)

  ghost predicate GoodWorld(w: World) {
    w.rules != [] && forall n: nat :: 0.0 <= w.random(n) <= 1.0
  }

  function Callee(w: World, name: string, drawn: nat): (i: nat)
    requires GoodWorld(w)
    ensures i < |w.rules|
  {
    Picked(w.rules, name, w.random(drawn), 0)
  }

  /**
   Runs rule `rule` from command `pc` with `depth` levels of calls left. A call draws a rule, runs it with a copy
   of the turtle and goes on with its own turtle; without a level left it is skipped.
   */
  function Exec(w: World, rule: nat, pc: nat, t: Turtle, depth: nat, drawn: nat): Outcome
    requires GoodWorld(w) && rule < |w.rules|
    decreases depth, |w.rules[rule].commands| - pc
  {
    if pc >= |w.rules[rule].commands| then Outcome([], drawn, 1)
    else
      var c := w.rules[rule].commands[pc];
      if c.op == PlaceShape then
        var rest := Exec(w, rule, pc + 1, t, depth, drawn);
        Outcome([Placed(c, t)] + rest.shapes, rest.drawn, 1 + rest.steps)
      else if c.op == CallRule && depth > 0 then
        var called := Exec(w, Callee(w, c.arg, drawn), 0, t, depth - 1, drawn + 1);
        var rest := Exec(w, rule, pc + 1, t, depth, called.drawn);
        Outcome(called.shapes + rest.shapes, rest.drawn, 1 + called.steps + rest.steps)
      else
        var rest := Exec(w, rule, pc + 1, Moved(w.lib, c, t), depth, drawn);
        Outcome(rest.shapes, rest.drawn, 1 + rest.steps)
  }

  /** Whatever the program does, no shape of the scene is sheared: every turtle that places one has rigid axes. */
  lemma {:induction false} SceneRigid(w: World, rule: nat, pc: nat, t: Turtle, depth: nat, drawn: nat)
    requires GoodWorld(w) && Trigonometric(w.lib) && rule < |w.rules| && Rigid(t.orientation)
    ensures forall shape | shape in Exec(w, rule, pc, t, depth, drawn).shapes :: Rigid(shape.turtle.orientation)
    decreases depth, |w.rules[rule].commands| - pc
  {
    if pc < |w.rules[rule].commands| {
      var c := w.rules[rule].commands[pc];
      if c.op == PlaceShape {
        SceneRigid(w, rule, pc + 1, t, depth, drawn);
      } else if c.op == CallRule && depth > 0 {
        var called := Exec(w, Callee(w, c.arg, drawn), 0, t, depth - 1, drawn + 1);
        SceneRigid(w, Callee(w, c.arg, drawn), 0, t, depth - 1, drawn + 1);
        SceneRigid(w, rule, pc + 1, t, depth, called.drawn);
      } else {
        MovedRigid(w.lib, c, t);
        SceneRigid(w, rule, pc + 1, Moved(w.lib, c, t), depth, drawn);
      }
    }
  }

  /**
   A rule that places a shape, calls a rule that moves on and places one, and then moves and places a third: the called
   rule starts where its caller stands and its moves end with it. Without a level for the call it is left out.
   */
  lemma CallExample(w: World, x: real, y: real)
    requires GoodWorld(w) && |w.rules| == 2
    requires w.rules[0] == Rule("main", 1, [Command(PlaceShape, ""), Command(CallRule, "part"), Command(Translate(X), "x"), Command(PlaceShape, "connect")])
    requires w.rules[1] == Rule("part", 1, [Command(Translate(X), "y"), Command(PlaceShape, "")])
    requires w.lib.number("x") == x && w.lib.number("y") == y
    ensures var at := (v: real) => START.(position := Vec(v, 0.0, 0.0));
            && Exec(w, 0, 0, START, 1, 0).shapes == [Shape(at(0.0), false), Shape(at(y), false), Shape(at(x), true)]
            && Exec(w, 0, 0, START, 0, 0).shapes == [Shape(at(0.0), false), Shape(at(x), true)]
  {
    var at := (v: real) => START.(position := Vec(v, 0.0, 0.0));
    var main, part := w.rules[0].commands, w.rules[1].commands;
    PartCallee(w);
    assert Moved(w.lib, main[2], START) == at(x) && Moved(w.lib, part[0], START) == at(y);
    var called := Exec(w, 1, 0, START, 0, 1);
    assert Exec(w, 1, 1, at(y), 0, 1).shapes == [Shape(at(y), false)] by { assert Exec(w, 1, 2, at(y), 0, 1).shapes == []; }
    assert called.shapes == [Shape(at(y), false)];
    forall depth, drawn: nat | depth <= 1 ensures Exec(w, 0, 2, START, depth, drawn).shapes == [Shape(at(x), true)] {
      assert Exec(w, 0, 4, at(x), depth, drawn).shapes == [];
      assert Exec(w, 0, 3, at(x), depth, drawn).shapes == [Shape(at(x), true)];
    }
    assert Exec(w, 0, 1, START, 1, 0).shapes == [Shape(at(y), false)] + [Shape(at(x), true)];
    assert Moved(w.lib, main[1], START) == START;
    assert Exec(w, 0, 1, START, 0, 0).shapes == [Shape(at(x), true)];
  }

  lemma PartCallee(w: World)
    requires GoodWorld(w) && |w.rules| == 2 && w.rules[0].name == "main" && w.rules[1].name == "part" && w.rules[1].weight == 1
    ensures Callee(w, "part", 0) == 1
  {
    assert |"main"| == 4 && "main"[0] == 'm' && "part"[0] == 'p';
    assert Picked(w.rules, "part", w.random(0), 0) == Picked(w.rules, "part", w.random(0), 1);
  }

  /** A bound on the steps of one rule with at most `m` commands: a factor of `m` per level. */
  function Bound(m: nat, depth: nat): nat {
    if depth == 0 then m + 1 else m * (1 + Bound(m, depth - 1)) + 1
  }

  /** What each of the commands of a rule may cost. */
  function Each(m: nat, depth: nat): nat { 1 + if depth == 0 then 0 else Bound(m, depth - 1) }

  lemma {:induction false} StepsBounded(w: World, rule: nat, pc: nat, t: Turtle, depth: nat, drawn: nat, m: nat)
    requires GoodWorld(w) && rule < |w.rules| && pc <= |w.rules[rule].commands|
    requires forall i | 0 <= i < |w.rules| :: |w.rules[i].commands| <= m
    ensures Exec(w, rule, pc, t, depth, drawn).steps <= (|w.rules[rule].commands| - pc) * Each(m, depth) + 1
    decreases depth, |w.rules[rule].commands| - pc
  {
    var left := |w.rules[rule].commands| - pc;
    if left > 0 {
      var c := w.rules[rule].commands[pc];
      OneMore(left, Each(m, depth));
      if c.op == PlaceShape {
        StepsBounded(w, rule, pc + 1, t, depth, drawn, m);
      } else if c.op == CallRule && depth > 0 {
        var callee := Callee(w, c.arg, drawn);
        var called := Exec(w, callee, 0, t, depth - 1, drawn + 1);
        RuleBounded(w, callee, t, depth - 1, drawn + 1, m);
        StepsBounded(w, rule, pc + 1, t, depth, called.drawn, m);
      } else {
        StepsBounded(w, rule, pc + 1, Moved(w.lib, c, t), depth, drawn, m);
      }
    }
  }

  lemma OneMore(left: nat, each: nat)
    requires left > 0
    ensures left * each == (left - 1) * each + each
  {
  }

  /** A whole rule takes at most `Bound` steps, whatever is drawn. */
  lemma {:induction false} RuleBounded(w: World, rule: nat, t: Turtle, depth: nat, drawn: nat, m: nat)
    requires GoodWorld(w) && rule < |w.rules|
    requires forall i | 0 <= i < |w.rules| :: |w.rules[i].commands| <= m
    ensures Exec(w, rule, 0, t, depth, drawn).steps <= Bound(m, depth)
    decreases depth, |w.rules[rule].commands| + 1
  {
    StepsBounded(w, rule, 0, t, depth, drawn, m);
    AtMost(|w.rules[rule].commands|, m, Each(m, depth));
    assert m * 1 == m;
  }

  lemma AtMost(a: nat, b: nat, c: nat)
    requires a <= b
    ensures a * c <= b * c
  {
  }

  // ---------------------------------------------------------------- the stack machine

  /** A frame refers to its turtle mesh by address. */
  datatype Frame = Frame(pc: nat, position: Vec, scale: Vec, mesh: nat, rule: nat)

  /** The meshes currently allocated. */
  type Heap = map<nat, Axes>

  function TurtleOf(f: Frame, heap: Heap): Turtle
    requires f.mesh in heap
  {
    Turtle(heap[f.mesh], f.position, f.scale)
  }

  /** Every frame has a rule and a mesh of its own, and there are no other meshes. */
  ghost predicate StackOk(w: World, stack: seq<Frame>, heap: Heap) {
    if stack == [] then heap == map[]
    else
      var f := stack[|stack| - 1];
      f.mesh in heap && f.rule < |w.rules| && StackOk(w, stack[..|stack| - 1], heap - {f.mesh})
  }

  /** One outcome after another. */
  function After(first: Outcome, second: Outcome): Outcome {
    Outcome(first.shapes + second.shapes, second.drawn, first.steps + second.steps)
  }

  /** What the frames from the top down have still to do. */
  ghost function Pending(w: World, stack: seq<Frame>, heap: Heap, maxdepth: nat, drawn: nat): Outcome
    requires GoodWorld(w) && StackOk(w, stack, heap) && |stack| <= maxdepth
    decreases |stack|
  {
    if stack == [] then Outcome([], drawn, 0)
    else
      var f := stack[|stack| - 1];
      var top := Exec(w, f.rule, f.pc, TurtleOf(f, heap), maxdepth - |stack|, drawn);
      After(top, Pending(w, stack[..|stack| - 1], heap - {f.mesh}, maxdepth, top.drawn))
  }

  /** The machine's state is sound and has `left` to do. */
  ghost predicate Doing(w: World, stack: seq<Frame>, heap: Heap, maxdepth: nat, drawn: nat, left: Outcome) {
    && GoodWorld(w) && StackOk(w, stack, heap) && |stack| <= maxdepth
    && Pending(w, stack, heap, maxdepth, drawn) == left
  }

  /** The top frame first, then the frames below it. */
  lemma Top(w: World, below: seq<Frame>, f: Frame, heap: Heap, maxdepth: nat, drawn: nat)
    requires GoodWorld(w) && |below| < maxdepth
    ensures StackOk(w, below + [f], heap) <==> f.mesh in heap && f.rule < |w.rules| && StackOk(w, below, heap - {f.mesh})
    ensures StackOk(w, below + [f], heap) ==>
              var top := Exec(w, f.rule, f.pc, TurtleOf(f, heap), maxdepth - |below| - 1, drawn);
              Pending(w, below + [f], heap, maxdepth, drawn) == After(top, Pending(w, below, heap - {f.mesh}, maxdepth, top.drawn))
  {
    var stack := below + [f];
    assert stack[..|stack| - 1] == below && stack[|below|] == f;
  }

  lemma TopFrame(w: World, below: seq<Frame>, f: Frame, heap: Heap, maxdepth: nat, drawn: nat, left: Outcome)
    requires Doing(w, below + [f], heap, maxdepth, drawn, left)
    ensures f.mesh in heap && f.rule < |w.rules|
  {
    Top(w, below, f, heap, maxdepth, drawn);
  }

  /** A finished frame is dropped and its mesh, which nothing else uses, is freed. */
  lemma ReturnStep(w: World, below: seq<Frame>, f: Frame, heap: Heap, maxdepth: nat, drawn: nat, left: Outcome)
    requires Doing(w, below + [f], heap, maxdepth, drawn, left) && f.rule < |w.rules| && f.pc >= |w.rules[f.rule].commands|
    ensures f.mesh in heap && left.steps > 0
    ensures Doing(w, below, heap - {f.mesh}, maxdepth, drawn, left.(steps := left.steps - 1))
  {
    Top(w, below, f, heap, maxdepth, drawn);
    var rest := Pending(w, below, heap - {f.mesh}, maxdepth, drawn);
    assert [] + rest.shapes == rest.shapes;
  }

  /** What is left after the command `c` of the top frame has been carried out in its frame. */
  function Rest(left: Outcome, c: Command): Outcome
    requires left.steps > 0 && (c.op == PlaceShape ==> left.shapes != [])
  {
    Outcome(if c.op == PlaceShape then left.shapes[1..] else left.shapes, left.drawn, left.steps - 1)
  }

  /** A command that stays in its frame. */
  lemma StayStep(w: World, below: seq<Frame>, f: Frame, c: Command, next: Turtle, heap: Heap, maxdepth: nat, drawn: nat, left: Outcome)
    requires Doing(w, below + [f], heap, maxdepth, drawn, left)
    requires f.mesh in heap && f.rule < |w.rules| && f.pc < |w.rules[f.rule].commands| && c == w.rules[f.rule].commands[f.pc]
    requires !(c.op == CallRule && maxdepth > |below| + 1)
    requires next == if c.op == PlaceShape then TurtleOf(f, heap) else Moved(w.lib, c, TurtleOf(f, heap))
    ensures left.steps > 0 && (c.op == PlaceShape ==> left.shapes != [] && left.shapes[0] == Placed(c, next))
    ensures Doing(w, below + [Frame(f.pc + 1, next.position, next.scale, f.mesh, f.rule)], heap[f.mesh := next.orientation],
              maxdepth, drawn, Rest(left, c))
  {
    var f' := Frame(f.pc + 1, next.position, next.scale, f.mesh, f.rule);
    var heap' := heap[f.mesh := next.orientation];
    assert heap' - {f.mesh} == heap - {f.mesh};
    Top(w, below, f, heap, maxdepth, drawn);
    Top(w, below, f', heap', maxdepth, drawn);
    assert TurtleOf(f', heap') == next;
    var depth := maxdepth - |below| - 1;
    StayExec(w, f.rule, f.pc, TurtleOf(f, heap), depth, drawn);
    var rest := Exec(w, f.rule, f.pc + 1, next, depth, drawn);
    RestAfter(c, next, rest, Pending(w, below, heap - {f.mesh}, maxdepth, rest.drawn));
  }

  lemma RestAfter(c: Command, t: Turtle, rest: Outcome, under: Outcome)
    ensures var first := Outcome((if c.op == PlaceShape then [Placed(c, t)] else []) + rest.shapes, rest.drawn, 1 + rest.steps);
            var left := After(first, under);
            && (c.op == PlaceShape ==> left.shapes != [] && left.shapes[0] == Placed(c, t))
            && Rest(left, c) == After(rest, under)
  {
    if c.op == PlaceShape {
      assert (([Placed(c, t)] + rest.shapes) + under.shapes)[1..] == rest.shapes + under.shapes;
    } else {
      assert [] + rest.shapes == rest.shapes;
    }
  }

  /** One step of the recursive meaning. */
  lemma StayExec(w: World, rule: nat, pc: nat, t: Turtle, depth: nat, drawn: nat)
    requires GoodWorld(w) && rule < |w.rules| && pc < |w.rules[rule].commands|
    requires !(w.rules[rule].commands[pc].op == CallRule && depth > 0)
    ensures var c := w.rules[rule].commands[pc];
            var rest := Exec(w, rule, pc + 1, if c.op == PlaceShape then t else Moved(w.lib, c, t), depth, drawn);
            Exec(w, rule, pc, t, depth, drawn) ==
              Outcome((if c.op == PlaceShape then [Placed(c, t)] else []) + rest.shapes, rest.drawn, 1 + rest.steps)
  {
    var c := w.rules[rule].commands[pc];
    var rest := Exec(w, rule, pc + 1, if c.op == PlaceShape then t else Moved(w.lib, c, t), depth, drawn);
    assert [] + rest.shapes == rest.shapes;
  }

  /** A call pushes a frame with a mesh of its own that copies the caller's. */
  lemma CallStep(w: World, below: seq<Frame>, f: Frame, g: Frame, c: Command, heap: Heap, maxdepth: nat, drawn: nat, left: Outcome)
    requires Doing(w, below + [f], heap, maxdepth, drawn, left)
    requires f.mesh in heap && f.rule < |w.rules| && f.pc < |w.rules[f.rule].commands| && c == w.rules[f.rule].commands[f.pc]
    requires c.op == CallRule && maxdepth > |below| + 1 && g.mesh !in heap
    requires g == Frame(0, f.position, f.scale, g.mesh, Callee(w, c.arg, drawn))
    ensures left.steps > 0
    ensures Doing(w, below + [f.(pc := f.pc + 1)] + [g], heap[g.mesh := heap[f.mesh]], maxdepth, drawn + 1, left.(steps := left.steps - 1))
  {
    var f' := f.(pc := f.pc + 1);
    var heap' := heap[g.mesh := heap[f.mesh]];
    assert heap' - {g.mesh} == heap;
    var depth := maxdepth - |below| - 1;
    var t := TurtleOf(f, heap);
    var called := Exec(w, g.rule, 0, t, depth - 1, drawn + 1);
    var rest := Exec(w, f.rule, f.pc + 1, t, depth, called.drawn);
    Top(w, below, f, heap, maxdepth, drawn);
    Top(w, below, f', heap, maxdepth, called.drawn);
    Top(w, below + [f'], g, heap', maxdepth, drawn + 1);
    assert Exec(w, f.rule, f.pc, t, depth, drawn) == Outcome(called.shapes + rest.shapes, rest.drawn, 1 + called.steps + rest.steps);
    Associate(called, rest, Pending(w, below, heap - {f.mesh}, maxdepth, rest.drawn));
  }

  lemma Associate(a: Outcome, b: Outcome, c: Outcome)
    ensures After(a, After(b, c)) == After(After(a, b), c)
  {
  }

  // ---------------------------------------------------------------- accounting for the meshes

  function FirstAddresses(n: nat): multiset<nat> {
    if n == 0 then multiset{} else FirstAddresses(n - 1) + multiset{n - 1}
  }

  lemma {:induction false} AddressesBelow(n: nat, a: nat)
    ensures FirstAddresses(n)[a] == if a < n then 1 else 0
  {
    if n > 0 { AddressesBelow(n - 1, a); }
  }

  /** Each of the first `n` meshes has been freed once, or is allocated and has not been freed. */
  ghost predicate Accounted(freed: multiset<nat>, heap: Heap, n: nat) {
    freed + multiset(heap.Keys) == FirstAddresses(n)
  }

  lemma Free(freed: multiset<nat>, heap: Heap, n: nat, mesh: nat)
    requires Accounted(freed, heap, n) && mesh in heap
    ensures Accounted(freed + multiset{mesh}, heap - {mesh}, n)
  {
    assert heap.Keys == (heap - {mesh}).Keys + {mesh};
  }

  lemma Allocate(freed: multiset<nat>, heap: Heap, n: nat, axes: Axes)
    requires Accounted(freed, heap, n)
    ensures n !in heap && Accounted(freed, heap[n := axes], n + 1)
  {
    AddressesBelow(n, n);
    assert FirstAddresses(n)[n] == freed[n] + multiset(heap.Keys)[n];
    assert heap[n := axes].Keys == heap.Keys + {n};
  }

  // ---------------------------------------------------------------- the loop

  /** Writes one frame; the stack up to it is what it was below, and the new frame. */
  method SetTop(stack: array<Frame>, top: nat, f: Frame)
    requires top < stack.Length
    modifies stack
    ensures stack[..top + 1] == old(stack[..top]) + [f]
  {
    stack[top] := f;
  }

  /** The top frame goes on behind the call, and the called rule gets a frame of its own. */
  method PushFrame(stack: array<Frame>, top: nat, f: Frame, g: Frame)
    requires top + 1 < stack.Length
    modifies stack
    ensures stack[..top + 2] == old(stack[..top]) + [f] + [g]
  {
    SetTop(stack, top, f);
    SetTop(stack, top + 1, g);
  }

  lemma Shift(a: seq<Shape>, b: seq<Shape>)
    requires b != []
    ensures a + [b[0]] + b[1..] == a + b
  {
  }

  /**
   The interpreter loop. It ends, never leaves the stack, frees every mesh it allocated exactly once, and builds the
   scene of the recursive meaning.
   */
  method Interpret(w: World, maxdepth: nat) returns (scene: seq<Shape>, ghost steps: nat, ghost freed: multiset<nat>, ghost meshes: nat)
    requires GoodWorld(w) && maxdepth >= 1
    ensures scene == Exec(w, 0, 0, START, maxdepth - 1, 0).shapes
    ensures steps == Exec(w, 0, 0, START, maxdepth - 1, 0).steps && freed == FirstAddresses(meshes)
  {
    var heap: Heap := map[0 := START.orientation];
    var nextMesh := 1;
    var drawn := 0;
    var first := Frame(0, START.position, START.scale, 0, 0);
    var stack := new Frame[maxdepth](_ => first);
    var stackptr := 0;
    scene := [];
    steps, freed := 0, multiset{};
    ghost var meaning := Exec(w, 0, 0, START, maxdepth - 1, 0);
    ghost var left := meaning;
    Starts(w, first, heap, maxdepth);
    assert stack[..1] == [first];
    while stackptr >= 0
      invariant -1 <= stackptr < maxdepth
      invariant Doing(w, stack[..stackptr + 1], heap, maxdepth, drawn, left)
      invariant scene + left.shapes == meaning.shapes && steps + left.steps == meaning.steps
      invariant Accounted(freed, heap, nextMesh)
      decreases left.steps
    {
      var frame := stack[stackptr];
      ghost var below := stack[..stackptr];
      assert stack[..stackptr + 1] == below + [frame];
      TopFrame(w, below, frame, heap, maxdepth, drawn, left);
      var rule := w.rules[frame.rule];
      steps := steps + 1;
      if frame.pc >= |rule.commands| {
        ReturnStep(w, below, frame, heap, maxdepth, drawn, left);
        Free(freed, heap, nextMesh, frame.mesh);
        freed := freed + multiset{frame.mesh};
        heap := heap - {frame.mesh};
        stackptr := stackptr - 1;
        left := left.(steps := left.steps - 1);
        continue;
      }
      var c := rule.commands[frame.pc];
      var turtle := TurtleOf(frame, heap);
      if c.op == CallRule && stackptr < maxdepth - 1 {
        Allocate(freed, heap, nextMesh, heap[frame.mesh]);
        var callee := PickRule(w.rules, c.arg, w.random(drawn));
        CallStep(w, below, frame, Frame(0, frame.position, frame.scale, nextMesh, callee), c, heap, maxdepth, drawn, left);
        PushFrame(stack, stackptr, frame.(pc := frame.pc + 1), Frame(0, frame.position, frame.scale, nextMesh, callee));
        stackptr := stackptr + 1;
        heap := heap[nextMesh := heap[frame.mesh]];
        nextMesh, drawn := nextMesh + 1, drawn + 1;
        left := left.(steps := left.steps - 1);
      } else {
        var next := if c.op == PlaceShape then turtle else Moved(w.lib, c, turtle);
        StayStep(w, below, frame, c, next, heap, maxdepth, drawn, left);
        if c.op == PlaceShape {
          Shift(scene, left.shapes);
          scene := scene + [Placed(c, turtle)];
        }
        SetTop(stack, stackptr, Frame(frame.pc + 1, next.position, next.scale, frame.mesh, frame.rule));
        Rewritten(freed, heap, nextMesh, frame.mesh, next.orientation);
        heap := heap[frame.mesh := next.orientation];
        left := Rest(left, c);
      }
    }
    NothingLeft(w, heap, maxdepth, drawn, left);
    meshes := nextMesh;
  }

  lemma Rewritten(freed: multiset<nat>, heap: Heap, n: nat, mesh: nat, axes: Axes)
    requires Accounted(freed, heap, n) && mesh in heap
    ensures Accounted(freed, heap[mesh := axes], n)
  {
    assert heap[mesh := axes].Keys == heap.Keys;
  }

  lemma Starts(w: World, first: Frame, heap: Heap, maxdepth: nat)
    requires GoodWorld(w) && maxdepth >= 1 && first == Frame(0, START.position, START.scale, 0, 0) && heap == map[0 := START.orientation]
    ensures Doing(w, [first], heap, maxdepth, 0, Exec(w, 0, 0, START, maxdepth - 1, 0)) && Accounted(multiset{}, heap, 1)
  {
    assert heap - {0} == map[];
    Top(w, [], first, heap, maxdepth, 0);
    assert [] + [first] == [first];
    var all := Exec(w, 0, 0, START, maxdepth - 1, 0);
    assert all.shapes + [] == all.shapes;
    assert heap.Keys == {0};
    assert FirstAddresses(1) == FirstAddresses(0) + multiset{0};
  }

  lemma NothingLeft(w: World, heap: Heap, maxdepth: nat, drawn: nat, left: Outcome)
    requires Doing(w, [], heap, maxdepth, drawn, left)
    ensures heap == map[] && left.shapes == [] && left.steps == 0
  {
  }
}
