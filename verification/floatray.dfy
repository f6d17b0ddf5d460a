/** The traversal loop of raycast.ts as written over JavaScript numbers,
    for a direction component that may be the negative zero `-0`. The exact
    model in `Ray` reads every zero as `+0`; here a `-0` brings `-Infinity`
    and `NaN` into the loop's comparisons. Only the visited cells are
    recorded: the faces and the radius rescale play no part. */
module FloatRay {
  import opened Base
  import opened Keys
  import Ray

  /** A JavaScript number inside the loop: finite, an infinity, or NaN. */
  datatype Num = Real(v: real) | PosInf | NegInf | NaN

  /** A direction component: a real number (`0.0` is `+0`) or `-0`. */
  datatype Dir = D(v: real) | NegZero

  /** JavaScript `a < b`: false whenever either side is NaN. */
  predicate Lt(a: Num, b: Num) {
    if a.NaN? || b.NaN? then false
    else if a.NegInf? then !b.NegInf?
    else if a.PosInf? then false
    else if b.PosInf? then true
    else if b.NegInf? then false
    else a.v < b.v
  }

  /** JavaScript `t > radius` for a finite radius. */
  predicate Gt(t: Num, radius: real) {
    match t
    case Real(v) => v > radius
    case PosInf => true
    case NegInf => false
    case NaN => false
  }

  /** JavaScript `a + b`. */
  function Plus(a: Num, b: Num): Num {
    if a.NaN? || b.NaN? then NaN
    else if (a.PosInf? && b.NegInf?) || (a.NegInf? && b.PosInf?) then NaN
    else if a.PosInf? || b.PosInf? then PosInf
    else if a.NegInf? || b.NegInf? then NegInf
    else Real(a.v + b.v)
  }

  predicate IsZero(d: Dir) {
    d.NegZero? || d.v == 0.0
  }

  /** signum: `-0 > 0` and `-0 < 0` are both false, so `-0` steps by 0. */
  function Signum(d: Dir): int {
    match d
    case D(v) => Ray.Signum(v)
    case NegZero => 0
  }

  /** intbound: `-0 < 0` is false, so `-0` takes the second branch, where
      the positive `1 - mod(s, 1)` over `-0` is `-Infinity`. */
  function IntBound(s: real, d: Dir): Num {
    match d
    case NegZero => NegInf
    case D(v) =>
      match Ray.IntBound(s, v)
      case Fin(t) => Real(t)
      case PosInf => PosInf
  }

  /** `stepX / dx`: both `0 / 0` and `0 / -0` are NaN. */
  function Delta(d: Dir): Num {
    match d
    case NegZero => NaN
    case D(v) => if v == 0.0 then NaN else Real((Ray.Signum(v) as real) / v)
  }

  datatype Params = Params(step: Coord, dx: Num, dy: Num, dz: Num, radius: real, maxSize: Coord)

  /** The loop variables: the current cell and each axis's next crossing. */
  datatype Loop = Loop(cell: Coord, tx: Num, ty: Num, tz: Num)

  function StepX(p: Params, c: Loop): Option<Loop> {
    if Gt(c.tx, p.radius) then None
    else Some(c.(cell := Ray.Bump(c.cell, Ray.X, p.step.x), tx := Plus(c.tx, p.dx)))
  }

  function StepY(p: Params, c: Loop): Option<Loop> {
    if Gt(c.ty, p.radius) then None
    else Some(c.(cell := Ray.Bump(c.cell, Ray.Y, p.step.y), ty := Plus(c.ty, p.dy)))
  }

  function StepZ(p: Params, c: Loop): Option<Loop> {
    if Gt(c.tz, p.radius) then None
    else Some(c.(cell := Ray.Bump(c.cell, Ray.Z, p.step.z), tz := Plus(c.tz, p.dz)))
  }

  /** The loop body after a rejected callback: the nested comparisons pick
      an axis, and `None` is the `break` past the radius. */
  function Step(p: Params, c: Loop): Option<Loop> {
    if Lt(c.tx, c.ty) then
      if Lt(c.tx, c.tz) then StepX(p, c) else StepZ(p, c)
    else if Lt(c.ty, c.tz) then StepY(p, c) else StepZ(p, c)
  }

  /** The cells the callback is called with, in order, over at most `fuel`
      passes of the loop (with a `-0` the loop need not end). */
  function Visits(p: Params, cb: Coord -> bool, c: Loop, fuel: nat): seq<Coord>
    decreases fuel
  {
    if fuel == 0 || !Ray.InsideAlongTravel(c.cell, p.step, p.maxSize) then []
    else if Ray.InWorld(c.cell, p.maxSize) && cb(c.cell) then [c.cell]
    else
      var here := if Ray.InWorld(c.cell, p.maxSize) then [c.cell] else [];
      match Step(p, c)
      case None => here
      case Some(n) => here + Visits(p, cb, n, fuel - 1)
  }

  /** raycast as written, with `radius` already in direction units: a zero
      direction (`-0 === 0` holds) throws; otherwise the visited cells. */
  function Raycast(origin: Ray.Vec, dx: Dir, dy: Dir, dz: Dir, radius: real, maxSize: Coord,
                   cb: Coord -> bool, fuel: nat): Result<seq<Coord>, Ray.RangeError>
  {
    if IsZero(dx) && IsZero(dy) && IsZero(dz) then Err(Ray.ZeroDirection)
    else
      var p := Params(Coord(Signum(dx), Signum(dy), Signum(dz)), Delta(dx), Delta(dy), Delta(dz), radius, maxSize);
      var start := Loop(Coord(origin.x.Floor, origin.y.Floor, origin.z.Floor),
                        IntBound(origin.x, dx), IntBound(origin.y, dy), IntBound(origin.z, dz));
      Ok(Visits(p, cb, start, fuel))
  }

  /** Once the Y crossing is NaN every comparison with it is false, so every
      later step goes along Z and X never moves again. */
  lemma {:induction false} NaNCrossingFreezesX(p: Params, cb: Coord -> bool, c: Loop, fuel: nat)
    requires c.ty.NaN?
    ensures forall i :: 0 <= i < |Visits(p, cb, c, fuel)| ==> Visits(p, cb, c, fuel)[i].x == c.cell.x
    decreases fuel
  {
    if fuel > 0 && Ray.InsideAlongTravel(c.cell, p.step, p.maxSize) && !(Ray.InWorld(c.cell, p.maxSize) && cb(c.cell)) {
      assert Step(p, c) == StepZ(p, c);
      match Step(p, c)
      case None =>
      case Some(n) =>
        NaNCrossingFreezesX(p, cb, n, fuel - 1);
    }
  }

  /** A level gaze, where the vertical component is `-0`: the first step
      goes along Y by zero and calls back on the start cell a second time,
      and no visited cell ever leaves the start cell's X column. */
  lemma NegativeZeroYNeverStepsX(origin: Ray.Vec, dx: real, dz: real, radius: real, maxSize: Coord,
                                 cb: Coord -> bool, fuel: nat)
    requires dx != 0.0 || dz != 0.0
    ensures Raycast(origin, D(dx), NegZero, D(dz), radius, maxSize, cb, fuel).Ok?
    ensures var vs := Raycast(origin, D(dx), NegZero, D(dz), radius, maxSize, cb, fuel).value;
      forall i :: 0 <= i < |vs| ==> vs[i].x == origin.x.Floor
    ensures var vs := Raycast(origin, D(dx), NegZero, D(dz), radius, maxSize, cb, fuel).value;
      var start := Coord(origin.x.Floor, origin.y.Floor, origin.z.Floor);
      fuel >= 2 && Ray.InWorld(start, maxSize) && !cb(start) ==> |vs| >= 2 && vs[0] == start && vs[1] == start
  {
    var p := Params(Coord(Signum(D(dx)), 0, Signum(D(dz))), Delta(D(dx)), NaN, Delta(D(dz)), radius, maxSize);
    var start := Loop(Coord(origin.x.Floor, origin.y.Floor, origin.z.Floor),
                      IntBound(origin.x, D(dx)), NegInf, IntBound(origin.z, D(dz)));
    assert Raycast(origin, D(dx), NegZero, D(dz), radius, maxSize, cb, fuel) == Ok(Visits(p, cb, start, fuel));
    var next := start.(ty := NaN);
    assert Ray.Bump(start.cell, Ray.Y, 0) == start.cell;
    assert Step(p, start) == Some(next);
    if fuel > 0 && Ray.InsideAlongTravel(start.cell, p.step, maxSize) && !(Ray.InWorld(start.cell, maxSize) && cb(start.cell)) {
      var here := if Ray.InWorld(start.cell, maxSize) then [start.cell] else [];
      assert Visits(p, cb, start, fuel) == here + Visits(p, cb, next, fuel - 1);
      NaNCrossingFreezesX(p, cb, next, fuel - 1);
      if fuel >= 2 && Ray.InWorld(start.cell, maxSize) {
        assert Visits(p, cb, next, fuel - 1)[0] == start.cell;
      }
    }
  }
  // ---------------------------------------------------------------------
  // Agreement with the exact model

  /** The exact model's `+Infinity`-or-real as a JavaScript number. */
  function Embed(e: Ray.Ext): Num {
    match e
    case Fin(t) => Real(t)
    case PosInf => PosInf
  }

  function LoopOf(cur: Ray.Cursor): Loop {
    Loop(cur.cell, Embed(cur.tMax.x), Embed(cur.tMax.y), Embed(cur.tMax.z))
  }

  /** The cells of a sequence of callback calls. */
  function Cells(vs: seq<Ray.Visit>): seq<Coord> {
    if vs == [] then [] else [vs[0].cell] + Cells(vs[1..])
  }

  /** The loop parameters agree with the exact ones on every moving axis. */
  predicate Matches(fp: Params, rp: Ray.Params) {
    && fp.step == rp.step && fp.radius == rp.radius && fp.maxSize == rp.maxSize
    && (rp.step.x != 0 ==> fp.dx == Real(rp.tDelta.x))
    && (rp.step.y != 0 ==> fp.dy == Real(rp.tDelta.y))
    && (rp.step.z != 0 ==> fp.dz == Real(rp.tDelta.z))
  }

  /** Without NaN or `-Infinity`, one pass of the float loop is one pass of
      the exact loop: the same axis, the same `break`, the same next cell. */
  lemma StepAgrees(fp: Params, rp: Ray.Params, cur: Ray.Cursor)
    requires Ray.ValidParams(rp) && Ray.ValidCursor(rp, cur) && Matches(fp, rp)
    ensures var a := Ray.ChooseAxis(cur.tMax);
      Step(fp, LoopOf(cur)) ==
        if Ray.Exceeds(Ray.TOf(cur.tMax, a), rp.radius) then None
        else Some(LoopOf(Ray.Advance(rp, cur, a)))
  {
    var a := Ray.ChooseAxis(cur.tMax);
    assert Lt(Embed(cur.tMax.x), Embed(cur.tMax.y)) == Ray.Less(cur.tMax.x, cur.tMax.y);
    assert Lt(Embed(cur.tMax.x), Embed(cur.tMax.z)) == Ray.Less(cur.tMax.x, cur.tMax.z);
    assert Lt(Embed(cur.tMax.y), Embed(cur.tMax.z)) == Ray.Less(cur.tMax.y, cur.tMax.z);
    assert Gt(Embed(Ray.TOf(cur.tMax, a)), rp.radius) == Ray.Exceeds(Ray.TOf(cur.tMax, a), rp.radius);
    assert Ray.CellOf(rp.step, Ray.X) == 0 <==> cur.tMax.x.PosInf?;
    assert Ray.CellOf(rp.step, Ray.Y) == 0 <==> cur.tMax.y.PosInf?;
    assert Ray.CellOf(rp.step, Ray.Z) == 0 <==> cur.tMax.z.PosInf?;
  }

  /** With more fuel than the exact loop's measure, the float loop calls
      back on exactly the cells of the exact loop, in the same order. */
  lemma {:induction false} VisitsAgree(fp: Params, rp: Ray.Params, cb: Coord -> bool, cur: Ray.Cursor, fuel: nat)
    requires Ray.ValidParams(rp) && Ray.ValidCursor(rp, cur) && Matches(fp, rp)
    requires fuel > Ray.Measure(rp, cur)
    ensures Visits(fp, cb, LoopOf(cur), fuel) == Cells(Ray.Run(rp, (c: Coord, f: Coord) => cb(c), cur).visits)
    decreases Ray.Measure(rp, cur)
  {
    var rcb := (c: Coord, f: Coord) => cb(c);
    var vs := Ray.Run(rp, rcb, cur).visits;
    if !Ray.InsideAlongTravel(cur.cell, rp.step, rp.maxSize) {
    } else if Ray.InWorld(cur.cell, rp.maxSize) && cb(cur.cell) {
      assert vs == [Ray.Visit(cur.cell, cur.face)];
      assert Cells(vs) == [cur.cell];
    } else {
      var inWorld := Ray.InWorld(cur.cell, rp.maxSize);
      var here := if inWorld then [Ray.Visit(cur.cell, cur.face)] else [];
      var fhere := if inWorld then [cur.cell] else [];
      assert Cells(here) == fhere;
      var a := Ray.ChooseAxis(cur.tMax);
      StepAgrees(fp, rp, cur);
      if Ray.Exceeds(Ray.TOf(cur.tMax, a), rp.radius) {
        assert vs == here;
      } else {
        var next := Ray.Advance(rp, cur, a);
        Ray.MeasureDecreases(rp, cur, a);
        VisitsAgree(fp, rp, cb, next, fuel - 1);
        var rest := Ray.Run(rp, rcb, next).visits;
        assert vs == here + rest;
        assert Visits(fp, cb, LoopOf(cur), fuel) == fhere + Cells(rest);
        CellsAppend(here, rest);
      }
    }
  }

  lemma CellsAppend(a: seq<Ray.Visit>, b: seq<Ray.Visit>)
    requires |a| <= 1
    ensures Cells(a + b) == Cells(a) + Cells(b)
  {
    if a != [] {
      assert a == [a[0]] && a[1..] == [];
      assert (a + b)[0] == a[0] && (a + b)[1..] == b;
      assert Cells(a) == [a[0].cell];
    } else {
      assert a + b == b;
    }
  }

  /** Fuel for which the float loop is sure to run as long as the exact
      loop does: one more than the exact loop's measure. */
  function Enough(origin: Ray.Vec, direction: Ray.Vec, radius: real, maxSize: Coord): nat {
    Ray.StartValid(origin, direction, radius, maxSize);
    Ray.Measure(Ray.MakeParams(direction, radius, maxSize), Ray.Start(origin, direction)) + 1
  }

  /** Without `-0` the float loop and the exact loop agree: both throw on a
      zero direction, and otherwise, given enough fuel, the float loop
      calls back on exactly the cells of the exact loop. */
  lemma AgreesWithExact(origin: Ray.Vec, dx: real, dy: real, dz: real, radius: real, maxSize: Coord,
                        cb: Coord -> bool, fuel: nat)
    requires fuel >= Enough(origin, Ray.Vec(dx, dy, dz), radius, maxSize)
    ensures var fr := Raycast(origin, D(dx), D(dy), D(dz), radius, maxSize, cb, fuel);
      var rr := Ray.Raycast(origin, Ray.Vec(dx, dy, dz), radius, maxSize, (c: Coord, f: Coord) => cb(c));
      && (fr.Err? <==> rr.Err?)
      && (rr.Ok? ==> fr.value == Cells(rr.value.visits))
  {
    var direction := Ray.Vec(dx, dy, dz);
    var rp := Ray.MakeParams(direction, radius, maxSize);
    var cur := Ray.Start(origin, direction);
    Ray.StartValid(origin, direction, radius, maxSize);
    var fp := Params(Coord(Signum(D(dx)), Signum(D(dy)), Signum(D(dz))), Delta(D(dx)), Delta(D(dy)), Delta(D(dz)), radius, maxSize);
    assert Matches(fp, rp);
    assert LoopOf(cur) == Loop(Coord(origin.x.Floor, origin.y.Floor, origin.z.Floor),
                               IntBound(origin.x, D(dx)), IntBound(origin.y, D(dy)), IntBound(origin.z, D(dz)));
    if !(dx == 0.0 && dy == 0.0 && dz == 0.0) {
      VisitsAgree(fp, rp, cb, cur, fuel);
    }
  }
}
