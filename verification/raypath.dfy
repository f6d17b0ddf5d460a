/** Where the traversal is: the cells raycast.ts visits against the points
    `origin + t * direction` of the ray. The loop keeps, for every moving
    axis, the next crossing `tMax` at the boundary through which the ray
    leaves the current cell; from that, every visited cell contains the ray
    point at the parameter at which it was entered.

    The one exception is inherited from `intbound`: for an origin coordinate
    that is an integer and a negative direction component, the first
    crossing is one whole cell late, and on that axis every reported cell is
    one above the cell the ray is in. `Lag` records it, and `StartCorrected`
    is the start that removes it. */
module RayPath {
  import opened Base
  import opened Keys
  import opened Ray

  /** The ray's coordinate on axis `a` at parameter `t`. */
  function At(origin: Vec, direction: Vec, a: Axis, t: real): real {
    DeltaOf(origin, a) + t * DeltaOf(direction, a)
  }

  /** The ray point at `t` lies in the closed unit cube of cell `c`. */
  predicate Meets(origin: Vec, direction: Vec, c: Coord, t: real) {
    forall a: Axis :: CellOf(c, a) as real <= At(origin, direction, a, t) <= CellOf(c, a) as real + 1.0
  }

  /** Some point of the ray within reach lies in the closed cube of `c`. */
  ghost predicate Traversed(origin: Vec, direction: Vec, radius: real, c: Coord) {
    exists t :: InReach(t, radius) && Meets(origin, direction, c, t)
  }

  /** The ray point at `t` lies on a cell boundary of some axis. */
  predicate OnBoundary(origin: Vec, direction: Vec, t: real) {
    IsInteger(At(origin, direction, X, t)) || IsInteger(At(origin, direction, Y, t)) || IsInteger(At(origin, direction, Z, t))
  }

  /** A parameter the traversal can reach: the start, or one within the
      radius. */
  predicate InReach(t: real, radius: real) {
    t == 0.0 || 0.0 <= t <= radius
  }

  /** The loop's constants are those raycast.ts derives from `direction`. */
  predicate Aims(p: Params, direction: Vec) {
    forall a: Axis :: CellOf(p.step, a) == Signum(DeltaOf(direction, a)) && DeltaOf(p.tDelta, a) == StepDelta(DeltaOf(direction, a))
  }

  /** The boundary through which a ray with step `k` leaves cell `c`. */
  function Exit(c: int, k: int): int {
    if k > 0 then c + 1 else c
  }

  /** How far `intbound` puts the start cell behind the ray on one axis: one
      cell for an integral coordinate travelled in the negative direction. */
  function LagOf(s: real, ds: real): int {
    if ds < 0.0 && IsInteger(s) then 1 else 0
  }

  function Lag(origin: Vec, direction: Vec): Coord {
    Coord(LagOf(origin.x, direction.x), LagOf(origin.y, direction.y), LagOf(origin.z, direction.z))
  }

  function Unshift(c: Coord, lag: Coord): Coord {
    Coord(c.x - lag.x, c.y - lag.y, c.z - lag.z)
  }

  /** One axis of the loop invariant, for the cell `c` the ray is in and the
      parameter `tIn` at which the current cell was entered: an unmoving
      axis stays in the origin's cell; a moving one has its next crossing at
      the exit boundary of `c`, no earlier than `tIn` and at most one cell
      width later. */
  predicate AxisOnRay(s: real, ds: real, c: int, tm: Ext, tIn: real) {
    if ds == 0.0 then c == s.Floor
    else tm.Fin? && s + tm.v * ds == Exit(c, Signum(ds)) as real && tm.v - StepDelta(ds) <= tIn <= tm.v
  }

  /** The loop invariant, with the cursor's cell taken `lag` behind. */
  predicate OnRay(origin: Vec, direction: Vec, cur: Cursor, tIn: real, lag: Coord) {
    forall a: Axis ::
      AxisOnRay(DeltaOf(origin, a), DeltaOf(direction, a), CellOf(cur.cell, a) - CellOf(lag, a), TOf(cur.tMax, a), tIn)
  }

  /** raycast's start with the lag removed: on an axis with an integral
      origin coordinate and a negative direction the ray is in the cell
      below from the first instant, and `intbound`'s crossing is that
      cell's exit. */
  function StartCorrected(origin: Vec, direction: Vec): Cursor {
    var s := Start(origin, direction);
    s.(cell := Unshift(s.cell, Lag(origin, direction)))
  }

  /** raycast with the corrected start. */
  function RaycastCorrected(origin: Vec, direction: Vec, radius: real, maxSize: Coord, cb: (Coord, Coord) -> bool)
    : Result<Trace, RangeError>
  {
    if direction.x == 0.0 && direction.y == 0.0 && direction.z == 0.0 then Err(ZeroDirection)
    else
      StartValid(origin, direction, radius, maxSize);
      Ok(Run(MakeParams(direction, radius, maxSize), cb, StartCorrected(origin, direction)))
  }

  // ---------------------------------------------------------------------
  // One axis

  lemma ProductAtMostOne(u: real, w: real, d: real)
    requires d > 0.0 && 0.0 <= u <= w && w * d == 1.0
    ensures 0.0 <= u * d <= 1.0
  {
    assert u * d <= w * d;
  }

  /** The ray point at the entry parameter lies in the cell. */
  lemma AxisMeets(s: real, ds: real, c: int, tm: Ext, tIn: real)
    requires AxisOnRay(s, ds, c, tm, tIn)
    ensures c as real <= s + tIn * ds <= c as real + 1.0
  {
    if ds > 0.0 {
      var u := tm.v - tIn;
      assert StepDelta(ds) == 1.0 / ds;
      assert s + tIn * ds == (c as real + 1.0) - u * ds;
      ProductAtMostOne(u, 1.0 / ds, ds);
    } else if ds < 0.0 {
      var u := tm.v - tIn;
      assert StepDelta(ds) == 1.0 / -ds;
      assert s + tIn * ds == c as real + u * -ds;
      ProductAtMostOne(u, 1.0 / -ds, -ds);
    } else {
      assert s + tIn * ds == s;
    }
  }

  /** A step along the axis moves the cell by the step and the crossing by
      one cell width, entering at the old crossing. */
  lemma AxisAdvance(s: real, ds: real, c: int, tm: Ext, tIn: real)
    requires ds != 0.0 && AxisOnRay(s, ds, c, tm, tIn)
    ensures AxisOnRay(s, ds, c + Signum(ds), Fin(tm.v + StepDelta(ds)), tm.v)
  {
    StepDeltaPositive(ds);
    var k := Signum(ds);
    assert StepDelta(ds) * ds == k as real;
    assert s + (tm.v + StepDelta(ds)) * ds == s + tm.v * ds + k as real;
  }

  /** The crossing of a moving axis is on one of its boundaries. */
  lemma AxisCrossing(s: real, ds: real, c: int, tm: Ext, tIn: real)
    requires ds != 0.0 && AxisOnRay(s, ds, c, tm, tIn)
    ensures tIn <= tm.v && IsInteger(s + tm.v * ds)
  {
    assert s + tm.v * ds == Exit(c, Signum(ds)) as real;
  }

  /** A step along another axis keeps the invariant, entering later. */
  lemma AxisWait(s: real, ds: real, c: int, tm: Ext, tIn: real, t: real)
    requires AxisOnRay(s, ds, c, tm, tIn) && tIn <= t && (tm.Fin? ==> t <= tm.v)
    ensures AxisOnRay(s, ds, c, tm, t)
  {
  }

  lemma NegatedFloor(s: real)
    ensures IsInteger(s) ==> (-s).Floor == -s.Floor
    ensures !IsInteger(s) ==> (-s).Floor == -s.Floor - 1
  {
    var f := s.Floor;
    if !IsInteger(s) {
      assert (f as real) < s < (f as real) + 1.0;
      assert -(f as real) - 1.0 < -s < -(f as real);
    }
  }

  lemma QuotientBound(t: real, d: real)
    requires d > 0.0 && t * d <= 1.0
    ensures t <= 1.0 / d
  {
    assert t == (t * d) / d;
  }

  lemma AxisStartPositive(s: real, ds: real)
    requires ds > 0.0
    ensures AxisOnRay(s, ds, s.Floor, IntBound(s, ds), 0.0)
  {
    IntBoundSpec(s, ds);
    ModUnit(s);
    var t := (1.0 - Mod(s, 1.0)) / ds;
    assert IntBound(s, ds) == Fin(t);
    assert t * ds == 1.0 - Mod(s, 1.0);
    assert s + t * ds == (s.Floor + 1) as real;
    assert StepDelta(ds) == 1.0 / ds;
    assert AbsReal(ds) == ds;
    QuotientBound(t, ds);
  }

  lemma AxisStartNegative(s: real, ds: real)
    requires ds < 0.0
    ensures AxisOnRay(s, ds, s.Floor - LagOf(s, ds), IntBound(s, ds), 0.0)
  {
    IntBoundSpec(s, ds);
    ModUnit(-s);
    NegatedFloor(s);
    var t := (1.0 - Mod(-s, 1.0)) / -ds;
    assert IntBound(s, ds) == IntBound(-s, -ds) == Fin(t);
    assert t * -ds == 1.0 - Mod(-s, 1.0);
    assert s + t * ds == -1.0 - (-s).Floor as real;
    assert StepDelta(ds) == 1.0 / -ds;
    assert AbsReal(ds) == -ds;
    QuotientBound(t, -ds);
  }

  /** raycast's start satisfies the invariant at parameter 0, `LagOf` cells
      behind. */
  lemma AxisStart(s: real, ds: real)
    ensures AxisOnRay(s, ds, s.Floor - LagOf(s, ds), IntBound(s, ds), 0.0)
  {
    if ds > 0.0 {
      AxisStartPositive(s, ds);
    } else if ds < 0.0 {
      AxisStartNegative(s, ds);
    }
  }

  // ---------------------------------------------------------------------
  // The cursor

  lemma MakeParamsAims(direction: Vec, radius: real, maxSize: Coord)
    ensures Aims(MakeParams(direction, radius, maxSize), direction)
  {
    var p := MakeParams(direction, radius, maxSize);
    forall a: Axis
      ensures CellOf(p.step, a) == Signum(DeltaOf(direction, a)) && DeltaOf(p.tDelta, a) == StepDelta(DeltaOf(direction, a))
    {
      match a
      case X =>
      case Y =>
      case Z =>
    }
  }

  lemma StartOnRay(origin: Vec, direction: Vec)
    ensures OnRay(origin, direction, Start(origin, direction), 0.0, Lag(origin, direction))
    ensures OnRay(origin, direction, StartCorrected(origin, direction), 0.0, Coord(0, 0, 0))
  {
    var s := Start(origin, direction);
    var lag := Lag(origin, direction);
    forall a: Axis
      ensures AxisOnRay(DeltaOf(origin, a), DeltaOf(direction, a), CellOf(s.cell, a) - CellOf(lag, a), TOf(s.tMax, a), 0.0)
      ensures CellOf(StartCorrected(origin, direction).cell, a) - CellOf(Coord(0, 0, 0), a) == CellOf(s.cell, a) - CellOf(lag, a)
    {
      AxisStart(DeltaOf(origin, a), DeltaOf(direction, a));
      match a
      case X =>
      case Y =>
      case Z =>
    }
  }

  /** The cell the invariant speaks of contains the ray at the entry
      parameter. */
  lemma CursorMeets(origin: Vec, direction: Vec, cur: Cursor, tIn: real, lag: Coord)
    requires OnRay(origin, direction, cur, tIn, lag)
    ensures Meets(origin, direction, Unshift(cur.cell, lag), tIn)
  {
    forall a: Axis
      ensures CellOf(Unshift(cur.cell, lag), a) as real <= At(origin, direction, a, tIn) <= CellOf(Unshift(cur.cell, lag), a) as real + 1.0
    {
      AxisMeets(DeltaOf(origin, a), DeltaOf(direction, a), CellOf(cur.cell, a) - CellOf(lag, a), TOf(cur.tMax, a), tIn);
      match a
      case X =>
      case Y =>
      case Z =>
    }
  }

  lemma AdvanceOf(p: Params, cur: Cursor, a: Axis)
    requires TOf(cur.tMax, a).Fin?
    ensures CellOf(Advance(p, cur, a).cell, a) == CellOf(cur.cell, a) + CellOf(p.step, a)
    ensures TOf(Advance(p, cur, a).tMax, a) == Fin(TOf(cur.tMax, a).v + DeltaOf(p.tDelta, a))
    ensures forall b: Axis :: b != a ==> CellOf(Advance(p, cur, a).cell, b) == CellOf(cur.cell, b)
    ensures forall b: Axis :: b != a ==> TOf(Advance(p, cur, a).tMax, b) == TOf(cur.tMax, b)
  {
    match a
    case X =>
    case Y =>
    case Z =>
  }

  /** The invariant on the chosen axis after the step. */
  lemma ChosenAxisOnRay(origin: Vec, direction: Vec, p: Params, cur: Cursor, tIn: real, lag: Coord, a: Axis)
    requires ValidCursor(p, cur) && Aims(p, direction) && TOf(cur.tMax, a).Fin?
    requires AxisOnRay(DeltaOf(origin, a), DeltaOf(direction, a), CellOf(cur.cell, a) - CellOf(lag, a), TOf(cur.tMax, a), tIn)
    ensures DeltaOf(direction, a) != 0.0
    ensures IsInteger(At(origin, direction, a, TOf(cur.tMax, a).v))
    ensures tIn <= TOf(cur.tMax, a).v
    ensures var next := Advance(p, cur, a);
      AxisOnRay(DeltaOf(origin, a), DeltaOf(direction, a), CellOf(next.cell, a) - CellOf(lag, a), TOf(next.tMax, a), TOf(cur.tMax, a).v)
  {
    var ds := DeltaOf(direction, a);
    var c := CellOf(cur.cell, a) - CellOf(lag, a);
    assert CellOf(p.step, a) == Signum(ds) && DeltaOf(p.tDelta, a) == StepDelta(ds);
    assert CellOf(p.step, a) != 0;
    AxisCrossing(DeltaOf(origin, a), ds, c, TOf(cur.tMax, a), tIn);
    assert At(origin, direction, a, TOf(cur.tMax, a).v) == DeltaOf(origin, a) + TOf(cur.tMax, a).v * ds;
    AxisAdvance(DeltaOf(origin, a), ds, c, TOf(cur.tMax, a), tIn);
    AdvanceOf(p, cur, a);
  }

  lemma BoundaryOfAxis(origin: Vec, direction: Vec, a: Axis, t: real)
    requires IsInteger(At(origin, direction, a, t))
    ensures OnBoundary(origin, direction, t)
  {
    match a
    case X =>
    case Y =>
    case Z =>
  }

  /** The loop body keeps the invariant: the chosen crossing is the new
      entry parameter, no earlier than the old one, and lies on a boundary. */
  lemma CursorAdvance(origin: Vec, direction: Vec, p: Params, cur: Cursor, tIn: real, lag: Coord)
    requires ValidCursor(p, cur) && Aims(p, direction)
    requires OnRay(origin, direction, cur, tIn, lag)
    requires TOf(cur.tMax, ChooseAxis(cur.tMax)).Fin?
    ensures var t := TOf(cur.tMax, ChooseAxis(cur.tMax)).v;
      && tIn <= t
      && OnRay(origin, direction, Advance(p, cur, ChooseAxis(cur.tMax)), t, lag)
      && OnBoundary(origin, direction, t)
  {
    var a := ChooseAxis(cur.tMax);
    var t := TOf(cur.tMax, a).v;
    var next := Advance(p, cur, a);
    ChosenAxisOnRay(origin, direction, p, cur, tIn, lag, a);
    BoundaryOfAxis(origin, direction, a, t);
    ChooseAxisSpec(cur.tMax);
    AdvanceOf(p, cur, a);
    forall b: Axis
      ensures AxisOnRay(DeltaOf(origin, b), DeltaOf(direction, b), CellOf(next.cell, b) - CellOf(lag, b), TOf(next.tMax, b), t)
    {
      if b != a {
        assert AtMost(TOf(cur.tMax, a), TOf(cur.tMax, b));
        AxisWait(DeltaOf(origin, b), DeltaOf(direction, b), CellOf(cur.cell, b) - CellOf(lag, b), TOf(cur.tMax, b), tIn, t);
      }
    }
  }

  // ---------------------------------------------------------------------
  // The traversal

  /** The callback call the loop makes at a cursor, if any. */
  function Here(p: Params, cur: Cursor): seq<Visit> {
    if InWorld(cur.cell, p.maxSize) then [Visit(cur.cell, cur.face)] else []
  }

  /** One pass of the loop that neither stops nor returns. */
  lemma RunUnfold(p: Params, cb: (Coord, Coord) -> bool, cur: Cursor)
    requires ValidParams(p) && ValidCursor(p, cur)
    requires InsideAlongTravel(cur.cell, p.step, p.maxSize) && !(InWorld(cur.cell, p.maxSize) && cb(cur.cell, cur.face))
    requires !Exceeds(TOf(cur.tMax, ChooseAxis(cur.tMax)), p.radius)
    ensures ValidCursor(p, Advance(p, cur, ChooseAxis(cur.tMax)))
    ensures Measure(p, Advance(p, cur, ChooseAxis(cur.tMax))) < Measure(p, cur)
    ensures var next := Advance(p, cur, ChooseAxis(cur.tMax));
      && Run(p, cb, cur).visits == Here(p, cur) + Run(p, cb, next).visits
      && Run(p, cb, cur).crossings == [TOf(cur.tMax, ChooseAxis(cur.tMax)).v] + Run(p, cb, next).crossings
  {
    MeasureDecreases(p, cur, ChooseAxis(cur.tMax));
  }

  /** A pass that ends the loop takes no crossing and calls back at most
      the cursor's own cell. */
  lemma RunStop(p: Params, cb: (Coord, Coord) -> bool, cur: Cursor)
    requires ValidParams(p) && ValidCursor(p, cur)
    requires !InsideAlongTravel(cur.cell, p.step, p.maxSize) || (InWorld(cur.cell, p.maxSize) && cb(cur.cell, cur.face))
      || Exceeds(TOf(cur.tMax, ChooseAxis(cur.tMax)), p.radius)
    ensures Run(p, cb, cur).crossings == []
    ensures |Run(p, cb, cur).visits| == 0 || Run(p, cb, cur).visits == Here(p, cur)
  {
  }

  lemma TraversedHere(origin: Vec, direction: Vec, p: Params, cur: Cursor, tIn: real, lag: Coord)
    requires OnRay(origin, direction, cur, tIn, lag) && InReach(tIn, p.radius)
    ensures forall i :: 0 <= i < |Here(p, cur)| ==> Traversed(origin, direction, p.radius, Unshift(Here(p, cur)[i].cell, lag))
  {
    CursorMeets(origin, direction, cur, tIn, lag);
    assert Traversed(origin, direction, p.radius, Unshift(cur.cell, lag));
  }

  lemma TraversedAfter(origin: Vec, direction: Vec, radius: real, lag: Coord, here: seq<Visit>, rest: seq<Visit>)
    requires forall i :: 0 <= i < |here| ==> Traversed(origin, direction, radius, Unshift(here[i].cell, lag))
    requires forall i :: 0 <= i < |rest| ==> Traversed(origin, direction, radius, Unshift(rest[i].cell, lag))
    ensures forall i :: 0 <= i < |here + rest| ==> Traversed(origin, direction, radius, Unshift((here + rest)[i].cell, lag))
  {
    forall i | 0 <= i < |here + rest|
      ensures Traversed(origin, direction, radius, Unshift((here + rest)[i].cell, lag))
    {
      if i < |here| {
        assert (here + rest)[i] == here[i];
      } else {
        assert (here + rest)[i] == rest[i - |here|];
      }
    }
  }

  lemma BoundaryCons(origin: Vec, direction: Vec, t: real, rest: seq<real>)
    requires OnBoundary(origin, direction, t)
    requires forall i :: 0 <= i < |rest| ==> OnBoundary(origin, direction, rest[i])
    ensures forall i :: 0 <= i < |[t] + rest| ==> OnBoundary(origin, direction, ([t] + rest)[i])
  {
    forall i | 0 <= i < |[t] + rest|
      ensures OnBoundary(origin, direction, ([t] + rest)[i])
    {
      if i > 0 {
        assert ([t] + rest)[i] == rest[i - 1];
      }
    }
  }

  /** Every visited cell, taken `lag` behind, contains the ray point at the
      parameter at which the loop entered it, and every crossing taken is a
      boundary crossing of the ray. */
  lemma {:induction false} RunOnRay(origin: Vec, direction: Vec, p: Params, cb: (Coord, Coord) -> bool,
                                    cur: Cursor, tIn: real, lag: Coord)
    requires ValidParams(p) && ValidCursor(p, cur) && Aims(p, direction)
    requires OnRay(origin, direction, cur, tIn, lag) && InReach(tIn, p.radius)
    ensures var vs := Run(p, cb, cur).visits;
      forall i :: 0 <= i < |vs| ==> Traversed(origin, direction, p.radius, Unshift(vs[i].cell, lag))
    ensures var ts := Run(p, cb, cur).crossings;
      forall i :: 0 <= i < |ts| ==> OnBoundary(origin, direction, ts[i])
    decreases Measure(p, cur)
  {
    TraversedHere(origin, direction, p, cur, tIn, lag);
    if InsideAlongTravel(cur.cell, p.step, p.maxSize) && !(InWorld(cur.cell, p.maxSize) && cb(cur.cell, cur.face))
       && !Exceeds(TOf(cur.tMax, ChooseAxis(cur.tMax)), p.radius) {
      var t := TOf(cur.tMax, ChooseAxis(cur.tMax)).v;
      var next := Advance(p, cur, ChooseAxis(cur.tMax));
      RunUnfold(p, cb, cur);
      CursorAdvance(origin, direction, p, cur, tIn, lag);
      RunOnRay(origin, direction, p, cb, next, t, lag);
      TraversedAfter(origin, direction, p.radius, lag, Here(p, cur), Run(p, cb, next).visits);
      BoundaryCons(origin, direction, t, Run(p, cb, next).crossings);
    } else {
      RunStop(p, cb, cur);
    }
  }

  /** As written: every visited cell, moved down by `Lag` on the lagging
      axes, contains the ray point at a parameter within reach; every
      crossing taken is a boundary crossing of the ray. */
  lemma RaycastOnRay(origin: Vec, direction: Vec, radius: real, maxSize: Coord, cb: (Coord, Coord) -> bool)
    ensures var r := Raycast(origin, direction, radius, maxSize, cb);
      r.Ok? ==>
        && (forall i :: 0 <= i < |r.value.visits| ==>
              Traversed(origin, direction, radius, Unshift(r.value.visits[i].cell, Lag(origin, direction))))
        && (forall i :: 0 <= i < |r.value.crossings| ==> OnBoundary(origin, direction, r.value.crossings[i]))
  {
    if direction != Vec(0.0, 0.0, 0.0) {
      StartValid(origin, direction, radius, maxSize);
      MakeParamsAims(direction, radius, maxSize);
      StartOnRay(origin, direction);
      RunOnRay(origin, direction, MakeParams(direction, radius, maxSize), cb, Start(origin, direction), 0.0, Lag(origin, direction));
      assert Raycast(origin, direction, radius, maxSize, cb) == Ok(Run(MakeParams(direction, radius, maxSize), cb, Start(origin, direction)));
    }
  }

  /** Corrected: every visited cell contains the ray point at a parameter
      within reach. */
  lemma RaycastCorrectedOnRay(origin: Vec, direction: Vec, radius: real, maxSize: Coord, cb: (Coord, Coord) -> bool)
    ensures RaycastCorrected(origin, direction, radius, maxSize, cb).Err? <==> direction == Vec(0.0, 0.0, 0.0)
    ensures var r := RaycastCorrected(origin, direction, radius, maxSize, cb);
      r.Ok? ==>
        && (forall i :: 0 <= i < |r.value.visits| ==> Traversed(origin, direction, radius, r.value.visits[i].cell))
        && (forall i :: 0 <= i < |r.value.crossings| ==> OnBoundary(origin, direction, r.value.crossings[i]))
  {
    if direction != Vec(0.0, 0.0, 0.0) {
      var p := MakeParams(direction, radius, maxSize);
      var cur := StartCorrected(origin, direction);
      StartValid(origin, direction, radius, maxSize);
      MakeParamsAims(direction, radius, maxSize);
      StartOnRay(origin, direction);
      assert ValidCursor(p, cur);
      RunOnRay(origin, direction, p, cb, cur, 0.0, Coord(0, 0, 0));
      assert RaycastCorrected(origin, direction, radius, maxSize, cb) == Ok(Run(p, cb, cur));
      var vs := Run(p, cb, cur).visits;
      forall i | 0 <= i < |vs|
        ensures Traversed(origin, direction, radius, vs[i].cell)
      {
        assert Traversed(origin, direction, p.radius, Unshift(vs[i].cell, Coord(0, 0, 0)));
        assert Unshift(vs[i].cell, Coord(0, 0, 0)) == vs[i].cell;
      }
    }
  }
  /** From (0.5, 1, 0.5) towards (0.6, -0.8, 0), no point of the ray lies
      in cell (1, 1, 0): it is at `x >= 1` only for `t >= 5/6`, and at
      `y >= 1` only for `t <= 0`. */
  lemma MissedCell(t: real)
    ensures !Meets(Vec(0.5, 1.0, 0.5), Vec(0.6, -0.8, 0.0), Coord(1, 1, 0), t)
  {
    var origin, direction := Vec(0.5, 1.0, 0.5), Vec(0.6, -0.8, 0.0);
    var x, y := At(origin, direction, X, t), At(origin, direction, Y, t);
    assert x == 0.5 + t * 0.6 && y == 1.0 - t * 0.8;
    assert !(1.0 <= x && 1.0 <= y);
    assert CellOf(Coord(1, 1, 0), X) == 1 && CellOf(Coord(1, 1, 0), Y) == 1;
  }

  lemma LaggedStart()
    ensures Start(Vec(0.5, 1.0, 0.5), Vec(0.6, -0.8, 0.0))
         == Cursor(Coord(0, 1, 0), Coord(0, 0, 0), Ext3(Fin(0.5 / 0.6), Fin(1.25), PosInf))
  {
    assert Mod(0.5, 1.0) == 0.5;
    assert Mod(-1.0, 1.0) == 0.0;
    assert IntBound(1.0, -0.8) == IntBound(-1.0, 0.8) == Fin(1.25);
  }

  /** The visits of that ray as written: (0, 1, 0), then (1, 1, 0). */
  lemma LaggedStartVisits()
    ensures var r := Raycast(Vec(0.5, 1.0, 0.5), Vec(0.6, -0.8, 0.0), 20.0, Coord(10, 10, 10),
                             (c: Coord, f: Coord) => false);
      && r.Ok?
      && |r.value.visits| >= 2
      && r.value.visits[0].cell == Coord(0, 1, 0)
      && r.value.visits[1].cell == Coord(1, 1, 0)
  {
    var origin, direction := Vec(0.5, 1.0, 0.5), Vec(0.6, -0.8, 0.0);
    var cb := (c: Coord, f: Coord) => false;
    var p := MakeParams(direction, 20.0, Coord(10, 10, 10));
    assert p.step == Coord(1, -1, 0);
    var c0 := Start(origin, direction);
    LaggedStart();
    StartValid(origin, direction, 20.0, Coord(10, 10, 10));
    assert ChooseAxis(c0.tMax) == X;
    var c1 := Advance(p, c0, X);
    assert c1.cell == Coord(1, 1, 0);
    RunRejectedStep(p, cb, c0);
    RunStartsHere(p, cb, c1);
    assert Raycast(origin, direction, 20.0, Coord(10, 10, 10), cb) == Ok(Run(p, cb, c0));
  }

  /** As written: from (0.5, 1, 0.5) towards (0.6, -0.8, 0) the ray is below
      `y = 1` from the first instant, yet the second cell called back is
      (1, 1, 0), which no point of the ray touches. */
  lemma LaggedStartLeavesRay()
    ensures var r := Raycast(Vec(0.5, 1.0, 0.5), Vec(0.6, -0.8, 0.0), 20.0, Coord(10, 10, 10),
                             (c: Coord, f: Coord) => false);
      && r.Ok?
      && |r.value.visits| >= 2
      && r.value.visits[1].cell == Coord(1, 1, 0)
      && !Traversed(Vec(0.5, 1.0, 0.5), Vec(0.6, -0.8, 0.0), 20.0, r.value.visits[1].cell)
  {
    LaggedStartVisits();
    forall t ensures !(InReach(t, 20.0) && Meets(Vec(0.5, 1.0, 0.5), Vec(0.6, -0.8, 0.0), Coord(1, 1, 0), t)) {
      MissedCell(t);
    }
  }
  // ---------------------------------------------------------------------
  // Crossing an X boundary

  /** Every coordinate of the ray point at `t` is at least one cell inside
      the world's faces. */
  predicate Inside(origin: Vec, direction: Vec, t: real, maxSize: Coord) {
    forall a: Axis :: 1.0 <= At(origin, direction, a, t) <= (CellOf(maxSize, a) - 2) as real
  }

  predicate LagBits(lag: Coord) {
    0 <= lag.x <= 1 && 0 <= lag.y <= 1 && 0 <= lag.z <= 1
  }

  lemma AxisBetween(s: real, ds: real, t: real, T: real, lo: real, hi: real)
    requires lo <= s <= hi && lo <= s + T * ds <= hi && 0.0 <= t <= T
    ensures lo <= s + t * ds <= hi
  {
    if ds >= 0.0 {
      assert 0.0 <= t * ds <= T * ds;
    } else {
      assert T * ds <= t * ds <= 0.0;
    }
  }

  /** The segment between two inside points stays inside. */
  lemma InsideBetween(origin: Vec, direction: Vec, t: real, T: real, maxSize: Coord)
    requires Inside(origin, direction, 0.0, maxSize) && Inside(origin, direction, T, maxSize) && 0.0 <= t <= T
    ensures Inside(origin, direction, t, maxSize)
  {
    forall a: Axis
      ensures 1.0 <= At(origin, direction, a, t) <= (CellOf(maxSize, a) - 2) as real
    {
      assert At(origin, direction, a, 0.0) == DeltaOf(origin, a);
      AxisBetween(DeltaOf(origin, a), DeltaOf(direction, a), t, T, 1.0, (CellOf(maxSize, a) - 2) as real);
    }
  }

  /** A cursor whose cell, taken `lag` behind, meets an inside point is in
      the world. */
  lemma InWorldFromInside(origin: Vec, direction: Vec, cell: Coord, lag: Coord, t: real, maxSize: Coord)
    requires LagBits(lag) && Meets(origin, direction, Unshift(cell, lag), t) && Inside(origin, direction, t, maxSize)
    ensures InWorld(cell, maxSize)
  {
    forall a: Axis
      ensures 0 <= CellOf(cell, a) < CellOf(maxSize, a)
    {
      assert CellOf(Unshift(cell, lag), a) as real <= At(origin, direction, a, t) <= CellOf(Unshift(cell, lag), a) as real + 1.0;
      match a
      case X =>
      case Y =>
      case Z =>
    }
    assert 0 <= CellOf(cell, X) < CellOf(maxSize, X);
    assert 0 <= CellOf(cell, Y) < CellOf(maxSize, Y);
    assert 0 <= CellOf(cell, Z) < CellOf(maxSize, Z);
  }

  /** Before its X crossing the loop cannot stop while the ray is inside
      and the callback accepts nothing, so it takes that crossing and calls
      back on a cell in another X column. */
  lemma {:induction false} RunStepsX(origin: Vec, direction: Vec, p: Params, cur: Cursor, tIn: real, lag: Coord, T: real)
    requires ValidParams(p) && ValidCursor(p, cur) && Aims(p, direction)
    requires OnRay(origin, direction, cur, tIn, lag) && LagBits(lag) && 0.0 <= tIn
    requires TOf(cur.tMax, X) == Fin(T) && T <= p.radius
    requires Inside(origin, direction, 0.0, p.maxSize) && Inside(origin, direction, T, p.maxSize)
    ensures var vs := Run(p, (c: Coord, f: Coord) => false, cur).visits;
      exists i :: 0 <= i < |vs| && vs[i].cell.x != cur.cell.x
    decreases Measure(p, cur)
  {
    var cb := (c: Coord, f: Coord) => false;
    assert AxisOnRay(DeltaOf(origin, X), DeltaOf(direction, X), CellOf(cur.cell, X) - CellOf(lag, X), TOf(cur.tMax, X), tIn);
    assert CellOf(p.step, X) != 0;
    assert tIn <= T;
    CursorMeets(origin, direction, cur, tIn, lag);
    InsideBetween(origin, direction, tIn, T, p.maxSize);
    InWorldFromInside(origin, direction, cur.cell, lag, tIn, p.maxSize);
    var a := ChooseAxis(cur.tMax);
    ChooseAxisSpec(cur.tMax);
    assert AtMost(TOf(cur.tMax, a), TOf(cur.tMax, X));
    var t := TOf(cur.tMax, a).v;
    RunUnfold(p, cb, cur);
    CursorAdvance(origin, direction, p, cur, tIn, lag);
    var next := Advance(p, cur, a);
    AdvanceOf(p, cur, a);
    var vs := Run(p, cb, cur).visits;
    assert vs == [Visit(cur.cell, cur.face)] + Run(p, cb, next).visits;
    if a == X {
      CursorMeets(origin, direction, next, t, lag);
      InWorldFromInside(origin, direction, next.cell, lag, t, p.maxSize);
      RunStartsHere(p, cb, next);
      assert vs[1].cell.x != cur.cell.x;
    } else {
      RunStepsX(origin, direction, p, next, t, lag, T);
      var i :| 0 <= i < |Run(p, cb, next).visits| && Run(p, cb, next).visits[i].cell.x != next.cell.x;
      assert vs[i + 1].cell.x != cur.cell.x;
    }
  }

  /** The exact traversal steps along X once the ray crosses an X boundary:
      for a direction with a non-zero X component, a callback that accepts
      nothing, a first X crossing within the radius and a ray that stays a
      cell inside the world up to it, some visited cell lies outside the
      origin's X column. A level gaze (`direction.y == 0`) is one case. */
  lemma XCrossingIsStepped(origin: Vec, direction: Vec, radius: real, maxSize: Coord)
    requires direction.x != 0.0
    requires IntBound(origin.x, direction.x).Fin? && IntBound(origin.x, direction.x).v <= radius
    requires Inside(origin, direction, 0.0, maxSize) && Inside(origin, direction, IntBound(origin.x, direction.x).v, maxSize)
    ensures var r := Raycast(origin, direction, radius, maxSize, (c: Coord, f: Coord) => false);
      && r.Ok?
      && exists i :: 0 <= i < |r.value.visits| && r.value.visits[i].cell.x != origin.x.Floor
  {
    var p := MakeParams(direction, radius, maxSize);
    var cur := Start(origin, direction);
    StartValid(origin, direction, radius, maxSize);
    MakeParamsAims(direction, radius, maxSize);
    StartOnRay(origin, direction);
    RunStepsX(origin, direction, p, cur, 0.0, Lag(origin, direction), IntBound(origin.x, direction.x).v);
    assert Raycast(origin, direction, radius, maxSize, (c: Coord, f: Coord) => false) == Ok(Run(p, (c: Coord, f: Coord) => false, cur));
  }
}
