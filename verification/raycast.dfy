/** The voxel raycast: a three-dimensional digital differential analyser in
    the manner of Amanatides and Woo, "A Fast Voxel Traversal Algorithm for
    Ray Tracing" (1987), with a distance limit and the entered face reported
    to the callback. Numbers are exact reals; `+Infinity` appears only as the
    next crossing of an axis the ray does not move along. */
module Ray {
  import opened Base
  import opened Keys

  datatype Vec = Vec(x: real, y: real, z: real)

  /** A real or `+Infinity`. */
  datatype Ext = Fin(v: real) | PosInf

  datatype Ext3 = Ext3(x: Ext, y: Ext, z: Ext)

  datatype Axis = X | Y | Z

  datatype RangeError = ZeroDirection

  /** One call of the callback: the cell and the face normal passed to it. */
  datatype Visit = Visit(cell: Coord, face: Coord)

  /** What stays fixed during a traversal: the step per axis (`signum` of
      the direction), the `t` advance per step, the radius in units of the
      direction vector, and the world size. */
  datatype Params = Params(step: Coord, tDelta: Vec, radius: real, maxSize: Coord)

  /** What the loop updates: the current cell, the face buffer and the next
      crossing `t` on each axis. */
  datatype Cursor = Cursor(cell: Coord, face: Coord, tMax: Ext3)

  /** A traversal: the returned cell (`None` for `null`), the callback calls
      in order, and the `t` of every boundary crossing taken, in order. */
  datatype Trace = Trace(hit: Option<Coord>, visits: seq<Visit>, crossings: seq<real>)

  /** JavaScript `a < b` on numbers where one may be `+Infinity`. */
  predicate Less(a: Ext, b: Ext) {
    match a
    case PosInf => false
    case Fin(x) => b.PosInf? || x < b.v
  }

  predicate AtMost(a: Ext, b: Ext) {
    !Less(b, a)
  }

  /** `t > radius` for a finite radius. */
  predicate Exceeds(t: Ext, radius: real) {
    t.PosInf? || t.v > radius
  }

  function Signum(x: real): (r: int)
    ensures r == 0 <==> x == 0.0
    ensures (r as real) * x >= 0.0 && r * r <= 1
  {
    if x > 0.0 then 1 else if x < 0.0 then -1 else 0
  }

  /** Rounding toward zero, the quotient JavaScript's `%` uses. */
  function Trunc(x: real): int {
    if x >= 0.0 then x.Floor else -((-x).Floor)
  }

  /** JavaScript's `a % m`: the remainder takes the sign of `a`. */
  function JsRem(a: real, m: real): real
    requires m != 0.0
  {
    a - m * (Trunc(a / m) as real)
  }

  /** mod: `(value % modulus + modulus) % modulus`. */
  function Mod(value: real, modulus: real): real
    requires modulus != 0.0
  {
    JsRem(JsRem(value, modulus) + modulus, modulus)
  }

  /** The ray `s + u * ds` is on a cell boundary at parameter `u`. */
  predicate CrossesAt(s: real, ds: real, u: real) {
    IsInteger(s + u * ds)
  }

  /** intbound: the smallest positive `t` at which `s + t * ds` is an
      integer; `+Infinity` when `ds` is zero (a positive number over 0). */
  function IntBound(s: real, ds: real): Ext
    decreases if ds < 0.0 then 1 else 0
  {
    if ds < 0.0 then IntBound(-s, -ds)
    else if ds == 0.0 then PosInf
    else Fin((1.0 - Mod(s, 1.0)) / ds)
  }

  function Square(w: real): (r: real)
    ensures r >= 0.0
  {
    w * w
  }

  /** distance: from the viewer position `d` to cell `c`, each axis offset
      by one half. */
  function Distance(c: Coord, d: Vec): real {
    Square(c.x as real - d.x + 0.5) + Square(c.y as real - d.y + 0.5) + Square(c.z as real - d.z + 0.5)
  }

  function CellOf(c: Coord, a: Axis): int {
    match a
    case X => c.x
    case Y => c.y
    case Z => c.z
  }

  function TOf(t: Ext3, a: Axis): Ext {
    match a
    case X => t.x
    case Y => t.y
    case Z => t.z
  }

  function DeltaOf(v: Vec, a: Axis): real {
    match a
    case X => v.x
    case Y => v.y
    case Z => v.z
  }

  /** The coordinate with `k` added on axis `a`. */
  function Bump(c: Coord, a: Axis, k: int): Coord {
    match a
    case X => c.(x := c.x + k)
    case Y => c.(y := c.y + k)
    case Z => c.(z := c.z + k)
  }

  /** The vector that is `k` on axis `a` and zero on the other two. */
  function UnitFace(a: Axis, k: int): Coord {
    Bump(Coord(0, 0, 0), a, k)
  }

  function SetT(t: Ext3, a: Axis, e: Ext): Ext3 {
    match a
    case X => t.(x := e)
    case Y => t.(y := e)
    case Z => t.(z := e)
  }

  /** The nested comparisons of the loop body: X vs Y first, the winner vs Z. */
  function ChooseAxis(t: Ext3): Axis {
    if Less(t.x, t.y) then (if Less(t.x, t.z) then X else Z)
    else (if Less(t.y, t.z) then Y else Z)
  }

  /** The loop condition: the ray has not left the world in the direction it
      travels (it may still be outside, approaching). */
  predicate InsideAlongTravel(cell: Coord, step: Coord, maxSize: Coord) {
    && (if step.x >= 0 then cell.x < maxSize.x else cell.x >= 0)
    && (if step.y >= 0 then cell.y < maxSize.y else cell.y >= 0)
    && (if step.z >= 0 then cell.z < maxSize.z else cell.z >= 0)
  }

  /** The callback guard: the cell lies in `[0, maxSize)` on every axis. */
  predicate InWorld(cell: Coord, maxSize: Coord) {
    0 <= cell.x < maxSize.x && 0 <= cell.y < maxSize.y && 0 <= cell.z < maxSize.z
  }

  predicate ValidParams(p: Params) {
    forall a: Axis :: -1 <= CellOf(p.step, a) <= 1 && (CellOf(p.step, a) != 0 ==> DeltaOf(p.tDelta, a) > 0.0)
  }

  /** An axis has an infinite next crossing exactly when the ray does not
      move along it. */
  predicate ValidCursor(p: Params, cur: Cursor) {
    forall a: Axis :: (CellOf(p.step, a) == 0 <==> TOf(cur.tMax, a).PosInf?)
  }

  /** How many more crossings an axis can take before passing the radius. */
  function Count(e: Ext, d: real, radius: real): nat
    requires e.Fin? ==> d > 0.0
  {
    match e
    case PosInf => 0
    case Fin(t) =>
      if t > radius then 0
      else
        NonNegativeQuotient(radius - t, d);
        ((radius - t) / d).Floor + 1
  }

  function Measure(p: Params, cur: Cursor): nat
    requires ValidParams(p) && ValidCursor(p, cur)
  {
    assert CellOf(p.step, X) == 0 <==> TOf(cur.tMax, X).PosInf?;
    assert CellOf(p.step, Y) == 0 <==> TOf(cur.tMax, Y).PosInf?;
    assert CellOf(p.step, Z) == 0 <==> TOf(cur.tMax, Z).PosInf?;
    assert CellOf(p.step, X) != 0 ==> DeltaOf(p.tDelta, X) > 0.0;
    assert CellOf(p.step, Y) != 0 ==> DeltaOf(p.tDelta, Y) > 0.0;
    assert CellOf(p.step, Z) != 0 ==> DeltaOf(p.tDelta, Z) > 0.0;
    Count(cur.tMax.x, p.tDelta.x, p.radius)
    + Count(cur.tMax.y, p.tDelta.y, p.radius)
    + Count(cur.tMax.z, p.tDelta.z, p.radius)
  }

  /** One step along axis `a`: move one cell, push that axis's next
      crossing out by its `tDelta`, and record the entered face. */
  function Advance(p: Params, cur: Cursor, a: Axis): Cursor
    requires TOf(cur.tMax, a).Fin?
  {
    var k := CellOf(p.step, a);
    Cursor(Bump(cur.cell, a, k), UnitFace(a, -k),
           SetT(cur.tMax, a, Fin(TOf(cur.tMax, a).v + DeltaOf(p.tDelta, a))))
  }

  /** The traversal loop from a cursor on. */
  function Run(p: Params, cb: (Coord, Coord) -> bool, cur: Cursor): Trace
    requires ValidParams(p) && ValidCursor(p, cur)
    decreases Measure(p, cur)
  {
    if !InsideAlongTravel(cur.cell, p.step, p.maxSize) then Trace(None, [], [])
    else
      var inWorld := InWorld(cur.cell, p.maxSize);
      var here := if inWorld then [Visit(cur.cell, cur.face)] else [];
      if inWorld && cb(cur.cell, cur.face) then Trace(Some(cur.cell), here, [])
      else
        var a := ChooseAxis(cur.tMax);
        var t := TOf(cur.tMax, a);
        if Exceeds(t, p.radius) then Trace(None, here, [])
        else
          AdvanceKeepsValid(p, cur, a);
          MeasureDecreases(p, cur, a);
          var rest := Run(p, cb, Advance(p, cur, a));
          Trace(rest.hit, here + rest.visits, [t.v] + rest.crossings)
  }

  /** The cursor the loop starts from: the cell containing the origin, a
      zero face, and each axis's first crossing. */
  function Start(origin: Vec, direction: Vec): Cursor {
    Cursor(Coord(origin.x.Floor, origin.y.Floor, origin.z.Floor), Coord(0, 0, 0),
           Ext3(IntBound(origin.x, direction.x), IntBound(origin.y, direction.y), IntBound(origin.z, direction.z)))
  }

  /** `stepX / dx` per axis; the source's `0 / 0` (NaN) for an unmoving axis
      is never read, so any value will do there. */
  function StepDelta(d: real): real {
    if d == 0.0 then 0.0 else (Signum(d) as real) / d
  }

  function MakeParams(direction: Vec, radius: real, maxSize: Coord): Params {
    Params(Coord(Signum(direction.x), Signum(direction.y), Signum(direction.z)),
           Vec(StepDelta(direction.x), StepDelta(direction.y), StepDelta(direction.z)),
           radius, maxSize)
  }

  /** raycast, with `radius` already in units of the direction vector. A
      zero direction throws `RangeError` before the loop. */
  function Raycast(origin: Vec, direction: Vec, radius: real, maxSize: Coord, cb: (Coord, Coord) -> bool)
    : Result<Trace, RangeError>
  {
    if direction.x == 0.0 && direction.y == 0.0 && direction.z == 0.0 then Err(ZeroDirection)
    else
      StartValid(origin, direction, radius, maxSize);
      Ok(Run(MakeParams(direction, radius, maxSize), cb, Start(origin, direction)))
  }

  // ---------------------------------------------------------------------
  // Arithmetic helpers

  lemma NonNegativeQuotient(a: real, d: real)
    requires a >= 0.0 && d > 0.0
    ensures a / d >= 0.0 && (a / d).Floor >= 0
  {
  }

  lemma QuotientStep(r: real, t: real, d: real)
    requires d > 0.0
    ensures (r - (t + d)) / d == (r - t) / d - 1.0
  {
    assert (r - (t + d)) / d == (r - t) / d - d / d;
  }

  lemma FloorMinusOne(q: real)
    ensures (q - 1.0).Floor == q.Floor - 1
  {
  }

  /** Taking a crossing on a finite axis lowers that axis's count. */
  lemma CountDecreases(t: real, d: real, radius: real)
    requires t <= radius && d > 0.0
    ensures Count(Fin(t + d), d, radius) < Count(Fin(t), d, radius)
  {
    NonNegativeQuotient(radius - t, d);
    if t + d <= radius {
      QuotientStep(radius, t, d);
      FloorMinusOne((radius - t) / d);
    }
  }

  lemma AdvanceKeepsValid(p: Params, cur: Cursor, a: Axis)
    requires ValidParams(p) && ValidCursor(p, cur) && TOf(cur.tMax, a).Fin?
    ensures ValidCursor(p, Advance(p, cur, a))
  {
  }

  lemma MeasureDecreases(p: Params, cur: Cursor, a: Axis)
    requires ValidParams(p) && ValidCursor(p, cur) && TOf(cur.tMax, a).Fin?
    requires TOf(cur.tMax, a).v <= p.radius
    ensures ValidCursor(p, Advance(p, cur, a))
    ensures Measure(p, Advance(p, cur, a)) < Measure(p, cur)
  {
    assert CellOf(p.step, a) != 0;
    CountDecreases(TOf(cur.tMax, a).v, DeltaOf(p.tDelta, a), p.radius);
  }

  lemma StartValid(origin: Vec, direction: Vec, radius: real, maxSize: Coord)
    ensures ValidParams(MakeParams(direction, radius, maxSize))
    ensures ValidCursor(MakeParams(direction, radius, maxSize), Start(origin, direction))
  {
    StepDeltaPositive(direction.x);
    StepDeltaPositive(direction.y);
    StepDeltaPositive(direction.z);
    IntBoundFinite(origin.x, direction.x);
    IntBoundFinite(origin.y, direction.y);
    IntBoundFinite(origin.z, direction.z);
  }

  lemma StepDeltaPositive(d: real)
    ensures d != 0.0 ==> StepDelta(d) > 0.0
  {
    if d < 0.0 {
      assert StepDelta(d) == -1.0 / d;
    }
  }

  lemma IntBoundFinite(s: real, ds: real)
    ensures IntBound(s, ds).PosInf? <==> ds == 0.0
  {
  }

  // ---------------------------------------------------------------------
  // Properties of the helpers

  /** mod with modulus 1 is the fractional part, for negative values too. */
  lemma ModUnit(v: real)
    ensures Mod(v, 1.0) == v - v.Floor as real
    ensures 0.0 <= Mod(v, 1.0) < 1.0
  {
    var r := JsRem(v, 1.0);
    assert v / 1.0 == v;
    assert r == v - Trunc(v) as real;
    var w := r + 1.0;
    assert w / 1.0 == w;
    if v >= 0.0 {
      assert 1.0 <= w < 2.0;
      assert w.Floor == 1;
    } else {
      var f := (-v).Floor;
      if v == -(f as real) {
        assert v.Floor == -f;
        assert w == 1.0;
      } else {
        assert v.Floor == -f - 1;
        assert 0.0 < w < 1.0;
        assert w.Floor == 0;
      }
    }
  }

  lemma NegatedInteger(x: real)
    ensures IsInteger(-x) <==> IsInteger(x)
  {
    if IsInteger(x) {
      assert -x == (-(x.Floor)) as real;
    }
    if IsInteger(-x) {
      assert x == (-((-x).Floor)) as real;
    }
  }

  function AbsReal(x: real): real {
    if x < 0.0 then -x else x
  }

  lemma IntBoundPositive(s: real, ds: real)
    requires ds > 0.0
    ensures IntBound(s, ds).Fin?
    ensures var t := IntBound(s, ds).v;
      && 0.0 < t && t * ds <= 1.0 && CrossesAt(s, ds, t)
      && forall u {:trigger CrossesAt(s, ds, u)} :: 0.0 < u < t ==> !CrossesAt(s, ds, u)
  {
    ModUnit(s);
    var fl := s.Floor as real;
    var t := (1.0 - Mod(s, 1.0)) / ds;
    assert t * ds == 1.0 - (s - fl);
    assert s + t * ds == fl + 1.0;
    assert (fl + 1.0).Floor == s.Floor + 1;
    assert IsInteger(fl + 1.0);
    assert CrossesAt(s, ds, t);
    assert IntBound(s, ds) == Fin(t);
    assert (s.Floor + 1) as real == fl + 1.0;
    forall u | 0.0 < u < t
      ensures !CrossesAt(s, ds, u)
    {
      assert u * ds < t * ds;
      assert 0.0 < u * ds;
      var x := s + u * ds;
      assert fl < x < fl + 1.0;
      assert x.Floor == s.Floor;
    }
  }

  lemma CrossesNegated(s: real, ds: real, u: real)
    ensures CrossesAt(s, ds, u) <==> CrossesAt(-s, -ds, u)
  {
    assert s + u * ds == -(-s + u * -ds);
    NegatedInteger(s + u * ds);
  }

  lemma IntBoundNegative(s: real, ds: real)
    requires ds < 0.0
    ensures IntBound(s, ds).Fin?
    ensures var t := IntBound(s, ds).v;
      && 0.0 < t && t * -ds <= 1.0 && CrossesAt(s, ds, t)
      && forall u {:trigger CrossesAt(s, ds, u)} :: 0.0 < u < t ==> !CrossesAt(s, ds, u)
  {
    IntBoundPositive(-s, -ds);
    var t := IntBound(s, ds).v;
    CrossesNegated(s, ds, t);
    forall u | 0.0 < u < t
      ensures !CrossesAt(s, ds, u)
    {
      CrossesNegated(s, ds, u);
    }
  }

  /** intbound gives the first boundary crossing strictly ahead of `s`, at
      most one cell width (`1 / |ds|`) away. */
  lemma IntBoundSpec(s: real, ds: real)
    requires ds != 0.0
    ensures IntBound(s, ds).Fin?
    ensures var t := IntBound(s, ds).v;
      && 0.0 < t && t * AbsReal(ds) <= 1.0 && CrossesAt(s, ds, t)
      && forall u {:trigger CrossesAt(s, ds, u)} :: 0.0 < u < t ==> !CrossesAt(s, ds, u)
  {
    if ds > 0.0 {
      IntBoundPositive(s, ds);
    } else {
      IntBoundNegative(s, ds);
    }
  }

  function Centre(c: Coord): Vec {
    Vec(c.x as real + 0.5, c.y as real + 0.5, c.z as real + 0.5)
  }

  /** distance sums the squared per-axis offsets from the viewer position
      `d` to the centre of cell `c`: it is never negative, bounds each
      axis's squared offset, and is zero at the centre. */
  lemma DistanceSpec(c: Coord, d: Vec)
    ensures Distance(c, d) >= 0.0
    ensures Square(Centre(c).x - d.x) <= Distance(c, d)
    ensures Square(Centre(c).y - d.y) <= Distance(c, d)
    ensures Square(Centre(c).z - d.z) <= Distance(c, d)
    ensures Distance(c, Centre(c)) == 0.0
  {
    assert Centre(c).x - d.x == c.x as real - d.x + 0.5;
    assert Centre(c).y - d.y == c.y as real - d.y + 0.5;
    assert Centre(c).z - d.z == c.z as real - d.z + 0.5;
  }

  /** The chosen axis has the smallest next crossing; among equal smallest
      ones the later axis wins (X only when strictly first, Z whenever it
      ties for the minimum). */
  lemma ChooseAxisSpec(t: Ext3)
    ensures ChooseAxis(t) == X <==> Less(t.x, t.y) && Less(t.x, t.z)
    ensures ChooseAxis(t) == Y <==> AtMost(t.y, t.x) && Less(t.y, t.z)
    ensures ChooseAxis(t) == Z <==> AtMost(t.z, t.x) && AtMost(t.z, t.y)
    ensures forall b: Axis :: AtMost(TOf(t, ChooseAxis(t)), TOf(t, b))
  {
  }

  /** For a non-zero direction the loop never steps along an axis the ray
      does not move on. */
  lemma ChosenAxisMoves(p: Params, cur: Cursor)
    requires ValidParams(p) && ValidCursor(p, cur) && p.step != Coord(0, 0, 0)
    ensures TOf(cur.tMax, ChooseAxis(cur.tMax)).Fin?
    ensures CellOf(p.step, ChooseAxis(cur.tMax)) != 0
  {
    ChooseAxisSpec(cur.tMax);
    var a :| CellOf(p.step, a) != 0;
    assert TOf(cur.tMax, a).Fin?;
  }

  function AddCoord(c: Coord, d: Coord): Coord {
    Coord(c.x + d.x, c.y + d.y, c.z + d.z)
  }

  function AbsInt(k: int): nat {
    if k < 0 then -k else k
  }

  predicate IsUnitFace(f: Coord) {
    AbsInt(f.x) + AbsInt(f.y) + AbsInt(f.z) == 1
  }

  /** Cell `v.cell` was entered from `prev` through the face `v.face`. */
  predicate EnteredFrom(prev: Coord, v: Visit) {
    IsUnitFace(v.face) && AddCoord(v.cell, v.face) == prev
  }

  /** One step moves to a face-adjacent cell, the recorded face points back
      to the cell left, and that axis's next crossing moves strictly later. */
  lemma AdvanceSpec(p: Params, cur: Cursor, a: Axis)
    requires ValidParams(p) && ValidCursor(p, cur) && TOf(cur.tMax, a).Fin?
    ensures var next := Advance(p, cur, a);
      && EnteredFrom(cur.cell, Visit(next.cell, next.face))
      && AbsInt(CellOf(next.cell, a) - CellOf(cur.cell, a)) == 1
      && (forall b: Axis :: b != a ==> CellOf(next.cell, b) == CellOf(cur.cell, b) && TOf(next.tMax, b) == TOf(cur.tMax, b))
      && Less(TOf(cur.tMax, a), TOf(next.tMax, a))
  {
    assert CellOf(p.step, a) != 0;
  }

  // ---------------------------------------------------------------------
  // Properties of the traversal

  lemma {:induction false} RunInWorld(p: Params, cb: (Coord, Coord) -> bool, cur: Cursor)
    requires ValidParams(p) && ValidCursor(p, cur)
    ensures forall i :: 0 <= i < |Run(p, cb, cur).visits| ==> InWorld(Run(p, cb, cur).visits[i].cell, p.maxSize)
    decreases Measure(p, cur)
  {
    if InsideAlongTravel(cur.cell, p.step, p.maxSize) && !(InWorld(cur.cell, p.maxSize) && cb(cur.cell, cur.face)) {
      var a := ChooseAxis(cur.tMax);
      if !Exceeds(TOf(cur.tMax, a), p.radius) {
        MeasureDecreases(p, cur, a);
        RunInWorld(p, cb, Advance(p, cur, a));
      }
    }
  }

  /** The callback is true at exactly one visited cell when a cell is
      returned, the last one, and it is that cell; otherwise at none. */
  lemma {:induction false} RunFirstAccepted(p: Params, cb: (Coord, Coord) -> bool, cur: Cursor)
    requires ValidParams(p) && ValidCursor(p, cur)
    ensures var tr := Run(p, cb, cur);
      && (forall i :: 0 <= i < |tr.visits| ==>
            (cb(tr.visits[i].cell, tr.visits[i].face) <==> tr.hit.Some? && i == |tr.visits| - 1))
      && (tr.hit.Some? ==> |tr.visits| > 0 && tr.hit.value == tr.visits[|tr.visits| - 1].cell)
    decreases Measure(p, cur)
  {
    if InsideAlongTravel(cur.cell, p.step, p.maxSize) && !(InWorld(cur.cell, p.maxSize) && cb(cur.cell, cur.face)) {
      var a := ChooseAxis(cur.tMax);
      if !Exceeds(TOf(cur.tMax, a), p.radius) {
        MeasureDecreases(p, cur, a);
        RunFirstAccepted(p, cb, Advance(p, cur, a));
      }
    }
  }

  /** A cursor inside the world is visited first, with its face. */
  lemma RunStartsHere(p: Params, cb: (Coord, Coord) -> bool, cur: Cursor)
    requires ValidParams(p) && ValidCursor(p, cur) && InWorld(cur.cell, p.maxSize)
    ensures |Run(p, cb, cur).visits| > 0 && Run(p, cb, cur).visits[0] == Visit(cur.cell, cur.face)
  {
  }

  /** Leaving the world is leaving it in the direction of travel, which
      ends the loop, so a step from a visited cell either stops or lands in
      the world. */
  lemma StepStaysOrStops(p: Params, cur: Cursor, a: Axis)
    requires ValidParams(p) && ValidCursor(p, cur) && TOf(cur.tMax, a).Fin?
    requires InWorld(cur.cell, p.maxSize)
    ensures var next := Advance(p, cur, a);
      InWorld(next.cell, p.maxSize) || !InsideAlongTravel(next.cell, p.step, p.maxSize)
  {
    assert CellOf(p.step, a) != 0;
  }

  /** The visited cells form a face-connected path: each one after the
      first was entered from its predecessor. */
  lemma {:induction false} RunContiguous(p: Params, cb: (Coord, Coord) -> bool, cur: Cursor)
    requires ValidParams(p) && ValidCursor(p, cur)
    ensures var vs := Run(p, cb, cur).visits;
      forall i :: 0 < i < |vs| ==> EnteredFrom(vs[i - 1].cell, vs[i])
    decreases Measure(p, cur)
  {
    if InsideAlongTravel(cur.cell, p.step, p.maxSize) && !(InWorld(cur.cell, p.maxSize) && cb(cur.cell, cur.face)) {
      var a := ChooseAxis(cur.tMax);
      if !Exceeds(TOf(cur.tMax, a), p.radius) {
        MeasureDecreases(p, cur, a);
        var next := Advance(p, cur, a);
        RunContiguous(p, cb, next);
        if InWorld(cur.cell, p.maxSize) {
          AdvanceSpec(p, cur, a);
          StepStaysOrStops(p, cur, a);
          if InWorld(next.cell, p.maxSize) {
            RunStartsHere(p, cb, next);
          }
        }
      }
    }
  }

  /** No finite next crossing of the cursor lies below `lo`. */
  predicate CrossingsFrom(cur: Cursor, lo: real) {
    forall a: Axis :: TOf(cur.tMax, a).Fin? ==> lo <= TOf(cur.tMax, a).v
  }

  /** After a step every finite next crossing is at least the one taken. */
  lemma NextCrossingsFrom(p: Params, cur: Cursor)
    requires ValidParams(p) && ValidCursor(p, cur) && TOf(cur.tMax, ChooseAxis(cur.tMax)).Fin?
    ensures CrossingsFrom(Advance(p, cur, ChooseAxis(cur.tMax)), TOf(cur.tMax, ChooseAxis(cur.tMax)).v)
  {
    var a := ChooseAxis(cur.tMax);
    var t := TOf(cur.tMax, a);
    var next := Advance(p, cur, a);
    ChooseAxisSpec(cur.tMax);
    AdvanceSpec(p, cur, a);
    forall b: Axis | TOf(next.tMax, b).Fin?
      ensures t.v <= TOf(next.tMax, b).v
    {
      assert AtMost(t, TOf(cur.tMax, b));
    }
  }

  lemma SortedCons(lo: real, t: real, hi: real, rest: seq<real>)
    requires lo <= t <= hi
    requires forall i :: 0 <= i < |rest| ==> t <= rest[i] <= hi
    requires forall i, j :: 0 <= i <= j < |rest| ==> rest[i] <= rest[j]
    ensures forall i :: 0 <= i < |[t] + rest| ==> lo <= ([t] + rest)[i] <= hi
    ensures forall i, j :: 0 <= i <= j < |[t] + rest| ==> ([t] + rest)[i] <= ([t] + rest)[j]
  {
  }

  /** The crossings taken are in non-decreasing order, none below the
      cursor's next crossings and none beyond the radius. */
  lemma {:induction false} RunCrossings(p: Params, cb: (Coord, Coord) -> bool, cur: Cursor, lo: real)
    requires ValidParams(p) && ValidCursor(p, cur) && CrossingsFrom(cur, lo)
    ensures forall i :: 0 <= i < |Run(p, cb, cur).crossings| ==> lo <= Run(p, cb, cur).crossings[i] <= p.radius
    ensures forall i, j :: 0 <= i <= j < |Run(p, cb, cur).crossings| ==> Run(p, cb, cur).crossings[i] <= Run(p, cb, cur).crossings[j]
    decreases Measure(p, cur)
  {
    if InsideAlongTravel(cur.cell, p.step, p.maxSize) && !(InWorld(cur.cell, p.maxSize) && cb(cur.cell, cur.face)) {
      var a := ChooseAxis(cur.tMax);
      var t := TOf(cur.tMax, a);
      if !Exceeds(t, p.radius) {
        MeasureDecreases(p, cur, a);
        var next := Advance(p, cur, a);
        NextCrossingsFrom(p, cur);
        RunCrossings(p, cb, next, t.v);
        SortedCons(lo, t.v, p.radius, Run(p, cb, next).crossings);
      }
    }
  }

  /** The whole raycast: a zero direction is an error and nothing else is;
      otherwise the visits stay in the world, form a face-connected path
      starting at the origin's cell with a zero face when that cell is in
      the world, the returned cell is the one the callback accepted and the
      only one, and the crossings taken are positive, sorted and within the
      radius. */
  lemma RaycastSpec(origin: Vec, direction: Vec, radius: real, maxSize: Coord, cb: (Coord, Coord) -> bool)
    ensures Raycast(origin, direction, radius, maxSize, cb).Err? <==> direction == Vec(0.0, 0.0, 0.0)
    ensures var r := Raycast(origin, direction, radius, maxSize, cb);
      r.Ok? ==>
        var tr := r.value;
        && (forall i :: 0 <= i < |tr.visits| ==> InWorld(tr.visits[i].cell, maxSize))
        && (forall i :: 0 < i < |tr.visits| ==> EnteredFrom(tr.visits[i - 1].cell, tr.visits[i]))
        && (InWorld(Start(origin, direction).cell, maxSize) ==>
              |tr.visits| > 0 && tr.visits[0] == Visit(Start(origin, direction).cell, Coord(0, 0, 0)))
        && (forall i :: 0 <= i < |tr.visits| ==>
              (cb(tr.visits[i].cell, tr.visits[i].face) <==> tr.hit.Some? && i == |tr.visits| - 1))
        && (tr.hit.Some? ==> |tr.visits| > 0 && tr.hit.value == tr.visits[|tr.visits| - 1].cell)
        && (forall i :: 0 <= i < |tr.crossings| ==> 0.0 < tr.crossings[i] <= radius)
        && (forall i, j :: 0 <= i <= j < |tr.crossings| ==> tr.crossings[i] <= tr.crossings[j])
  {
    if direction != Vec(0.0, 0.0, 0.0) {
      var p := MakeParams(direction, radius, maxSize);
      var cur := Start(origin, direction);
      StartValid(origin, direction, radius, maxSize);
      RunInWorld(p, cb, cur);
      RunContiguous(p, cb, cur);
      RunFirstAccepted(p, cb, cur);
      if InWorld(cur.cell, maxSize) {
        RunStartsHere(p, cb, cur);
      }
      var lo := StartFloor(origin, direction);
      RunCrossings(p, cb, cur, lo);
    }
  }

  /** Every first crossing is strictly ahead of the origin; returns a
      positive lower bound for them. */
  lemma StartFloor(origin: Vec, direction: Vec) returns (lo: real)
    ensures lo > 0.0 && CrossingsFrom(Start(origin, direction), lo)
  {
    var cur := Start(origin, direction);
    lo := 1.0;
    forall a: Axis | TOf(cur.tMax, a).Fin?
      ensures 0.0 < TOf(cur.tMax, a).v
    {
      IntBoundFinite(DeltaOf(origin, a), DeltaOf(direction, a));
      IntBoundSpec(DeltaOf(origin, a), DeltaOf(direction, a));
      assert TOf(cur.tMax, a) == IntBound(DeltaOf(origin, a), DeltaOf(direction, a));
    }
    assert cur.tMax.x == TOf(cur.tMax, X) && cur.tMax.y == TOf(cur.tMax, Y) && cur.tMax.z == TOf(cur.tMax, Z);
    if cur.tMax.x.Fin? && cur.tMax.x.v < lo { lo := cur.tMax.x.v; }
    if cur.tMax.y.Fin? && cur.tMax.y.v < lo { lo := cur.tMax.y.v; }
    if cur.tMax.z.Fin? && cur.tMax.z.v < lo { lo := cur.tMax.z.v; }
    forall a: Axis
      ensures TOf(cur.tMax, a).Fin? ==> lo <= TOf(cur.tMax, a).v
    {
      match a
      case X =>
      case Y =>
      case Z =>
    }
  }
  /** A rejected cell in the world, with the next crossing within the
      radius: the loop visits it and carries on from the advanced cursor. */
  lemma RunRejectedStep(p: Params, cb: (Coord, Coord) -> bool, cur: Cursor)
    requires ValidParams(p) && ValidCursor(p, cur) && InWorld(cur.cell, p.maxSize) && !cb(cur.cell, cur.face)
    requires !Exceeds(TOf(cur.tMax, ChooseAxis(cur.tMax)), p.radius)
    ensures ValidCursor(p, Advance(p, cur, ChooseAxis(cur.tMax)))
    ensures Run(p, cb, cur).visits == [Visit(cur.cell, cur.face)] + Run(p, cb, Advance(p, cur, ChooseAxis(cur.tMax))).visits
  {
    AdvanceKeepsValid(p, cur, ChooseAxis(cur.tMax));
  }

  /** A level gaze on the exact model: from the centre of cell (0, 0, 0)
      towards (0.6, 0, 0.8), the ray crosses into (0, 0, 1) at 0.625 and
      then into (1, 0, 1) at 5/6, so X is stepped. */
  lemma LevelGazeStepsX()
    ensures var r := Raycast(Vec(0.5, 0.5, 0.5), Vec(0.6, 0.0, 0.8), 20.0, Coord(10, 10, 10),
                             (c: Coord, f: Coord) => false);
      && r.Ok?
      && |r.value.visits| >= 3
      && r.value.visits[0].cell == Coord(0, 0, 0)
      && r.value.visits[1].cell == Coord(0, 0, 1)
      && r.value.visits[2].cell == Coord(1, 0, 1)
  {
    var origin, direction := Vec(0.5, 0.5, 0.5), Vec(0.6, 0.0, 0.8);
    var cb := (c: Coord, f: Coord) => false;
    var p := MakeParams(direction, 20.0, Coord(10, 10, 10));
    assert p.step == Coord(1, 0, 1);
    assert p.tDelta == Vec(1.0 / 0.6, 0.0, 1.25);
    assert Mod(0.5, 1.0) == 0.5;
    var c0 := Start(origin, direction);
    assert c0 == Cursor(Coord(0, 0, 0), Coord(0, 0, 0), Ext3(Fin(0.5 / 0.6), PosInf, Fin(0.625)));
    StartValid(origin, direction, 20.0, Coord(10, 10, 10));
    assert ChooseAxis(c0.tMax) == Z;
    var c1 := Advance(p, c0, Z);
    assert c1 == Cursor(Coord(0, 0, 1), Coord(0, 0, -1), Ext3(Fin(0.5 / 0.6), PosInf, Fin(1.875)));
    RunRejectedStep(p, cb, c0);
    assert ChooseAxis(c1.tMax) == X;
    var c2 := Advance(p, c1, X);
    assert c2.cell == Coord(1, 0, 1);
    RunRejectedStep(p, cb, c1);
    RunStartsHere(p, cb, c2);
    assert Raycast(origin, direction, 20.0, Coord(10, 10, 10), cb) == Ok(Run(p, cb, c0));
  }
}
