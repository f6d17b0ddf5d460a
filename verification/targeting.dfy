/** Targeting: after every camera move or turn the scene casts a ray from
    the viewer and makes the first acceptable cell the target box. */
module Targeting {
  import opened Base
  import opened Keys
  import opened Neighbors
  import opened KeyedMaps
  import opened World
  import opened Ray
  import opened Protocol

  /** The last camera position and the last view direction (the unit
      vector `normalize` produced); `None` until the first event. */
  datatype Pose = Pose(lastPosition: Option<Vec>, lastRotation: Option<Vec>)

  /** The ray length passed to raycast, in cube edges. */
  const Reach: real := 20.0

  /** Cells whose squared centre distance from the viewer is below this are
      never targeted. */
  const MinDistance: real := 2.5

  function WorldSize(cfg: Config): Coord {
    Coord(cfg.limitX, cfg.limitY, cfg.limitZ)
  }

  /** The raycast callback of updateCurrent: not too close, and a
      placeholder or a built box under the cell's key. */
  predicate Accept(s: State, viewer: Vec, c: Coord) {
    Distance(c, viewer) >= MinDistance
    && (Live(s.placeholderBoxes, Key(c)) || Live(s.finalBoxes, Key(c)))
  }

  function Cast(cfg: Config, s: State, pos: Vec, rot: Vec): Result<Trace, RangeError> {
    Raycast(pos, rot, Reach, WorldSize(cfg), (c: Coord, f: Coord) => Accept(s, pos, c))
  }

  /** updateCurrent: with both a position and a direction, a hit becomes
      the target; a miss keeps the old target, and a zero direction throws
      before anything changes. */
  function UpdateCurrent(cfg: Config, s: State, pose: Pose): State {
    if pose.lastPosition.None? || pose.lastRotation.None? then s
    else
      match Cast(cfg, s, pose.lastPosition.value, pose.lastRotation.value)
      case Err(_) => s
      case Ok(tr) => if tr.hit.Some? then s.(currentBox := tr.hit) else s
  }

  /** Only the target can change, only once both pose parts are known, and
      a new target is an in-world cell that the callback accepts: a
      placeholder or built box at least the minimum distance away. */
  lemma UpdateCurrentSpec(cfg: Config, s: State, pose: Pose)
    ensures UpdateCurrent(cfg, s, pose).finalBoxes == s.finalBoxes
    ensures UpdateCurrent(cfg, s, pose).placeholderBoxes == s.placeholderBoxes
    ensures pose.lastPosition.None? || pose.lastRotation.None? ==> UpdateCurrent(cfg, s, pose) == s
    ensures pose.lastRotation == Some(Vec(0.0, 0.0, 0.0)) ==> UpdateCurrent(cfg, s, pose) == s
    ensures var s' := UpdateCurrent(cfg, s, pose);
      s'.currentBox != s.currentBox ==>
        && s'.currentBox.Some?
        && pose.lastPosition.Some?
        && InWorld(s'.currentBox.value, WorldSize(cfg))
        && Accept(s, pose.lastPosition.value, s'.currentBox.value)
  {
    if pose.lastPosition.Some? && pose.lastRotation.Some? {
      var pos, rot := pose.lastPosition.value, pose.lastRotation.value;
      var cb := (c: Coord, f: Coord) => Accept(s, pos, c);
      RaycastSpec(pos, rot, Reach, WorldSize(cfg), cb);
    }
  }

  /** The new target is the first cell along the ray that the callback
      accepts: every cell visited before it was rejected. */
  lemma UpdateCurrentFirstAccepted(cfg: Config, s: State, pos: Vec, rot: Vec)
    requires Cast(cfg, s, pos, rot).Ok? && Cast(cfg, s, pos, rot).value.hit.Some?
    ensures var vs := Cast(cfg, s, pos, rot).value.visits;
      && |vs| > 0
      && UpdateCurrent(cfg, s, Pose(Some(pos), Some(rot))).currentBox == Some(vs[|vs| - 1].cell)
      && forall i :: 0 <= i < |vs| - 1 ==> !Accept(s, pos, vs[i].cell)
  {
    var cb := (c: Coord, f: Coord) => Accept(s, pos, c);
    RaycastSpec(pos, rot, Reach, WorldSize(cfg), cb);
  }

  /** A miss leaves a stale target: the state is unchanged. */
  lemma MissKeepsTarget(cfg: Config, s: State, pos: Vec, rot: Vec)
    requires Cast(cfg, s, pos, rot).Ok? && Cast(cfg, s, pos, rot).value.hit.None?
    ensures UpdateCurrent(cfg, s, Pose(Some(pos), Some(rot))) == s
    ensures forall v :: v in Cast(cfg, s, pos, rot).value.visits ==> !Accept(s, pos, v.cell)
  {
    var cb := (c: Coord, f: Coord) => Accept(s, pos, c);
    RaycastSpec(pos, rot, Reach, WorldSize(cfg), cb);
  }

  /** Placeholders on the far faces of the world (coordinate equal to the
      limit, which `nineNeighbors` admits) can never become the target,
      since the ray only calls back inside `[0, LIMIT)`. */
  lemma FarFaceNeverTargeted(cfg: Config, s: State, pose: Pose, c: Coord)
    requires c.x == cfg.limitX || c.y == cfg.limitY || c.z == cfg.limitZ
    requires s.currentBox != Some(c)
    ensures UpdateCurrent(cfg, s, pose).currentBox != Some(c)
  {
    UpdateCurrentSpec(cfg, s, pose);
  }

  /** A vector of length one, as `normalize` yields for a non-zero input. */
  predicate IsUnit(v: Vec) {
    v.x * v.x + v.y * v.y + v.z * v.z == 1.0
  }

  /** The squared length of the offset `t * v` from the viewer. */
  function SquaredOffset(v: Vec, t: real): real {
    Square(t * v.x) + Square(t * v.y) + Square(t * v.z)
  }

  lemma ScaledUnit(v: Vec, t: real)
    requires IsUnit(v) && 0.0 <= t <= Reach
    ensures SquaredOffset(v, t) <= Reach * Reach
  {
    assert SquaredOffset(v, t) == t * t by {
      assert Square(t * v.x) == (t * t) * (v.x * v.x);
      assert Square(t * v.y) == (t * t) * (v.y * v.y);
      assert Square(t * v.z) == (t * t) * (v.z * v.z);
      assert SquaredOffset(v, t) == (t * t) * (v.x * v.x + v.y * v.y + v.z * v.z);
    }
    assert t * t <= Reach * Reach by {
      assert Reach == 20.0 && Reach * Reach == 400.0;
      assert t * t <= 20.0 * t;
    }
  }

  /** With a unit view direction the ray parameter is a distance, so a
      reach of 20 is 20 cube edges: the cast does not throw, and every
      boundary it crosses lies within 20 edges of the viewer. */
  lemma UnitReachIsDistance(cfg: Config, s: State, pos: Vec, rot: Vec)
    requires IsUnit(rot)
    ensures Cast(cfg, s, pos, rot).Ok?
    ensures var xs := Cast(cfg, s, pos, rot).value.crossings;
      forall i :: 0 <= i < |xs| ==> SquaredOffset(rot, xs[i]) <= Reach * Reach
  {
    var cb := (c: Coord, f: Coord) => Accept(s, pos, c);
    RaycastSpec(pos, rot, Reach, WorldSize(cfg), cb);
    var xs := Cast(cfg, s, pos, rot).value.crossings;
    forall i | 0 <= i < |xs|
      ensures SquaredOffset(rot, xs[i]) <= Reach * Reach
    {
      ScaledUnit(rot, xs[i]);
    }
  }

  /** updateCurrent after each camera event in turn. */
  function Retarget(cfg: Config, s: State, poses: seq<Pose>): State
    decreases |poses|
  {
    if poses == [] then s else Retarget(cfg, UpdateCurrent(cfg, s, poses[0]), poses[1..])
  }

  /** Camera events only ever move the target. */
  lemma {:induction false} RetargetKeepsMaps(cfg: Config, s: State, poses: seq<Pose>)
    ensures Retarget(cfg, s, poses).finalBoxes == s.finalBoxes
    ensures Retarget(cfg, s, poses).placeholderBoxes == s.placeholderBoxes
    decreases |poses|
  {
    if poses != [] {
      UpdateCurrentSpec(cfg, s, poses[0]);
      RetargetKeepsMaps(cfg, UpdateCurrent(cfg, s, poses[0]), poses[1..]);
    }
  }

  /** The server echoes a build or destroy to its sender, after a round
      trip during which camera events may have set a new target. The echo
      leaves both maps as the local action made them and only clears the
      target again. */
  lemma EchoOnlyClearsTarget(cfg: Config, s: State, p: Coord, poses: seq<Pose>)
    ensures var built := FinalizeBox(cfg, s, p);
      Dispatch(cfg, Retarget(cfg, built, poses), Message(Str("build"), Str(Key(p)))) == built
    ensures var deleted := DeleteBox(s, p);
      Dispatch(cfg, Retarget(cfg, deleted, poses), Message(Str("destroy"), Str(Key(p)))) == deleted
  {
    EchoBuild(cfg, s, p, poses);
    EchoDestroy(cfg, s, p, poses);
  }

  lemma EchoBuild(cfg: Config, s: State, p: Coord, poses: seq<Pose>)
    ensures var built := FinalizeBox(cfg, s, p);
      Dispatch(cfg, Retarget(cfg, built, poses), Message(Str("build"), Str(Key(p)))) == built
  {
    DecodeKey(p);
    var built := FinalizeBox(cfg, s, p);
    var r := Retarget(cfg, built, poses);
    RetargetKeepsMaps(cfg, built, poses);
    assert Dispatch(cfg, r, Message(Str("build"), Str(Key(p)))) == FinalizeBox(cfg, r, p);
    assert FinalizeBox(cfg, r, p) == FinalizeBox(cfg, built, p);
    FinalizeIdempotent(cfg, s, p);
  }

  lemma EchoDestroy(cfg: Config, s: State, p: Coord, poses: seq<Pose>)
    ensures var deleted := DeleteBox(s, p);
      Dispatch(cfg, Retarget(cfg, deleted, poses), Message(Str("destroy"), Str(Key(p)))) == deleted
  {
    var deleted := DeleteBox(s, p);
    var r := Retarget(cfg, deleted, poses);
    RetargetKeepsMaps(cfg, deleted, poses);
    DestroyDispatch(cfg, r, p);
    DeleteTwice(s, p);
    assert DeleteBox(r, p) == DeleteBox(deleted, p);
  }

  lemma DeleteTwice(s: State, p: Coord)
    ensures DeleteBox(DeleteBox(s, p), p) == DeleteBox(s, p)
  {
  }

  /** A `destroy` of a cell's key deletes that cell. */
  lemma DestroyDispatch(cfg: Config, s: State, p: Coord)
    ensures Dispatch(cfg, s, Message(Str("destroy"), Str(Key(p)))) == DeleteBox(s, p)
  {
    DecodeKey(p);
    assert "destroy"[0] != "build"[0];
  }
}
