/** The client's replicated world: built boxes, the placeholder frontier and
    the targeted box, with the transitions of the scene component. Every
    transition builds a new state from the old one, as the source's
    copy-and-override `setState` calls do. */
module World {
  import opened Base
  import opened Keys
  import opened Neighbors
  import opened Protocol
  import opened KeyedMaps

  /** A `CoordinateToPosition` object: string keys to coordinate objects,
      where a `Null` value is a `null` tombstone (the key stays present). */
  type Boxes = CellMap<string>

  datatype State = State(finalBoxes: Boxes, placeholderBoxes: Boxes, currentBox: Option<Coord>)

  const Initial: State := State(map[], map[], None)

  /** The ground frontier: `(i, 0, j)` for `1 <= i < LIMIT_X`, `1 <= j < LIMIT_Z`. */
  predicate IsGround(cfg: Config, c: Coord) {
    1 <= c.x < cfg.limitX && c.y == 0 && 1 <= c.z < cfg.limitZ
  }

  /** The ground cells in the order of the two nested `for` loops. */
  function GroundCells(cfg: Config): seq<Coord> {
    GroundFrom(cfg, 1)
  }

  function GroundFrom(cfg: Config, i: int): seq<Coord>
    decreases cfg.limitX - i
  {
    if i >= cfg.limitX then [] else GroundRow(cfg, i, 1) + GroundFrom(cfg, i + 1)
  }

  function GroundRow(cfg: Config, i: int, j: int): seq<Coord>
    decreases cfg.limitZ - j
  {
    if j >= cfg.limitZ then [] else [Coord(i, 0, j)] + GroundRow(cfg, i, j + 1)
  }

  /** finalizeBox (build): the cell is built, every cell `nineNeighbors`
      lists becomes a placeholder (the first listing of a key wins), then
      the cell's own placeholder entry is tombstoned; the target is cleared. */
  function FinalizeBox(cfg: Config, s: State, p: Coord): State {
    var str := Key(p);
    var listed := AddIfUndefined(Key, map[], NineNeighbors(cfg, p));
    State(s.finalBoxes[str := Cell(p)], (s.placeholderBoxes + listed)[str := Null], None)
  }

  /** deleteBox (destroy): the cell's built entry is tombstoned, the cell is
      a placeholder again, and the target is cleared. */
  function DeleteBox(s: State, p: Coord): State {
    var str := Key(p);
    State(s.finalBoxes[str := Null], s.placeholderBoxes[str := Cell(p)], None)
  }

  /** finalizeBox on the object decoded from a string with a `NaN` or
      missing field: it is filed under its `NaN`/`undefined` key, and
      `nineNeighbors` lists nothing since every bound check fails on `NaN`. */
  function FinalizeGarbled(s: State, c: string): State {
    var str := DecodedKey(c);
    State(s.finalBoxes[str := Garbled(Decode(c))], s.placeholderBoxes[str := Null], None)
  }

  /** deleteBox on such an object. */
  function DeleteGarbled(s: State, c: string): State {
    var str := DecodedKey(c);
    State(s.finalBoxes[str := Null], s.placeholderBoxes[str := Garbled(Decode(c))], None)
  }

  /** setupLocal: the offline fallback, nothing built and the ground seeded.
      The source's loop has no built check; with nothing built the shared
      seeding loop writes the same entries. */
  function SetupLocal(cfg: Config): State {
    State(map[], SeedUnlessLive(Key, map[], GroundCells(cfg), map[]), None)
  }

  /** The cells the snapshot items decode to, in item order. */
  function Built(items: seq<string>): seq<Coord> {
    if items == [] then []
    else
      (match ToCoord(Decode(items[0])) case Some(b) => [b] case None => [])
      + Built(items[1..])
  }

  /** `finalBoxes[item] = getElementPositionFromString(item)` per item,
      keyed by the item text itself; an item with a `NaN` field stores its
      garbled object too. */
  function BuildFinal(m: Boxes, items: seq<string>): Boxes
    decreases |items|
  {
    if items == [] then m
    else
      var item := items[0];
      BuildFinal(m[item := PositionOf(item)], items[1..])
  }

  /** The neighbourhoods of the given cells, concatenated in order. */
  function HaloOf(cfg: Config, cells: seq<Coord>): seq<Coord> {
    if cells == [] then [] else NineNeighbors(cfg, cells[0]) + HaloOf(cfg, cells[1..])
  }

  /** The state-building part of syncWithServer, over the decoded `/all`
      array. The source interleaves the two per-item writes in one loop; they
      touch different maps, so they are written as two passes here. */
  function SyncWithServer(cfg: Config, items: seq<string>): State {
    var finalBoxes := BuildFinal(map[], items);
    var near := AddIfUndefined(Key, map[], HaloOf(cfg, Built(items)));
    State(finalBoxes, SeedUnlessLive(Key, near, GroundCells(cfg), finalBoxes), None)
  }

  /** The `message` listener: `build` finalizes and `destroy` deletes the
      decoded cell; anything else is ignored. */
  function Dispatch(cfg: Config, s: State, m: Message): State {
    if m.a == Str("build") || m.a == Str("destroy") then
      match m.c
      case NonString(_) => s  // `c.split` is not a function: the listener throws
      case Unconvertible => s
      case Str(c) =>
        match ToCoord(Decode(c))
        case Some(p) => if m.a == Str("build") then FinalizeBox(cfg, s, p) else DeleteBox(s, p)
        case None => if m.a == Str("build") then FinalizeGarbled(s, c) else DeleteGarbled(s, c)
    else s
  }

  // ---------------------------------------------------------------------
  // Helpers about the loops

  lemma {:induction false} GroundRowMember(cfg: Config, i: int, j: int, c: Coord)
    ensures c in GroundRow(cfg, i, j) <==> c.x == i && c.y == 0 && j <= c.z < cfg.limitZ
    decreases cfg.limitZ - j
  {
    if j < cfg.limitZ {
      GroundRowMember(cfg, i, j + 1, c);
    }
  }

  lemma {:induction false} GroundFromMember(cfg: Config, i: int, c: Coord)
    ensures c in GroundFrom(cfg, i) <==> i <= c.x < cfg.limitX && c.y == 0 && 1 <= c.z < cfg.limitZ
    decreases cfg.limitX - i
  {
    if i < cfg.limitX {
      GroundRowMember(cfg, i, 1, c);
      GroundFromMember(cfg, i + 1, c);
    }
  }

  /** The two nested loops visit exactly the ground cells. */
  lemma GroundCellsMember(cfg: Config)
    ensures forall c :: c in GroundCells(cfg) <==> IsGround(cfg, c)
  {
    forall c ensures c in GroundCells(cfg) <==> IsGround(cfg, c) {
      GroundFromMember(cfg, 1, c);
    }
  }

  lemma {:induction false} BuiltMember(items: seq<string>, b: Coord)
    ensures b in Built(items) <==> exists item :: item in items && ToCoord(Decode(item)) == Some(b)
  {
    if items != [] {
      BuiltMember(items[1..], b);
      assert b in Built(items) <==> ToCoord(Decode(items[0])) == Some(b) || b in Built(items[1..]);
      if exists item :: item in items && ToCoord(Decode(item)) == Some(b) {
        var item :| item in items && ToCoord(Decode(item)) == Some(b);
        if item != items[0] {
          assert item in items[1..];
        }
      }
      if b in Built(items[1..]) {
        var item :| item in items[1..] && ToCoord(Decode(item)) == Some(b);
        assert item in items;
      }
    }
  }

  lemma {:induction false} HaloOfMember(cfg: Config, cells: seq<Coord>, n: Coord)
    ensures n in HaloOf(cfg, cells) <==> exists b :: b in cells && InHalo(cfg, b, n)
  {
    if cells != [] {
      HaloOfMember(cfg, cells[1..], n);
      NineNeighborsMember(cfg, cells[0], n);
      assert n in HaloOf(cfg, cells) <==> n in NineNeighbors(cfg, cells[0]) || n in HaloOf(cfg, cells[1..]);
      if exists b :: b in cells && InHalo(cfg, b, n) {
        var b :| b in cells && InHalo(cfg, b, n);
        if b != cells[0] {
          assert b in cells[1..];
        }
      }
      if n in HaloOf(cfg, cells[1..]) {
        var b :| b in cells[1..] && InHalo(cfg, b, n);
        assert b in cells;
      }
    }
  }

  lemma {:induction false} BuildFinalSpec(m: Boxes, items: seq<string>)
    ensures forall k :: k in BuildFinal(m, items) <==> k in m || k in items
    ensures forall k :: k in items ==> BuildFinal(m, items)[k] == PositionOf(k)
    ensures forall k :: k in m && k !in items ==> BuildFinal(m, items)[k] == m[k]
    decreases |items|
  {
    if items != [] {
      var item := items[0];
      var m' := m[item := PositionOf(item)];
      BuildFinalSpec(m', items[1..]);
      assert items == [item] + items[1..];
    }
  }

  /** The placeholders a build lists: one per neighbourhood cell, each under
      its own key, and no other key. */
  lemma ListedNeighbors(cfg: Config, p: Coord)
    ensures forall k :: k in AddIfUndefined(Key, map[], NineNeighbors(cfg, p)) <==>
      exists n :: InHalo(cfg, p, n) && k == Key(n)
    ensures forall n :: InHalo(cfg, p, n) ==>
      Key(n) in AddIfUndefined(Key, map[], NineNeighbors(cfg, p)) &&
      AddIfUndefined(Key, map[], NineNeighbors(cfg, p))[Key(n)] == Cell(n)
  {
    KeyIsInjective();
    AddIfUndefinedSpec(Key, map[], NineNeighbors(cfg, p));
    forall n ensures n in NineNeighbors(cfg, p) <==> InHalo(cfg, p, n) {
      NineNeighborsMember(cfg, p, n);
    }
  }

  // ---------------------------------------------------------------------
  // Build

  /** After a build the cell is built, its own placeholder entry is a
      tombstone (overriding its listing as its own neighbour) and nothing is
      targeted; every other built entry is as before. */
  lemma FinalizeBuilds(cfg: Config, s: State, p: Coord)
    ensures FinalizeBox(cfg, s, p).finalBoxes[Key(p)] == Cell(p)
    ensures Key(p) in FinalizeBox(cfg, s, p).placeholderBoxes
    ensures FinalizeBox(cfg, s, p).placeholderBoxes[Key(p)] == Null
    ensures FinalizeBox(cfg, s, p).currentBox == None
    ensures forall k :: k != Key(p) ==>
      (k in FinalizeBox(cfg, s, p).finalBoxes <==> k in s.finalBoxes) &&
      (k in s.finalBoxes ==> FinalizeBox(cfg, s, p).finalBoxes[k] == s.finalBoxes[k])
  {
  }

  /** Every other cell of the neighbourhood becomes a live placeholder,
      whatever it held before: built, tombstoned or absent. */
  lemma FinalizeFrontier(cfg: Config, s: State, p: Coord)
    ensures forall n :: InHalo(cfg, p, n) && n != p ==>
      Key(n) in FinalizeBox(cfg, s, p).placeholderBoxes &&
      FinalizeBox(cfg, s, p).placeholderBoxes[Key(n)] == Cell(n)
  {
    ListedNeighbors(cfg, p);
    forall n | InHalo(cfg, p, n) && n != p
      ensures Key(n) != Key(p)
    {
      KeyInjective(n, p);
    }
  }

  /** Placeholder keys only grow, by the neighbourhood and the cell itself,
      and entries outside both are untouched. */
  lemma FinalizeFrame(cfg: Config, s: State, p: Coord)
    ensures forall k :: k in FinalizeBox(cfg, s, p).placeholderBoxes <==>
      k in s.placeholderBoxes || k == Key(p) || exists n :: InHalo(cfg, p, n) && k == Key(n)
    ensures forall k :: k in s.placeholderBoxes && k != Key(p) && (forall n :: InHalo(cfg, p, n) ==> k != Key(n)) ==>
      FinalizeBox(cfg, s, p).placeholderBoxes[k] == s.placeholderBoxes[k]
  {
    ListedNeighbors(cfg, p);
  }

  /** The frontier is not kept disjoint from the built cells: a built
      neighbour of a new build is both built and a live placeholder. */
  lemma FinalizeMarksBuiltNeighbor(cfg: Config, s: State, p: Coord, n: Coord)
    requires InHalo(cfg, p, n) && n != p
    requires Key(n) in s.finalBoxes && s.finalBoxes[Key(n)] == Cell(n)
    ensures Live(FinalizeBox(cfg, s, p).finalBoxes, Key(n))
    ensures Live(FinalizeBox(cfg, s, p).placeholderBoxes, Key(n))
  {
    FinalizeFrontier(cfg, s, p);
    KeyInjective(n, p);
  }

  /** Applying the same build twice is the same as applying it once. */
  lemma FinalizeIdempotent(cfg: Config, s: State, p: Coord)
    ensures FinalizeBox(cfg, FinalizeBox(cfg, s, p), p) == FinalizeBox(cfg, s, p)
  {
    var once := FinalizeBox(cfg, s, p);
    var twice := FinalizeBox(cfg, once, p);
    assert twice.placeholderBoxes == once.placeholderBoxes;
  }

  // ---------------------------------------------------------------------
  // Destroy

  /** After a destroy the built entry is a tombstone whose key remains, the
      cell is a live placeholder again, nothing is targeted, and every other
      entry of both maps is as before. */
  lemma DeleteSpec(s: State, p: Coord)
    ensures Key(p) in DeleteBox(s, p).finalBoxes && !Live(DeleteBox(s, p).finalBoxes, Key(p))
    ensures DeleteBox(s, p).placeholderBoxes[Key(p)] == Cell(p)
    ensures DeleteBox(s, p).currentBox == None
    ensures forall k :: k != Key(p) ==>
      (k in DeleteBox(s, p).finalBoxes <==> k in s.finalBoxes) &&
      (k in DeleteBox(s, p).placeholderBoxes <==> k in s.placeholderBoxes)
    ensures forall k :: k != Key(p) && k in s.finalBoxes ==> DeleteBox(s, p).finalBoxes[k] == s.finalBoxes[k]
    ensures forall k :: k != Key(p) && k in s.placeholderBoxes ==> DeleteBox(s, p).placeholderBoxes[k] == s.placeholderBoxes[k]
  {
  }

  /** A destroy never shrinks the frontier: every placeholder key stays and
      every live placeholder stays live. */
  lemma DeleteNeverShrinksFrontier(s: State, p: Coord)
    ensures s.placeholderBoxes.Keys <= DeleteBox(s, p).placeholderBoxes.Keys
    ensures forall k :: Live(s.placeholderBoxes, k) ==> Live(DeleteBox(s, p).placeholderBoxes, k)
  {
  }

  /** Building then destroying a cell leaves its whole neighbourhood as
      live placeholders: the frontier the build grew is not retracted. */
  lemma DestroyKeepsGrownFrontier(cfg: Config, s: State, p: Coord)
    ensures forall n :: InHalo(cfg, p, n) ==>
      Live(DeleteBox(FinalizeBox(cfg, s, p), p).placeholderBoxes, Key(n))
    ensures !Live(DeleteBox(FinalizeBox(cfg, s, p), p).finalBoxes, Key(p))
  {
    FinalizeFrontier(cfg, s, p);
  }

  // ---------------------------------------------------------------------
  // Local fallback and snapshot rebuild

  /** The offline fallback builds nothing and makes exactly the ground cells
      placeholders, each under its own key. */
  lemma SetupLocalSpec(cfg: Config)
    ensures SetupLocal(cfg).finalBoxes == map[]
    ensures SetupLocal(cfg).currentBox == None
    ensures forall c :: Key(c) in SetupLocal(cfg).placeholderBoxes <==> IsGround(cfg, c)
    ensures forall c :: IsGround(cfg, c) ==> SetupLocal(cfg).placeholderBoxes[Key(c)] == Cell(c)
    ensures forall k :: k in SetupLocal(cfg).placeholderBoxes ==> exists c :: IsGround(cfg, c) && k == Key(c)
  {
    KeyIsInjective();
    SeedUnlessLiveSpec(Key, map[], GroundCells(cfg), map[]);
    GroundCellsMember(cfg);
  }

  /** A cell is near the snapshot when it lies in the neighbourhood of a cell
      some snapshot item decodes to. */
  ghost predicate NearSnapshot(cfg: Config, items: seq<string>, n: Coord) {
    exists b :: b in Built(items) && InHalo(cfg, b, n)
  }

  /** Each decodable snapshot item becomes a built entry under its own text;
      nothing else is built and nothing is targeted. */
  lemma SyncBuilt(cfg: Config, items: seq<string>)
    ensures forall k :: k in SyncWithServer(cfg, items).finalBoxes <==> k in items
    ensures forall k :: k in SyncWithServer(cfg, items).finalBoxes ==>
      SyncWithServer(cfg, items).finalBoxes[k] == PositionOf(k)
    ensures forall p :: Live(SyncWithServer(cfg, items).finalBoxes, Key(p)) <==> Key(p) in items
    ensures forall p :: Key(p) in items ==> SyncWithServer(cfg, items).finalBoxes[Key(p)] == Cell(p)
    ensures SyncWithServer(cfg, items).currentBox == None
  {
    BuildFinalSpec(map[], items);
    forall p | Key(p) in items
      ensures PositionOf(Key(p)) == Cell(p)
    {
      DecodeKey(p);
    }
  }

  /** The neighbourhood pass of a rebuild lists each neighbourhood cell of
      the built cells under its own key and nothing else. */
  lemma SyncNear(cfg: Config, items: seq<string>)
    ensures forall n :: Key(n) in AddIfUndefined(Key, map[], HaloOf(cfg, Built(items))) <==> NearSnapshot(cfg, items, n)
    ensures forall n :: NearSnapshot(cfg, items, n) ==>
      AddIfUndefined(Key, map[], HaloOf(cfg, Built(items)))[Key(n)] == Cell(n)
    ensures forall k :: k in AddIfUndefined(Key, map[], HaloOf(cfg, Built(items))) ==> exists n :: k == Key(n)
  {
    var halo := HaloOf(cfg, Built(items));
    KeyIsInjective();
    AddIfUndefinedSpec(Key, map[], halo);
    forall n ensures n in halo <==> NearSnapshot(cfg, items, n) {
      HaloOfMember(cfg, Built(items), n);
    }
  }

  /** The rebuilt frontier is exactly the neighbourhoods of the built cells
      (the built cells themselves included) plus the ground cells whose key
      is not a snapshot item; each placeholder holds its own cell, and no
      other key is a placeholder. */
  lemma SyncFrontier(cfg: Config, items: seq<string>)
    ensures forall n :: Key(n) in SyncWithServer(cfg, items).placeholderBoxes <==>
      NearSnapshot(cfg, items, n) || (IsGround(cfg, n) && Key(n) !in items)
    ensures forall n :: Key(n) in SyncWithServer(cfg, items).placeholderBoxes ==>
      SyncWithServer(cfg, items).placeholderBoxes[Key(n)] == Cell(n)
    ensures forall k :: k in SyncWithServer(cfg, items).placeholderBoxes ==> exists n :: k == Key(n)
  {
    var finalBoxes := BuildFinal(map[], items);
    var near := AddIfUndefined(Key, map[], HaloOf(cfg, Built(items)));
    var r := SyncWithServer(cfg, items).placeholderBoxes;
    assert r == SeedUnlessLive(Key, near, GroundCells(cfg), finalBoxes);
    KeyIsInjective();
    SyncNear(cfg, items);
    SeedUnlessLiveSpec(Key, near, GroundCells(cfg), finalBoxes);
    GroundCellsMember(cfg);
    BuildFinalSpec(map[], items);
    forall n ensures Live(finalBoxes, Key(n)) <==> Key(n) in items {
      DecodeKey(n);
    }
  }

  /** A snapshot leaves every built cell (inside the clip, with `0` an
      offset) in the placeholder map as a live entry, where a build of the
      same cell tombstones it: rebuilding from a snapshot and replaying the
      builds do not give the same frontier. */
  lemma SyncKeepsBuiltAsPlaceholder(cfg: Config, items: seq<string>, p: Coord)
    requires Key(p) in items && 0 in cfg.delta && InBox(cfg, p)
    ensures Live(SyncWithServer(cfg, items).finalBoxes, Key(p))
    ensures Live(SyncWithServer(cfg, items).placeholderBoxes, Key(p))
    ensures !Live(FinalizeBox(cfg, Initial, p).placeholderBoxes, Key(p))
  {
    SyncBuilt(cfg, items);
    SyncFrontier(cfg, items);
    DecodeKey(p);
    BuiltMember(items, p);
    assert NearSnapshot(cfg, items, p) by {
      assert p in Built(items) && InHalo(cfg, p, p);
    }
  }

  // ---------------------------------------------------------------------
  // Message dispatch

  /** What one event does, key by key. A `build` or `destroy` whose `c`
      decodes to a cell acts under that cell's canonical key, whatever the
      spelling of `c`: a build makes it built, tombstones its placeholder
      and makes every other neighbourhood cell a live placeholder; a destroy
      tombstones it and makes it a placeholder again. Both clear the target
      and leave every other built entry as it was. Any other action, or a
      `c` that is not a string, leaves the whole state as it was. */
  lemma DispatchSpec(cfg: Config, s: State, m: Message)
    ensures m.a == Str("build") && m.c.Str? && ToCoord(Decode(m.c.s)).Some? ==>
      var p := ToCoord(Decode(m.c.s)).value;
      var s' := Dispatch(cfg, s, m);
      && Live(s'.finalBoxes, Key(p)) && s'.finalBoxes[Key(p)] == Cell(p)
      && Key(p) in s'.placeholderBoxes && !Live(s'.placeholderBoxes, Key(p))
      && (forall n :: InHalo(cfg, p, n) && n != p ==> Live(s'.placeholderBoxes, Key(n)))
      && s'.currentBox == None
      && (forall k :: k != Key(p) && k in s.finalBoxes ==> k in s'.finalBoxes && s'.finalBoxes[k] == s.finalBoxes[k])
    ensures m.a == Str("destroy") && m.c.Str? && ToCoord(Decode(m.c.s)).Some? ==>
      var p := ToCoord(Decode(m.c.s)).value;
      var s' := Dispatch(cfg, s, m);
      && Key(p) in s'.finalBoxes && !Live(s'.finalBoxes, Key(p))
      && Live(s'.placeholderBoxes, Key(p)) && s'.placeholderBoxes[Key(p)] == Cell(p)
      && s'.currentBox == None
      && (forall k :: k != Key(p) && k in s.finalBoxes ==> k in s'.finalBoxes && s'.finalBoxes[k] == s.finalBoxes[k])
      && (forall k :: k != Key(p) && k in s.placeholderBoxes ==> k in s'.placeholderBoxes && s'.placeholderBoxes[k] == s.placeholderBoxes[k])
    ensures (m.a != Str("build") && m.a != Str("destroy")) || !m.c.Str? ==>
      && Dispatch(cfg, s, m).finalBoxes == s.finalBoxes
      && Dispatch(cfg, s, m).placeholderBoxes == s.placeholderBoxes
      && Dispatch(cfg, s, m).currentBox == s.currentBox
  {
    if m.c.Str? && ToCoord(Decode(m.c.s)).Some? {
      var p := ToCoord(Decode(m.c.s)).value;
      if m.a == Str("build") {
        FinalizeBuilds(cfg, s, p);
        FinalizeFrontier(cfg, s, p);
      } else if m.a == Str("destroy") {
        DeleteSpec(s, p);
      }
    }
  }

  /** An event whose `c` does not decode to a cell only clears the target
      as far as any cell can tell: the entries it writes sit under a key
      holding `NaN` or `undefined`, which no cell's key equals. */
  lemma GarbledEventIsInert(cfg: Config, s: State, m: Message, p: Coord)
    requires m.a == Str("build") || m.a == Str("destroy")
    requires m.c.Str? && ToCoord(Decode(m.c.s)).None?
    ensures Dispatch(cfg, s, m).currentBox == None
    ensures Key(p) in Dispatch(cfg, s, m).finalBoxes <==> Key(p) in s.finalBoxes
    ensures Key(p) in s.finalBoxes ==> Dispatch(cfg, s, m).finalBoxes[Key(p)] == s.finalBoxes[Key(p)]
    ensures Key(p) in Dispatch(cfg, s, m).placeholderBoxes <==> Key(p) in s.placeholderBoxes
    ensures Key(p) in s.placeholderBoxes ==> Dispatch(cfg, s, m).placeholderBoxes[Key(p)] == s.placeholderBoxes[Key(p)]
  {
    GarbledKeyIsNoCellKey(m.c.s, p);
  }

  // ---------------------------------------------------------------------
  // The frontier around built cells

  /** The map holds cell `p` under `p`'s own key. */
  predicate HasBox(m: Boxes, p: Coord) {
    Key(p) in m && m[Key(p)] == Cell(p)
  }

  /** The frontier is closed around the built cells: every neighbourhood
      cell of a built cell that is not itself built is a live placeholder,
      so a box can be placed there. */
  ghost predicate FrontierClosed(cfg: Config, s: State) {
    forall p, n :: HasBox(s.finalBoxes, p) && InHalo(cfg, p, n) && !Live(s.finalBoxes, Key(n)) ==>
      Live(s.placeholderBoxes, Key(n))
  }

  /** Both ways of starting a session close the frontier: the offline
      fallback builds nothing, and a snapshot rebuild lists the whole
      neighbourhood of every built cell. */
  lemma StartsFrontierClosed(cfg: Config, items: seq<string>)
    ensures FrontierClosed(cfg, SetupLocal(cfg))
    ensures FrontierClosed(cfg, SyncWithServer(cfg, items))
  {
    var s := SyncWithServer(cfg, items);
    SyncBuilt(cfg, items);
    SyncFrontier(cfg, items);
    forall p, n | HasBox(s.finalBoxes, p) && InHalo(cfg, p, n)
      ensures Live(s.placeholderBoxes, Key(n))
    {
      DecodeKey(p);
      BuiltMember(items, p);
      assert p in Built(items);
      assert NearSnapshot(cfg, items, n);
    }
  }

  /** A build keeps the frontier closed: it lists its own neighbourhood,
      and placeholders elsewhere only stay or turn live. */
  lemma FinalizeKeepsFrontierClosed(cfg: Config, s: State, p0: Coord)
    requires FrontierClosed(cfg, s)
    ensures FrontierClosed(cfg, FinalizeBox(cfg, s, p0))
  {
    var s' := FinalizeBox(cfg, s, p0);
    FinalizeFrontier(cfg, s, p0);
    ListedNeighbors(cfg, p0);
    KeyIsInjective();
    forall p, n | HasBox(s'.finalBoxes, p) && InHalo(cfg, p, n) && !Live(s'.finalBoxes, Key(n))
      ensures Live(s'.placeholderBoxes, Key(n))
    {
      assert Key(n) != Key(p0);
      KeyInjective(n, p0);
      if !InHalo(cfg, p0, n) {
        KeyInjective(p, p0);
        assert Key(p) != Key(p0);
        assert HasBox(s.finalBoxes, p) && !Live(s.finalBoxes, Key(n));
        assert Live(s.placeholderBoxes, Key(n));
        assert Key(n) !in AddIfUndefined(Key, map[], NineNeighbors(cfg, p0));
        assert s'.placeholderBoxes[Key(n)] == s.placeholderBoxes[Key(n)];
      }
    }
  }

  /** A destroy keeps the frontier closed: the destroyed cell becomes a
      live placeholder, and nothing else changes. */
  lemma DeleteKeepsFrontierClosed(cfg: Config, s: State, p0: Coord)
    requires FrontierClosed(cfg, s)
    ensures FrontierClosed(cfg, DeleteBox(s, p0))
  {
    var s' := DeleteBox(s, p0);
    forall p, n | HasBox(s'.finalBoxes, p) && InHalo(cfg, p, n) && !Live(s'.finalBoxes, Key(n))
      ensures Live(s'.placeholderBoxes, Key(n))
    {
      if Key(n) != Key(p0) {
        assert Key(p) != Key(p0);
        assert HasBox(s.finalBoxes, p) && !Live(s.finalBoxes, Key(n));
      }
    }
  }

  /** Every socket event keeps the frontier closed. A garbled event writes
      only under its `NaN`/`undefined` key, which no cell's key equals. */
  lemma DispatchKeepsFrontierClosed(cfg: Config, s: State, m: Message)
    requires FrontierClosed(cfg, s)
    ensures FrontierClosed(cfg, Dispatch(cfg, s, m))
  {
    if (m.a == Str("build") || m.a == Str("destroy")) && m.c.Str? {
      var c := m.c.s;
      match ToCoord(Decode(c))
      case Some(p) =>
        if m.a == Str("build") {
          FinalizeKeepsFrontierClosed(cfg, s, p);
        } else {
          DeleteKeepsFrontierClosed(cfg, s, p);
        }
      case None =>
        var s' := Dispatch(cfg, s, m);
        forall p, n | HasBox(s'.finalBoxes, p) && InHalo(cfg, p, n) && !Live(s'.finalBoxes, Key(n))
          ensures Live(s'.placeholderBoxes, Key(n))
        {
          GarbledKeyIsNoCellKey(c, p);
          GarbledKeyIsNoCellKey(c, n);
          assert HasBox(s.finalBoxes, p) && !Live(s.finalBoxes, Key(n));
        }
    }
  }

  // ---------------------------------------------------------------------
  // The drawn boxes

  /** The shape build and destroy keep the built map in: a cell sits under
      its own key, and an object with a `NaN` field under no cell key. */
  predicate WellKeyed(m: Boxes) {
    forall k :: k in m ==>
      match m[k]
      case Null => true
      case Cell(c) => k == Key(c)
      case Garbled(_) => !IsCellKey(k)
  }

  lemma WriteCell(m: Boxes, p: Coord)
    requires WellKeyed(m)
    ensures WellKeyed(m[Key(p) := Cell(p)])
    ensures LiveValues(m[Key(p) := Cell(p)]) == LiveValues(m) + {Cell(p)}
  {
    var m' := m[Key(p) := Cell(p)];
    assert Key(p) in m' && Exists(m'[Key(p)]);
    assert m'[Key(p)] in LiveValues(m');
    forall v | v in LiveValues(m) ensures v in LiveValues(m') {
      var k :| k in m && Exists(m[k]) && m[k] == v;
      if k == Key(p) {
        OldEntryAtKey(m, p);
      } else {
        assert m'[k] == v;
      }
    }
    forall v | v in LiveValues(m') && v != Cell(p) ensures v in LiveValues(m) {
      var k :| k in m' && Exists(m'[k]) && m'[k] == v;
      assert k != Key(p) && m[k] == v;
    }
  }

  /** In a well-keyed map a cell's key holds that cell or a tombstone. */
  lemma OldEntryAtKey(m: Boxes, p: Coord)
    requires WellKeyed(m) && Key(p) in m
    ensures m[Key(p)] == Null || m[Key(p)] == Cell(p)
  {
    match m[Key(p)]
    case Null =>
    case Cell(c) => KeyInjective(c, p);
    case Garbled(_) => CellKeyOf(p);
  }

  lemma WriteTombstone(m: Boxes, p: Coord)
    requires WellKeyed(m)
    ensures WellKeyed(m[Key(p) := Null])
    ensures LiveValues(m[Key(p) := Null]) == LiveValues(m) - {Cell(p)}
  {
    var m' := m[Key(p) := Null];
    forall v | v in LiveValues(m) && v != Cell(p) ensures v in LiveValues(m') {
      var k :| k in m && Exists(m[k]) && m[k] == v;
      if k == Key(p) {
        match m[k]
        case Cell(c) => KeyInjective(c, p);
        case Garbled(_) => CellKeyOf(p);
      }
      assert m'[k] == v;
    }
  }

  /** A build adds exactly its cell to the boxes drawFinalizedBoxes draws
      (`Object.values(finalBoxes).filter(exists)`). */
  lemma BuildDraws(cfg: Config, s: State, p: Coord)
    requires WellKeyed(s.finalBoxes)
    ensures WellKeyed(FinalizeBox(cfg, s, p).finalBoxes)
    ensures LiveValues(FinalizeBox(cfg, s, p).finalBoxes) == LiveValues(s.finalBoxes) + {Cell(p)}
  {
    assert FinalizeBox(cfg, s, p).finalBoxes == s.finalBoxes[Key(p) := Cell(p)];
    WriteCell(s.finalBoxes, p);
  }

  /** A destroy removes exactly its cell from the drawn boxes: the
      tombstone is not drawn, and the cell is under no other key. */
  lemma DestroyUndraws(s: State, p: Coord)
    requires WellKeyed(s.finalBoxes)
    ensures WellKeyed(DeleteBox(s, p).finalBoxes)
    ensures LiveValues(DeleteBox(s, p).finalBoxes) == LiveValues(s.finalBoxes) - {Cell(p)}
  {
    WriteTombstone(s.finalBoxes, p);
  }

  /** Every event keeps the built map well keyed: a garbled object goes
      under its `NaN`/`undefined` key, which is no cell key. */
  lemma DispatchKeepsWellKeyed(cfg: Config, s: State, m: Message)
    requires WellKeyed(s.finalBoxes)
    ensures WellKeyed(Dispatch(cfg, s, m).finalBoxes)
  {
    if (m.a == Str("build") || m.a == Str("destroy")) && m.c.Str? {
      var c := m.c.s;
      match ToCoord(Decode(c))
      case Some(p) =>
        if m.a == Str("build") { BuildDraws(cfg, s, p); } else { DestroyUndraws(s, p); }
      case None =>
        var e := if m.a == Str("build") then Garbled(Decode(c)) else Null;
        assert Dispatch(cfg, s, m).finalBoxes == s.finalBoxes[DecodedKey(c) := e];
        GarbledWrite(s.finalBoxes, c, e);
    }
  }

  lemma GarbledWrite(m: Boxes, c: string, e: Entry)
    requires WellKeyed(m) && ToCoord(Decode(c)).None? && !e.Cell?
    ensures WellKeyed(m[DecodedKey(c) := e])
  {
    if IsCellKey(DecodedKey(c)) {
      GarbledKeyIsNoCellKey(c, ToCoord(Decode(DecodedKey(c))).value);
    }
  }

  /** A snapshot whose decodable items are all cell keys, as every client
      sends them, rebuilds a well-keyed built map. */
  lemma SyncWellKeyed(cfg: Config, items: seq<string>)
    requires forall k :: k in items && ToCoord(Decode(k)).Some? ==> IsCellKey(k)
    ensures WellKeyed(SyncWithServer(cfg, items).finalBoxes)
  {
    BuildFinalSpec(map[], items);
  }

  /** A snapshot item spelled other than its cell's key stays drawn after a
      destroy of that cell, which only tombstones the canonical key. */
  lemma NonCanonicalItemStaysDrawn(cfg: Config, items: seq<string>, item: string, p: Coord)
    requires item in items && ToCoord(Decode(item)) == Some(p) && item != Key(p)
    ensures Cell(p) in LiveValues(DeleteBox(SyncWithServer(cfg, items), p).finalBoxes)
  {
    BuildFinalSpec(map[], items);
    var m' := DeleteBox(SyncWithServer(cfg, items), p).finalBoxes;
    assert item in m' && m'[item] == Cell(p);
  }
}
