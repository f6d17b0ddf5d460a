/** The neighbourhood generator `nineNeighbors` and the world constants it
    reads. The constants live in a module that is not part of this model,
    so they are a parameter here. */
module Neighbors {
  import opened Keys

  /** The world constants: the per-axis limits and the offsets tried on each
      axis (`DELTA`, in iteration order). */
  datatype Config = Config(limitX: int, limitY: int, limitZ: int, delta: seq<int>)

  /** The clip `nineNeighbors` applies: `[0, LIMIT]`, inclusive at the top. */
  predicate InBox(cfg: Config, c: Coord) {
    0 <= c.x <= cfg.limitX && 0 <= c.y <= cfg.limitY && 0 <= c.z <= cfg.limitZ
  }

  /** Reference definition of the neighbourhood: the cells inside the clip
      that differ from `p` by an offset from `DELTA` on every axis. No
      offset is excluded, so with `0` in `DELTA` the centre is one of them. */
  predicate InHalo(cfg: Config, p: Coord, n: Coord) {
    && n.x - p.x in cfg.delta
    && n.y - p.y in cfg.delta
    && n.z - p.z in cfg.delta
    && InBox(cfg, n)
  }

  predicate NoDup<T(==)>(s: seq<T>) {
    forall i, j :: 0 <= i < j < |s| ==> s[i] != s[j]
  }

  /** nineNeighbors: three nested loops over `DELTA`, each skipping the
      offsets that leave the clip on its own axis, emitting in loop order. */
  function NineNeighbors(cfg: Config, p: Coord): seq<Coord> {
    AlongX(cfg, p, cfg.delta)
  }

  function AlongX(cfg: Config, p: Coord, dxs: seq<int>): seq<Coord> {
    if dxs == [] then []
    else
      var x := p.x + dxs[0];
      (if 0 <= x <= cfg.limitX then AlongY(cfg, p, dxs[0], cfg.delta) else [])
      + AlongX(cfg, p, dxs[1..])
  }

  function AlongY(cfg: Config, p: Coord, dx: int, dys: seq<int>): seq<Coord> {
    if dys == [] then []
    else
      var y := p.y + dys[0];
      (if 0 <= y <= cfg.limitY then AlongZ(cfg, p, dx, dys[0], cfg.delta) else [])
      + AlongY(cfg, p, dx, dys[1..])
  }

  function AlongZ(cfg: Config, p: Coord, dx: int, dy: int, dzs: seq<int>): seq<Coord> {
    if dzs == [] then []
    else
      var z := p.z + dzs[0];
      (if 0 <= z <= cfg.limitZ then [Coord(p.x + dx, p.y + dy, z)] else [])
      + AlongZ(cfg, p, dx, dy, dzs[1..])
  }

  lemma {:induction false} AlongZMember(cfg: Config, p: Coord, dx: int, dy: int, dzs: seq<int>, n: Coord)
    ensures n in AlongZ(cfg, p, dx, dy, dzs) <==>
      n.x == p.x + dx && n.y == p.y + dy && n.z - p.z in dzs && 0 <= n.z <= cfg.limitZ
  {
    if dzs != [] {
      AlongZMember(cfg, p, dx, dy, dzs[1..], n);
      assert dzs == [dzs[0]] + dzs[1..];
    }
  }

  lemma {:induction false} AlongYMember(cfg: Config, p: Coord, dx: int, dys: seq<int>, n: Coord)
    ensures n in AlongY(cfg, p, dx, dys) <==>
      && n.x == p.x + dx && n.y - p.y in dys && n.z - p.z in cfg.delta
      && 0 <= n.y <= cfg.limitY && 0 <= n.z <= cfg.limitZ
  {
    if dys != [] {
      AlongYMember(cfg, p, dx, dys[1..], n);
      AlongZMember(cfg, p, dx, dys[0], cfg.delta, n);
      assert dys == [dys[0]] + dys[1..];
    }
  }

  lemma {:induction false} AlongXMember(cfg: Config, p: Coord, dxs: seq<int>, n: Coord)
    ensures n in AlongX(cfg, p, dxs) <==>
      && n.x - p.x in dxs && n.y - p.y in cfg.delta && n.z - p.z in cfg.delta && InBox(cfg, n)
  {
    if dxs != [] {
      AlongXMember(cfg, p, dxs[1..], n);
      AlongYMember(cfg, p, dxs[0], cfg.delta, n);
      assert dxs == [dxs[0]] + dxs[1..];
    }
  }

  /** nineNeighbors is sound and complete for the reference definition:
      every cell it returns is in the clip and offset by `DELTA` on each
      axis, and every such cell is returned. */
  lemma NineNeighborsMember(cfg: Config, p: Coord, n: Coord)
    ensures n in NineNeighbors(cfg, p) <==> InHalo(cfg, p, n)
  {
    AlongXMember(cfg, p, cfg.delta, n);
  }

  /** Without self-exclusion the centre cell is its own neighbour whenever
      it is inside the clip and `0` is an offset. */
  lemma CentreIsNeighbor(cfg: Config, p: Coord)
    requires 0 in cfg.delta && InBox(cfg, p)
    ensures p in NineNeighbors(cfg, p)
  {
    NineNeighborsMember(cfg, p, p);
  }

  lemma NoDupConcat<T>(a: seq<T>, b: seq<T>)
    requires NoDup(a) && NoDup(b)
    requires forall x :: x in a ==> x !in b
    ensures NoDup(a + b)
  {
    var s := a + b;
    forall i, j | 0 <= i < j < |s|
      ensures s[i] != s[j]
    {
      if j < |a| {
        assert s[i] == a[i] && s[j] == a[j];
      } else if i >= |a| {
        assert s[i] == b[i - |a|] && s[j] == b[j - |a|];
      } else {
        assert s[i] == a[i] && a[i] in a && s[j] == b[j - |a|];
      }
    }
  }

  lemma {:induction false} AlongZNoDup(cfg: Config, p: Coord, dx: int, dy: int, dzs: seq<int>)
    requires NoDup(dzs)
    ensures NoDup(AlongZ(cfg, p, dx, dy, dzs))
  {
    if dzs != [] {
      var tail := dzs[1..];
      assert NoDup(tail) by {
        forall i, j | 0 <= i < j < |tail| ensures tail[i] != tail[j] {
          assert tail[i] == dzs[i + 1] && tail[j] == dzs[j + 1];
        }
      }
      AlongZNoDup(cfg, p, dx, dy, tail);
      var head := if 0 <= p.z + dzs[0] <= cfg.limitZ then [Coord(p.x + dx, p.y + dy, p.z + dzs[0])] else [];
      forall n | n in head ensures n !in AlongZ(cfg, p, dx, dy, tail) {
        AlongZMember(cfg, p, dx, dy, tail, n);
      }
      NoDupConcat(head, AlongZ(cfg, p, dx, dy, tail));
    }
  }

  lemma {:induction false} AlongYNoDup(cfg: Config, p: Coord, dx: int, dys: seq<int>)
    requires NoDup(dys) && NoDup(cfg.delta)
    ensures NoDup(AlongY(cfg, p, dx, dys))
  {
    if dys != [] {
      var tail := dys[1..];
      assert NoDup(tail) by {
        forall i, j | 0 <= i < j < |tail| ensures tail[i] != tail[j] {
          assert tail[i] == dys[i + 1] && tail[j] == dys[j + 1];
        }
      }
      AlongYNoDup(cfg, p, dx, tail);
      AlongZNoDup(cfg, p, dx, dys[0], cfg.delta);
      var head := if 0 <= p.y + dys[0] <= cfg.limitY then AlongZ(cfg, p, dx, dys[0], cfg.delta) else [];
      forall n | n in head ensures n !in AlongY(cfg, p, dx, tail) {
        AlongZMember(cfg, p, dx, dys[0], cfg.delta, n);
        AlongYMember(cfg, p, dx, tail, n);
      }
      NoDupConcat(head, AlongY(cfg, p, dx, tail));
    }
  }

  lemma {:induction false} AlongXNoDup(cfg: Config, p: Coord, dxs: seq<int>)
    requires NoDup(dxs) && NoDup(cfg.delta)
    ensures NoDup(AlongX(cfg, p, dxs))
  {
    if dxs != [] {
      var tail := dxs[1..];
      assert NoDup(tail) by {
        forall i, j | 0 <= i < j < |tail| ensures tail[i] != tail[j] {
          assert tail[i] == dxs[i + 1] && tail[j] == dxs[j + 1];
        }
      }
      AlongXNoDup(cfg, p, tail);
      AlongYNoDup(cfg, p, dxs[0], cfg.delta);
      var head := if 0 <= p.x + dxs[0] <= cfg.limitX then AlongY(cfg, p, dxs[0], cfg.delta) else [];
      forall n | n in head ensures n !in AlongX(cfg, p, tail) {
        AlongYMember(cfg, p, dxs[0], cfg.delta, n);
        AlongXMember(cfg, p, tail, n);
      }
      NoDupConcat(head, AlongX(cfg, p, tail));
    }
  }

  /** With no repeated offset in `DELTA`, no cell is listed twice. */
  lemma NineNeighborsNoDup(cfg: Config, p: Coord)
    requires NoDup(cfg.delta)
    ensures NoDup(NineNeighbors(cfg, p))
  {
    AlongXNoDup(cfg, p, cfg.delta);
  }
}
