/** The copy-and-override loops the scene uses to fill its keyed maps,
    stated for any injective key function so that their proofs do not depend
    on how a key is spelled. The scene instantiates them with `Key`. */
module KeyedMaps {
  import opened Base
  import opened Keys

  /** A value of a `CoordinateToPosition` map: a `null` tombstone, a cell,
      or the object `getElementPositionFromString` returns for a string with
      a `NaN` or missing field. */
  datatype Entry = Null | Cell(c: Coord) | Garbled(d: Decoded)

  /** `exists` (`!!x`) on a map value: any object is truthy, `null` is not. */
  function Exists(v: Entry): bool {
    !v.Null?
  }

  /** `Object.values(m).filter(exists)`: the objects a map holds live. */
  function LiveValues(m: map<string, Entry>): set<Entry> {
    set k | k in m && Exists(m[k]) :: m[k]
  }

  /** The object getElementPositionFromString returns, as a map value. */
  function PositionOf(s: string): Entry {
    match ToCoord(Decode(s))
    case Some(p) => Cell(p)
    case None => Garbled(Decode(s))
  }

  /** A keyed map of cells, with `null` tombstones. */
  type CellMap<K(==)> = map<K, Entry>

  ghost predicate Injective<K>(key: Coord -> K) {
    forall a, b :: key(a) == key(b) ==> a == b
  }

  /** `!!m[k]`: the key holds an object (neither absent nor tombstoned). */
  predicate Live<K(==)>(m: CellMap<K>, k: K) {
    k in m && Exists(m[k])
  }

  /** `for (const c of cells) if (m[key(c)] === undefined) m[key(c)] = c`:
      the first cell listed under a key wins and present keys are kept. */
  function AddIfUndefined<K(==)>(key: Coord -> K, m: CellMap<K>, cells: seq<Coord>): CellMap<K>
    decreases |cells|
  {
    if cells == [] then m
    else
      var c := cells[0];
      AddIfUndefined(key, if key(c) in m then m else m[key(c) := Cell(c)], cells[1..])
  }

  /** `for (const c of cells) if (!built[key(c)]) m[key(c)] = c`. */
  function SeedUnlessLive<K(==)>(key: Coord -> K, m: CellMap<K>, cells: seq<Coord>, built: CellMap<K>): CellMap<K>
    decreases |cells|
  {
    if cells == [] then m
    else
      var c := cells[0];
      SeedUnlessLive(key, if Live(built, key(c)) then m else m[key(c) := Cell(c)], cells[1..], built)
  }

  /** AddIfUndefined adds exactly the keys of the listed cells, keeps every
      present entry, and stores each listed cell under its own key. */
  lemma {:induction false} AddIfUndefinedSpec<K>(key: Coord -> K, m: CellMap<K>, cells: seq<Coord>)
    requires Injective(key)
    ensures forall k :: k in AddIfUndefined(key, m, cells) <==> k in m || exists c :: c in cells && k == key(c)
    ensures forall k :: k in m ==> AddIfUndefined(key, m, cells)[k] == m[k]
    ensures forall c :: c in cells && key(c) !in m ==>
      key(c) in AddIfUndefined(key, m, cells) && AddIfUndefined(key, m, cells)[key(c)] == Cell(c)
    decreases |cells|
  {
    if cells != [] {
      var c0 := cells[0];
      var m' := if key(c0) in m then m else m[key(c0) := Cell(c0)];
      AddIfUndefinedSpec(key, m', cells[1..]);
      assert cells == [c0] + cells[1..];
      assert AddIfUndefined(key, m, cells) == AddIfUndefined(key, m', cells[1..]);
      forall c | c in cells && key(c) !in m
        ensures key(c) in AddIfUndefined(key, m, cells) && AddIfUndefined(key, m, cells)[key(c)] == Cell(c)
      {
        if c != c0 {
          assert c in cells[1..] && key(c) != key(c0);
        }
      }
    }
  }

  /** SeedUnlessLive stores every listed cell whose key is not live in
      `built` under its own key, and changes nothing else. */
  lemma {:induction false} SeedUnlessLiveSpec<K>(key: Coord -> K, m: CellMap<K>, cells: seq<Coord>, built: CellMap<K>)
    requires Injective(key)
    ensures forall k :: k in SeedUnlessLive(key, m, cells, built) <==>
      k in m || exists c :: c in cells && !Live(built, key(c)) && k == key(c)
    ensures forall c :: c in cells && !Live(built, key(c)) ==>
      key(c) in SeedUnlessLive(key, m, cells, built) && SeedUnlessLive(key, m, cells, built)[key(c)] == Cell(c)
    ensures forall k :: k in m && (Live(built, k) || forall c :: c in cells ==> k != key(c)) ==>
      SeedUnlessLive(key, m, cells, built)[k] == m[k]
    decreases |cells|
  {
    if cells != [] {
      var c0 := cells[0];
      var m' := if Live(built, key(c0)) then m else m[key(c0) := Cell(c0)];
      SeedUnlessLiveSpec(key, m', cells[1..], built);
      assert cells == [c0] + cells[1..];
      assert SeedUnlessLive(key, m, cells, built) == SeedUnlessLive(key, m', cells[1..], built);
    }
  }

  /** `positionToString` is an injective key function. */
  lemma KeyIsInjective()
    ensures Injective(Key)
  {
    forall a, b | Key(a) == Key(b) ensures a == b {
      KeyInjective(a, b);
    }
  }
}
