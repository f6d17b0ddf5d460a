/** The relay server: one in-memory map from coordinate strings to
    "built", a socket handler that updates it and rebroadcasts every parsed
    event, and the `/all` snapshot. */
module Server {
  import opened Base
  import opened Decimal
  import opened Keys
  import opened Protocol

  /** The server map. A key maps to `true` once built; `false` stands for a
      key that is present with the value `undefined` (it stays in
      `Object.keys` but is filtered out of `/all`). */
  type Store = map<string, bool>

  /** The raw socket payload: either `JSON.parse` fails (or yields `null`,
      whose `.a` throws the same way) or it yields a message. */
  datatype Incoming = Unparseable | Parsed(m: Message)

  /** What one handler call does: the new map, whether it logs the
      `ignore` warning and the `invalid message` warning, and the message it
      emits to every connected socket (`None`: nothing). */
  datatype Outcome = Outcome(store: Store, ignoreLogged: bool, invalidLogged: bool, broadcast: Option<Message>)

  /** A JavaScript value as `isNumber` sees it. */
  datatype JsValue = Num(v: real) | NaN | Undefined | NotANumber

  /** isNumber: of type number and not NaN. */
  predicate IsNumber(a: JsValue) {
    a.Num?
  }

  /** `Math.round`: the nearest integer, halves rounded up. */
  function Round(r: real): int {
    (r + 0.5).Floor
  }

  /** isNatural: a number equal to its rounding. */
  predicate IsNatural(a: JsValue) {
    IsNumber(a) && Round(a.v) as real == a.v
  }

  predicate ValidAction(a: Field) {
    a == Str("build") || a == Str("destroy")
  }

  /** `parseInt(x, 10)` as a JavaScript value. */
  function ParseIntValue(s: string): JsValue {
    match ParseInt(s)
    case Some(n) => Num(n as real)
    case None => NaN
  }

  /** Element `i` of `c.split(',').map(x => parseInt(x, 10))`, `undefined`
      past the end as array destructuring gives. */
  function Component(pieces: seq<string>, i: nat): JsValue {
    if i < |pieces| then ParseIntValue(pieces[i]) else Undefined
  }

  predicate ValidCoordinate(c: Field) {
    match c
    case NonString(_) => false
    case Unconvertible => false
    case Str(s) =>
      var pieces := Split(s, ',');
      IsNatural(Component(pieces, 0)) && IsNatural(Component(pieces, 1)) && IsNatural(Component(pieces, 2))
  }

  predicate Valid(m: Message) {
    ValidAction(m.a) && ValidCoordinate(m.c)
  }

  /** The socket `message` handler as written: validation only logs; the
      map entry is written and the message rebroadcast either way. The
      write converts `c` to a key and throws before writing when that
      fails; the routine log line converts `a` and throws after the write,
      before the emit. A throw is caught and logged as an invalid message. */
  function Handle(st: Store, inc: Incoming): Outcome {
    match inc
    case Unparseable => Outcome(st, false, true, None)
    case Parsed(m) =>
      match PropertyKey(m.c)
      case None => Outcome(st, !Valid(m), true, None)
      case Some(k) =>
        var written := st[k := m.a == Str("build")];
        if m.a.Unconvertible? then Outcome(written, !Valid(m), true, None)
        else Outcome(written, !Valid(m), false, Some(m))
  }

  /** The handler as its "ignore" log line says it means to behave: an
      invalid message changes nothing and is not rebroadcast. */
  function HandleValidated(st: Store, inc: Incoming): Outcome {
    match inc
    case Unparseable => Outcome(st, false, true, None)
    case Parsed(m) =>
      if Valid(m) then Handle(st, inc) else Outcome(st, true, false, None)
  }

  /** The `/all` route: the keys whose value is truthy. */
  function All(st: Store): set<string> {
    set k | k in st && st[k]
  }

  /** The sockets a handler call delivers to: every connected one, the
      sender included, whenever something is emitted. */
  function Recipients<S>(connected: set<S>, o: Outcome): set<S> {
    if o.broadcast.Some? then connected else {}
  }

  // ---------------------------------------------------------------------
  // Validation

  lemma RoundOfInteger(n: int)
    ensures Round(n as real) == n
  {
  }

  /** isNatural holds exactly for integral numbers, negative ones included. */
  lemma IsNaturalSpec(a: JsValue)
    ensures IsNatural(a) <==> a.Num? && IsInteger(a.v)
  {
    if a.Num? {
      if Round(a.v) as real == a.v {
        assert a.v.Floor == Round(a.v);
      }
      if IsInteger(a.v) {
        RoundOfInteger(a.v.Floor);
      }
    }
  }

  /** Whatever `parseInt` returns passes isNatural unless it is NaN. */
  lemma ParsedIsNatural(s: string)
    ensures IsNatural(ParseIntValue(s)) <==> ParseInt(s).Some?
  {
    if ParseInt(s).Some? {
      RoundOfInteger(ParseInt(s).value);
    }
  }

  /** validCoordinate: a string with at least three comma-separated fields,
      the first three of which `parseInt` reads; later fields are ignored. */
  lemma ValidCoordinateSpec(c: Field)
    ensures ValidCoordinate(c) <==>
      c.Str? && |Split(c.s, ',')| >= 3
      && ParseInt(Split(c.s, ',')[0]).Some?
      && ParseInt(Split(c.s, ',')[1]).Some?
      && ParseInt(Split(c.s, ',')[2]).Some?
  {
    if c.Str? {
      var pieces := Split(c.s, ',');
      if |pieces| >= 3 {
        ParsedIsNatural(pieces[0]);
        ParsedIsNatural(pieces[1]);
        ParsedIsNatural(pieces[2]);
      }
    }
  }

  /** Every key a client sends passes validation. */
  lemma ClientKeysAreValid(p: Coord)
    ensures ValidCoordinate(Str(Key(p)))
  {
    SplitKey(p);
    ParseIntOfIntToString(p.x);
    ParseIntOfIntToString(p.y);
    ParseIntOfIntToString(p.z);
    ValidCoordinateSpec(Str(Key(p)));
  }

  /** Two fields are not enough. */
  lemma TwoFieldsInvalid(a: int, b: int)
    ensures !ValidCoordinate(Str(IntToString(a) + "," + IntToString(b)))
  {
    var x, y := IntToString(a), IntToString(b);
    assert x + "," + y == x + [','] + y;
    SplitAt(x, ',', y);
    SplitNoSep(y, ',');
    ValidCoordinateSpec(Str(x + "," + y));
  }

  /** Fields after the third are ignored, whatever they hold. */
  lemma ExtraFieldsIgnored(p: Coord, rest: string)
    ensures ValidCoordinate(Str(Key(p) + "," + rest))
  {
    var x, y, z := IntToString(p.x), IntToString(p.y), IntToString(p.z);
    var s := Key(p) + "," + rest;
    assert s == x + [','] + (y + [','] + (z + [','] + rest));
    SplitAt(x, ',', y + [','] + (z + [','] + rest));
    SplitAt(y, ',', z + [','] + rest);
    SplitAt(z, ',', rest);
    ParseIntOfIntToString(p.x);
    ParseIntOfIntToString(p.y);
    ParseIntOfIntToString(p.z);
    ValidCoordinateSpec(Str(s));
  }

  // ---------------------------------------------------------------------
  // The handler

  /** A parsed message logs the `ignore` warning exactly when it fails
      validation. One whose `c` converts to a key writes exactly that key,
      to "built" exactly for a `build` action, whether or not it validated;
      it is then rebroadcast verbatim to every connected socket unless
      converting its `a` throws. A parse failure, or a `c` that does not
      convert, changes nothing and emits nothing. */
  lemma HandleSpec<S>(st: Store, inc: Incoming, connected: set<S>)
    ensures inc.Unparseable? ==>
      Handle(st, inc).store == st && Handle(st, inc).invalidLogged && Recipients(connected, Handle(st, inc)) == {}
    ensures inc.Parsed? ==> (Handle(st, inc).ignoreLogged <==> !Valid(inc.m))
    ensures inc.Parsed? && inc.m.c.Unconvertible? ==>
      Handle(st, inc).store == st && Handle(st, inc).invalidLogged && Recipients(connected, Handle(st, inc)) == {}
    ensures inc.Parsed? && !inc.m.c.Unconvertible? ==>
      var k := PropertyKey(inc.m.c).value;
      var o := Handle(st, inc);
      && k in o.store
      && (o.store[k] <==> inc.m.a == Str("build"))
      && (forall k' :: k' != k ==> (k' in o.store <==> k' in st) && (k' in st ==> o.store[k'] == st[k']))
      && (inc.m.a.Unconvertible? ==> o.invalidLogged && Recipients(connected, o) == {})
      && (!inc.m.a.Unconvertible? ==> !o.invalidLogged && o.broadcast == Some(inc.m) && Recipients(connected, o) == connected)
  {
  }

  /** After a build the key is listed; after any other parsed action it is
      not; every other key's listing is unchanged. A `c` that does not
      convert to a key changes no listing. */
  lemma HandleAll(st: Store, m: Message)
    ensures m.c.Unconvertible? ==> All(Handle(st, Parsed(m)).store) == All(st)
    ensures !m.c.Unconvertible? ==>
      (PropertyKey(m.c).value in All(Handle(st, Parsed(m)).store) <==> m.a == Str("build"))
    ensures forall k :: PropertyKey(m.c) != Some(k) ==> (k in All(Handle(st, Parsed(m)).store) <==> k in All(st))
  {
  }

  /** The corrected handler: a valid message behaves as before, an invalid
      one leaves the map and the listing untouched and reaches no socket. */
  lemma HandleValidatedSpec<S>(st: Store, inc: Incoming, connected: set<S>)
    ensures inc.Parsed? && Valid(inc.m) ==> HandleValidated(st, inc) == Handle(st, inc)
    ensures inc.Unparseable? || !Valid(inc.m) ==>
      && HandleValidated(st, inc).store == st
      && All(HandleValidated(st, inc).store) == All(st)
      && Recipients(connected, HandleValidated(st, inc)) == {}
  {
  }

  function Msg(a: string, c: string): Incoming {
    Parsed(Message(Str(a), Str(c)))
  }

  /** From an empty map, a build of `c` makes `/all` list exactly `c`; a
      following destroy of `c` makes it list nothing. */
  lemma BuildThenDestroy(c: string)
    ensures All(Handle(map[], Msg("build", c)).store) == {c}
    ensures All(Handle(Handle(map[], Msg("build", c)).store, Msg("destroy", c)).store) == {}
  {
    var s1 := Handle(map[], Msg("build", c)).store;
    assert s1 == map[c := true];
    var s2 := Handle(s1, Msg("destroy", c)).store;
    assert s2 == map[c := false];
  }

  /** An invalid action is not ignored as written: it unlists a built key
      and is rebroadcast, while the corrected handler leaves the listing as
      it was. */
  lemma InvalidActionUnlists(a: string, c: string)
    requires a != "build" && a != "destroy"
    ensures !Valid(Message(Str(a), Str(c)))
    ensures var built := map[c := true];
      && c !in All(Handle(built, Msg(a, c)).store)
      && Handle(built, Msg(a, c)).broadcast.Some?
      && All(HandleValidated(built, Msg(a, c)).store) == {c}
  {
  }

  /** An action whose string conversion throws is written but never
      emitted: the key drops out of `/all` while every client, having
      received nothing, keeps the box built. */
  lemma UnconvertibleActionDrifts<S>(c: string, connected: set<S>)
    ensures var o := Handle(map[c := true], Parsed(Message(Unconvertible, Str(c))));
      && c !in All(o.store)
      && o.store != map[c := true]
      && Recipients(connected, o) == {}
  {
    var o := Handle(map[c := true], Parsed(Message(Unconvertible, Str(c))));
    assert o.store[c] == false;
  }

  /** With validation enforced the server and its clients cannot drift
      apart: every change to the map is emitted to every connected socket. */
  lemma ValidatedWritesAreBroadcast<S>(st: Store, inc: Incoming, connected: set<S>)
    ensures HandleValidated(st, inc).store != st ==>
      && inc.Parsed?
      && HandleValidated(st, inc).broadcast == Some(inc.m)
      && Recipients(connected, HandleValidated(st, inc)) == connected
  {
  }
}
