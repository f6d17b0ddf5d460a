/** The grid-key and element-id codecs of the client utilities: the
    `"x,y,z"` key used for every map of the world, its decoder, and the
    `placeholder_`/`final_` element ids of the rendered boxes. */
module Keys {
  import opened Base
  import opened Decimal

  /** A grid cell. The source's `Coordinate` holds JavaScript numbers; the
      grid only ever holds integers, modelled unbounded. */
  datatype Coord = Coord(x: int, y: int, z: int)

  /** A decoded `Coordinate` whose fields may be missing: `None` is the
      `NaN` of a failed `parseInt` or the `undefined` of an absent field. */
  datatype Decoded = Decoded(x: Option<int>, y: Option<int>, z: Option<int>)

  datatype IdError = InvalidElementName

  /** positionToString: `${x},${y},${z}`. */
  function Key(p: Coord): string {
    IntToString(p.x) + "," + IntToString(p.y) + "," + IntToString(p.z)
  }

  /** `s.split(sep)`: the pieces between occurrences of `sep`; there is
      always at least one piece, and the pieces never contain `sep`. */
  function Split(s: string, sep: char): (r: seq<string>)
    ensures |r| > 0
    ensures forall i :: 0 <= i < |r| ==> sep !in r[i]
  {
    if s == [] then [[]]
    else if s[0] == sep then [[]] + Split(s[1..], sep)
    else
      var rest := Split(s[1..], sep);
      [[s[0]] + rest[0]] + rest[1..]
  }

  /** getElementPositionFromString: split on commas and `parseInt` the first
      three pieces; pieces past the third are ignored. Never throws. */
  function Decode(s: string): Decoded {
    var fields := Split(s, ',');
    Decoded(ParseInt(fields[0]),
            if |fields| > 1 then ParseInt(fields[1]) else None,
            if |fields| > 2 then ParseInt(fields[2]) else None)
  }

  /** The cell a decoded position denotes, when all three fields are numbers. */
  function ToCoord(d: Decoded): Option<Coord> {
    if d.x.Some? && d.y.Some? && d.z.Some? then Some(Coord(d.x.value, d.y.value, d.z.value))
    else None
  }

  function Exact(p: Coord): Decoded {
    Decoded(Some(p.x), Some(p.y), Some(p.z))
  }

  lemma {:induction false} SplitNoSep(a: string, sep: char)
    requires sep !in a
    ensures Split(a, sep) == [a]
  {
    if a != [] {
      SplitNoSep(a[1..], sep);
      assert a[0] != sep && [a[0]] + a[1..] == a;
    }
  }

  lemma {:induction false} SplitAt(a: string, sep: char, rest: string)
    requires sep !in a
    ensures Split(a + [sep] + rest, sep) == [a] + Split(rest, sep)
  {
    if a == [] {
      assert a + [sep] + rest == [sep] + rest;
    } else {
      var s := a + [sep] + rest;
      assert s[0] == a[0] && a[0] != sep;
      assert s[1..] == a[1..] + [sep] + rest;
      SplitAt(a[1..], sep, rest);
      assert [a[0]] + a[1..] == a;
    }
  }

  lemma SplitKey(p: Coord)
    ensures Split(Key(p), ',') == [IntToString(p.x), IntToString(p.y), IntToString(p.z)]
  {
    var a, b, c := IntToString(p.x), IntToString(p.y), IntToString(p.z);
    assert Key(p) == a + [','] + (b + [','] + c);
    SplitAt(a, ',', b + [','] + c);
    SplitAt(b, ',', c);
    SplitNoSep(c, ',');
  }

  /** Decoding a key gives back every field of the cell that was encoded. */
  lemma DecodeKey(p: Coord)
    ensures Decode(Key(p)) == Exact(p)
    ensures ToCoord(Decode(Key(p))) == Some(p)
  {
    SplitKey(p);
    ParseIntOfIntToString(p.x);
    ParseIntOfIntToString(p.y);
    ParseIntOfIntToString(p.z);
  }

  /** Distinct cells have distinct keys, so a map keyed by `Key` holds at
      most one entry per cell. */
  lemma KeyInjective(p: Coord, q: Coord)
    ensures Key(p) == Key(q) ==> p == q
  {
    DecodeKey(p);
    DecodeKey(q);
  }

  predicate StartsWith(s: string, prefix: string) {
    |prefix| <= |s| && s[..|prefix|] == prefix
  }

  /** `s.substr(n)` for a non-negative start: empty past the end. */
  function Drop(s: string, n: nat): string {
    if n <= |s| then s[n..] else []
  }

  /** positionPlaceholder: the element id of a placeholder box. */
  function PositionPlaceholder(p: Coord): string {
    "placeholder_" + Key(p)
  }

  /** positionFinal: the element id of a built box, as written. */
  function PositionFinal(p: Coord): string {
    "final_" + Key(p)
  }

  /** getElementPositionFromId: an id starting with `placeholder` or
      `finalized` is decoded after skipping that word and one more
      character; any other id throws. */
  function GetElementPositionFromId(id: string): (r: Result<Decoded, IdError>)
    ensures r.Err? <==> !StartsWith(id, "placeholder") && !StartsWith(id, "finalized")
  {
    if StartsWith(id, "placeholder") then Ok(Decode(Drop(id, |"placeholder_"|)))
    else if StartsWith(id, "finalized") then Ok(Decode(Drop(id, |"finalized_"|)))
    else Err(InvalidElementName)
  }

  /** The id of a placeholder box decodes to the cell it was built from. */
  lemma PlaceholderIdRoundTrip(p: Coord)
    ensures GetElementPositionFromId(PositionPlaceholder(p)) == Ok(Exact(p))
  {
    var k := Key(p);
    var id := "placeholder_" + k;
    StartsWithConcat("placeholder_", k, "placeholder");
    assert Drop(id, |"placeholder_"|) == k;
    DecodeKey(p);
  }

  /** A string starting with `prefix` starts with any prefix of `prefix`
      and, at every position of `prefix`, holds `prefix`'s character. */
  lemma StartsWithConcat(prefix: string, rest: string, q: string)
    requires q <= prefix
    ensures StartsWith(prefix + rest, q)
    ensures forall i :: 0 <= i < |prefix| ==> (prefix + rest)[i] == prefix[i]
  {
    assert (prefix + rest)[..|q|] == q;
  }

  lemma NotStartsWith(s: string, q: string, i: nat)
    requires i < |q| && i < |s| && s[i] != q[i]
    ensures !StartsWith(s, q)
  {
  }

  /** The id of a built box, as `positionFinal` writes it, is rejected:
      `final_` is not prefixed by `finalized` (nor by `placeholder`). */
  lemma FinalIdIsRejected(p: Coord)
    ensures StartsWith(PositionFinal(p), "final")
    ensures GetElementPositionFromId(PositionFinal(p)) == Err(InvalidElementName)
  {
    var k := Key(p);
    StartsWithConcat("final_", k, "final");
    NotStartsWith("final_" + k, "placeholder", 0);
    NotStartsWith("final_" + k, "finalized", 5);
  }

  /** The evidently intended id of a built box: spelled with the prefix the
      decoder accepts. */
  function PositionFinalized(p: Coord): string {
    "finalized_" + Key(p)
  }

  /** The intended built-box id both passes the click filter (`final`) and
      decodes back to its cell. */
  lemma FinalizedIdRoundTrip(p: Coord)
    ensures StartsWith(PositionFinalized(p), "final")
    ensures GetElementPositionFromId(PositionFinalized(p)) == Ok(Exact(p))
  {
    var k := Key(p);
    var id := "finalized_" + k;
    StartsWithConcat("finalized_", k, "final");
    StartsWithConcat("finalized_", k, "finalized");
    NotStartsWith(id, "placeholder", 0);
    assert Drop(id, |"finalized_"|) == k;
    DecodeKey(p);
  }

  /** `${v}` for field `i` of the decoded array: the number's digits, `NaN`,
      or `undefined` past the end. */
  function FieldText(fields: seq<string>, i: nat): string {
    if i >= |fields| then "undefined"
    else match ParseInt(fields[i])
      case Some(n) => IntToString(n)
      case None => "NaN"
  }

  /** positionToString(getElementPositionFromString(s)): the key the scene
      files a decoded message under. */
  function DecodedKey(s: string): string {
    var fields := Split(s, ',');
    FieldText(fields, 0) + "," + FieldText(fields, 1) + "," + FieldText(fields, 2)
  }

  /** `k` is the key of the cell it decodes to: the spelling
      positionToString gives, with no sign, zero padding or extra field. */
  predicate IsCellKey(k: string) {
    ToCoord(Decode(k)).Some? && k == Key(ToCoord(Decode(k)).value)
  }

  /** The keys positionToString writes are exactly the cell keys. */
  lemma CellKeyOf(p: Coord)
    ensures IsCellKey(Key(p))
  {
    DecodeKey(p);
  }

  predicate IsKeyChar(ch: char) {
    IsDigit(ch) || ch == '-' || ch == ','
  }

  predicate AllKeyChars(s: string) {
    forall i :: 0 <= i < |s| ==> IsKeyChar(s[i])
  }

  lemma ConcatKeyChars(a: string, b: string)
    ensures AllKeyChars(a + b) <==> AllKeyChars(a) && AllKeyChars(b)
  {
    if AllKeyChars(a + b) {
      forall i | 0 <= i < |a| ensures IsKeyChar(a[i]) {
        assert a[i] == (a + b)[i];
      }
      forall i | 0 <= i < |b| ensures IsKeyChar(b[i]) {
        assert b[i] == (a + b)[|a| + i];
      }
    }
  }

  /** A cell's key uses only digits, minus signs and commas. */
  lemma KeyChars(p: Coord)
    ensures AllKeyChars(Key(p))
  {
    var x, y, z := IntToString(p.x), IntToString(p.y), IntToString(p.z);
    IntToStringChars(p.x);
    IntToStringChars(p.y);
    IntToStringChars(p.z);
    ConcatKeyChars(x, ",");
    ConcatKeyChars(x + ",", y);
    ConcatKeyChars(x + "," + y, ",");
    ConcatKeyChars(x + "," + y + ",", z);
  }

  /** A string that decodes to a cell is filed under that cell's key. */
  lemma DecodedKeyOfCell(s: string)
    requires ToCoord(Decode(s)).Some?
    ensures DecodedKey(s) == Key(ToCoord(Decode(s)).value)
  {
  }

  /** A string that does not decode to a cell is filed under a key holding
      `NaN` or `undefined`, which is no cell's key. */
  lemma GarbledKeyIsNoCellKey(s: string, p: Coord)
    requires ToCoord(Decode(s)).None?
    ensures DecodedKey(s) != Key(p)
  {
    var fields := Split(s, ',');
    var a, b, c := FieldText(fields, 0), FieldText(fields, 1), FieldText(fields, 2);
    assert "NaN"[0] == 'N' && "undefined"[0] == 'u';
    assert !AllKeyChars(a) || !AllKeyChars(b) || !AllKeyChars(c);
    ConcatKeyChars(a, ",");
    ConcatKeyChars(a + ",", b);
    ConcatKeyChars(a + "," + b, ",");
    ConcatKeyChars(a + "," + b + ",", c);
    KeyChars(p);
  }
}
