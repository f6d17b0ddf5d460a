/** The build/destroy event as it travels between clients and server: a
    JSON object `{ a, c }` after `JSON.parse`. */
module Protocol {
  import opened Base

  /** A field of a parsed message. A string is kept as is; any other JSON
      value (a number, an object, a missing field's `undefined`, ...) is
      kept only as the property-key string it converts to. `Unconvertible`
      is a value whose string conversion throws a TypeError: an object with
      its own `toString` property (JSON values are never callable, so the
      conversion finds no usable method), or an array holding one. */
  datatype Field = Str(s: string) | NonString(asKey: string) | Unconvertible

  datatype Message = Message(a: Field, c: Field)

  /** The property key `obj[f]` uses for a field value; `None` when the
      conversion throws. */
  function PropertyKey(f: Field): Option<string> {
    match f
    case Str(s) => Some(s)
    case NonString(k) => Some(k)
    case Unconvertible => None
  }
}
