/** The values held in the persisted JSON lists (the task file and the
    banned-/current-order files), with the two comparisons the Python code
    applies to them: `==` on decoded values, and equality of their text form
    (`json.dumps` for a dict, the string itself for a string). */
module JsonRecords {

  /** A decoded list element: a string (an item code), or a dict whose
      string fields are listed in insertion order. A dict built by
      `json.loads` has distinct keys; the type does not enforce that, and
      `FieldMap` and `DumpsObject` say what a repeated key means to each. */
  datatype Entry = Text(s: string) | Object(fields: seq<(string, string)>)

  /** The dict a field list denotes; a later duplicate key wins, as in
      `json.loads`. */
  function FieldMap(fields: seq<(string, string)>): map<string, string>
  {
    if |fields| == 0 then map[]
    else FieldMap(fields[..|fields| - 1])[fields[|fields| - 1].0 := fields[|fields| - 1].1]
  }

  /** Python's `a == b` on decoded values: strings by content, dicts by their
      key/value content irrespective of key order, and a string never equals
      a dict. `list.remove` also accepts the identical object, which the
      first disjunct covers. */
  predicate PyEq(a: Entry, b: Entry)
  {
    a == b ||
    match (a, b)
    case (Text(x), Text(y)) => x == y
    case (Object(f), Object(g)) => FieldMap(f) == FieldMap(g)
    case _ => false
  }

  function HexDigit(d: int): char
    requires 0 <= d < 16
  {
    if d < 10 then ('0' as int + d) as char else ('a' as int + d - 10) as char
  }

  /** The last `width` hex digits of `n`, most significant first, in
      lower case. */
  function HexDigits(n: nat, width: nat): (r: string)
    ensures |r| == width
    decreases width
  {
    if width == 0 then "" else HexDigits(n / 16, width - 1) + [HexDigit(n % 16)]
  }

  /** Four lower-case hex digits, as in json's `\\u` escapes. */
  function Hex4(n: int): string
    requires 0 <= n < 0x1_0000
  {
    HexDigits(n, 4)
  }

  /** How `json.dumps` (with its default `ensure_ascii=True`) writes one
      character inside a string literal: the short escapes, `\\uXXXX` for
      everything outside printable ASCII, and a surrogate pair beyond the
      basic multilingual plane. */
  function EscapeChar(c: char): string
  {
    var n := c as int;
    if c == '"' then "\\\""
    else if c == '\\' then "\\\\"
    else if c == '\n' then "\\n"
    else if c == '\r' then "\\r"
    else if c == '\t' then "\\t"
    else if n == 0x08 then "\\b"
    else if n == 0x0C then "\\f"
    else if 0x20 <= n <= 0x7E then [c]
    else if n < 0x1_0000 then "\\u" + Hex4(n)
    else
      var v := n - 0x1_0000;
      "\\u" + Hex4(0xD800 + v / 1024) + "\\u" + Hex4(0xDC00 + v % 1024)
  }

  function Escape(s: string): string
  {
    if |s| == 0 then "" else EscapeChar(s[0]) + Escape(s[1..])
  }

  function Quote(s: string): string
  {
    "\"" + Escape(s) + "\""
  }

  /** The members of a dict as `json.dumps` joins them: `"k": "v"` pairs
      separated by `, `. */
  function Members(fields: seq<(string, string)>): string
  {
    if |fields| == 0 then ""
    else
      var first := Quote(fields[0].0) + ": " + Quote(fields[0].1);
      if |fields| == 1 then first else first + ", " + Members(fields[1..])
  }

  /** `json.dumps` of a dict, for a field list without a repeated key; a
      repeated key is printed once per field, which no dict does. */
  function DumpsObject(fields: seq<(string, string)>): string
  {
    "{" + Members(fields) + "}"
  }

  /** The text an order is compared by in the fallback of the remove
      buttons: the string itself for a string, `json.dumps` otherwise. */
  function Form(e: Entry): string
  {
    match e
    case Text(s) => s
    case Object(fields) => DumpsObject(fields)
  }
}
