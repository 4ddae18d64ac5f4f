/** JSON values and the text cJSON prints for them. */
module JsonText {
  import opened Bits

  type int32 = x: int | -0x8000_0000 <= x <= 0x7FFF_FFFF

  datatype Json =
    | Null
    | Bool(b: bool)
    | Number(n: int32)
    | Str(s: cstring)
    | Array(items: seq<Json>)
    | Object(members: seq<Member>)

  datatype Member = Member(key: cstring, value: Json)

  const QUOTE: byte := 34
  const COMMA: byte := 44
  const MINUS: byte := 45
  const COLON: byte := 58
  const OPEN_ARRAY: byte := 91
  const BACKSLASH: byte := 92
  const CLOSE_ARRAY: byte := 93
  const OPEN_OBJECT: byte := 123
  const CLOSE_OBJECT: byte := 125
  const TAB: byte := 9
  const NEWLINE: byte := 10
  const SPACE: byte := 32

  const NULL_TEXT: seq<byte> := [110, 117, 108, 108]
  const FALSE_TEXT: seq<byte> := [102, 97, 108, 115, 101]
  const TRUE_TEXT: seq<byte> := [116, 114, 117, 101]

  const NESTING_LIMIT := 1000

  // ---- Numbers -----------------------------------------------------------------------------

  function Digits(n: nat): (r: seq<byte>)
    ensures |r| >= 1 && forall k :: 0 <= k < |r| ==> 48 <= r[k] <= 57
  {
    if n < 10 then [48 + n] else Digits(n / 10) + [48 + n % 10]
  }

  /** `%d`. */
  function NumberText(n: int): seq<byte> {
    if n < 0 then [MINUS] + Digits(-n) else Digits(n)
  }

  // ---- Strings -----------------------------------------------------------------------------

  function HexDigit(v: nat): byte
    requires v < 16
  {
    if v < 10 then 48 + v else 97 + (v - 10)
  }

  /** The letter of a two-character escape, or 0. */
  function EscapeLetter(b: byte): byte {
    if b == QUOTE || b == BACKSLASH then b
    else if b == 8 then 98
    else if b == 12 then 102
    else if b == 10 then 110
    else if b == 13 then 114
    else if b == 9 then 116
    else 0
  }

  function EscapeOf(b: byte): (r: seq<byte>)
    ensures |r| == 1 || |r| == 2 || |r| == 6
  {
    if EscapeLetter(b) != 0 then [BACKSLASH, EscapeLetter(b)]
    else if b < 32 then [BACKSLASH, 117, 48, 48, HexDigit(b / 16), HexDigit(b % 16)]
    else [b]
  }

  function Escaped(s: seq<byte>): (r: seq<byte>)
    ensures |r| >= |s|
  {
    if s == [] then [] else EscapeOf(s[0]) + Escaped(s[1..])
  }

  function StringText(s: seq<byte>): seq<byte> {
    [QUOTE] + Escaped(s) + [QUOTE]
  }

  // ---- Trees -------------------------------------------------------------------------------

  /** Arrays and objects are nested at most as deep as both the printer and the parser allow. */
  predicate Nests(v: Json, depth: nat) {
    match v
    case Array(items) => depth < 1000 && forall k :: 0 <= k < |items| ==> Nests(items[k], depth + 1)
    case Object(members) => depth < 1000 && forall k :: 0 <= k < |members| ==> Nests(members[k].value, depth + 1)
    case _ => true
  }

  function Tabs(n: nat): (r: seq<byte>)
    ensures |r| == n && forall k :: 0 <= k < n ==> r[k] == TAB
  {
    seq(n, k => TAB)
  }

  /** What follows an array element: the separator, if there is another one. */
  function Separator(more: bool, fmt: bool): seq<byte> {
    if !more then [] else if fmt then [COMMA, SPACE] else [COMMA]
  }

  function MemberEnd(more: bool, fmt: bool): seq<byte> {
    (if more then [COMMA] else []) + (if fmt then [NEWLINE] else [])
  }

  /** The text of a value at the given depth. */
  function Text(v: Json, depth: nat, fmt: bool): (r: seq<byte>)
    decreases v
  {
    match v
    case Null => NULL_TEXT
    case Bool(b) => if b then TRUE_TEXT else FALSE_TEXT
    case Number(n) => NumberText(n)
    case Str(s) => StringText(s)
    case Array(items) => [OPEN_ARRAY] + ArrayRest(v, 0, depth + 1, fmt)
    case Object(members) => [OPEN_OBJECT] + (if fmt then [NEWLINE] else []) + ObjectRest(v, 0, depth + 1, fmt)
  }

  /** The elements from number `k` on, and the closing bracket. */
  function ArrayRest(v: Json, k: nat, depth: nat, fmt: bool): seq<byte>
    requires v.Array? && k <= |v.items|
    decreases v, |v.items| - k + 1
  {
    if k == |v.items| then [CLOSE_ARRAY]
    else Text(v.items[k], depth, fmt) + Separator(k + 1 < |v.items|, fmt) + ArrayRest(v, k + 1, depth, fmt)
  }

  function KeyText(key: seq<byte>, depth: nat, fmt: bool): seq<byte> {
    (if fmt then Tabs(depth) else []) + StringText(key) + (if fmt then [COLON, TAB] else [COLON])
  }

  /** The members from number `k` on, and the closing brace. */
  function ObjectRest(v: Json, k: nat, depth: nat, fmt: bool): seq<byte>
    requires v.Object? && k <= |v.members| && depth > 0
    decreases v, |v.members| - k + 1
  {
    if k == |v.members| then (if fmt then Tabs(depth - 1) else []) + [CLOSE_OBJECT]
    else
      KeyText(v.members[k].key, depth, fmt) + Text(v.members[k].value, depth, fmt)
      + MemberEnd(k + 1 < |v.members|, fmt) + ObjectRest(v, k + 1, depth, fmt)
  }
}
