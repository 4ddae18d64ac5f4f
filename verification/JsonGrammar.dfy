/** The grammar of RFC 8259, as far as numbers are integers: every way to write a value, and what it means. */
module JsonGrammar {
  import opened Bits
  import opened JsonText

  // ---- Strings (section 7) -----------------------------------------------------------------

  /** A character of a string: itself, a two-character escape, four digits, or a surrogate pair. */
  datatype Unit =
    | Plain(b: byte)
    | Short(letter: byte)
    | Code(value: nat, digits: seq<byte>)
    | Pair(high: nat, highDigits: seq<byte>, low: nat, lowDigits: seq<byte>)

  const LOWER: string := "0123456789abcdef"
  const UPPER: string := "0123456789ABCDEF"

  /** A hexadecimal digit, in either case, and its value. */
  predicate IsHex(b: byte, v: nat) {
    v < 16 && (b == LOWER[v] as int || b == UPPER[v] as int)
  }

  predicate HexChar(b: byte) {
    '0' as int <= b <= '9' as int || 'A' as int <= b <= 'F' as int || 'a' as int <= b <= 'f' as int
  }

  /** Four hexadecimal digits and their value, each digit in either case. */
  predicate Spells(d: seq<byte>, v: nat) {
    && |d| == 4 && v <= 0xFFFF
    && IsHex(d[0], v / 4096) && IsHex(d[1], v / 256 % 16) && IsHex(d[2], v / 16 % 16) && IsHex(d[3], v % 16)
  }

  /** The bytes of a code point (RFC 3629, section 3). */
  function Encoding(cp: nat): seq<byte>
    requires cp <= 0x10FFFF
  {
    if cp <= 0x7F then [cp]
    else if cp <= 0x7FF then [192 + cp / 64, 128 + cp % 64]
    else if cp <= 0xFFFF then [224 + cp / 4096, 128 + cp / 64 % 64, 128 + cp % 64]
    else [240 + cp / 262144, 128 + cp / 4096 % 64, 128 + cp / 64 % 64, 128 + cp % 64]
  }

  /** What the character after a backslash stands for. */
  function ShortMeaning(letter: byte): Option<byte> {
    if letter == '"' as int then Some(34)
    else if letter == '\\' as int then Some(92)
    else if letter == '/' as int then Some(47)
    else if letter == 'b' as int then Some(8)
    else if letter == 'f' as int then Some(12)
    else if letter == 'n' as int then Some(10)
    else if letter == 'r' as int then Some(13)
    else if letter == 't' as int then Some(9)
    else None
  }

  predicate UnitOk(u: Unit) {
    match u
    case Plain(b) => b >= 32 && b != 34 && b != 92
    case Short(letter) => ShortMeaning(letter).Some?
    case Code(v, d) => Spells(d, v) && !(0xD800 <= v <= 0xDFFF)
    case Pair(h, d, l, e) => Spells(d, h) && Spells(e, l) && 0xD800 <= h <= 0xDBFF && 0xDC00 <= l <= 0xDFFF
  }

  function UnitText(u: Unit): (t: seq<byte>)
    ensures t != []
  {
    match u
    case Plain(b) => [b]
    case Short(letter) => ['\\' as int, letter]
    case Code(_, d) => ['\\' as int, 'u' as int] + d
    case Pair(_, d, _, e) => (['\\' as int, 'u' as int] + d) + (['\\' as int, 'u' as int] + e)
  }

  function UnitMeaning(u: Unit): seq<byte>
    requires UnitOk(u)
  {
    match u
    case Plain(b) => [b]
    case Short(letter) => [ShortMeaning(letter).value]
    case Code(v, _) => Encoding(v)
    case Pair(h, _, l, _) => Encoding(0x10000 + (h - 0xD800) * 0x400 + (l - 0xDC00))
  }

  predicate UnitsOk(s: seq<Unit>) {
    forall k :: 0 <= k < |s| ==> UnitOk(s[k])
  }

  function UnitsText(s: seq<Unit>): seq<byte> {
    if s == [] then [] else UnitText(s[0]) + UnitsText(s[1..])
  }

  function UnitsMeaning(s: seq<Unit>): seq<byte>
    requires UnitsOk(s)
  {
    if s == [] then [] else UnitMeaning(s[0]) + UnitsMeaning(s[1..])
  }

  function Quoted(s: seq<Unit>): (t: seq<byte>)
    ensures |t| >= 2
  {
    ['"' as int] + (UnitsText(s) + ['"' as int])
  }

  /** A C string holds the bytes before the first zero. */
  predicate Holds(s: cstring, bytes: seq<byte>) {
    s <= bytes && (|s| < |bytes| ==> bytes[|s|] == 0)
  }

  // ---- Numbers (section 6) -----------------------------------------------------------------

  /** Decimal digits, most significant first. */
  function DecimalValue(d: seq<byte>): int {
    if d == [] then 0 else 10 * DecimalValue(d[..|d| - 1]) + (d[|d| - 1] as int - '0' as int)
  }

  predicate Decimal(d: seq<byte>) {
    d != [] && forall k :: 0 <= k < |d| ==> '0' as int <= d[k] <= '9' as int
  }

  // ---- Values (sections 2 to 5) ------------------------------------------------------------

  /** A value as it is written. */
  datatype Syntax =
    | Word(v: Json)
    | Integer(negative: bool, digits: seq<byte>)
    | Chars(units: seq<Unit>)
    | List(blank: seq<byte>, items: seq<Item>)
    | Record(blank: seq<byte>, fields: seq<Field>)

  /** An element with the blanks around it. */
  datatype Item = Item(before: seq<byte>, value: Syntax, after: seq<byte>)

  /** A member with the blanks around its name and its value. */
  datatype Field = Field(before: seq<byte>, name: seq<Unit>, colon: seq<byte>, item: Item)

  /** Blanks: space, tab, line feed, carriage return. */
  predicate White(t: seq<byte>) {
    forall k :: 0 <= k < |t| ==> t[k] in {32, 9, 10, 13}
  }

  function Ascii(t: string): (r: seq<byte>)
    requires forall k :: 0 <= k < |t| ==> t[k] < 128 as char
    ensures |r| == |t|
  {
    seq(|t|, k requires 0 <= k < |t| => assert t[k] < 128 as char; t[k] as int)
  }

  function Written(x: Syntax): (t: seq<byte>)
    decreases x
  {
    match x
    case Word(v) => if v.Bool? then if v.b then Ascii("true") else Ascii("false") else Ascii("null")
    case Integer(negative, digits) => (if negative then ['-' as int] else []) + digits
    case Chars(units) => Quoted(units)
    case List(blank, items) => ['[' as int] + (if items == [] then blank + [']' as int] else ItemsFrom(x, 0))
    case Record(blank, fields) => ['{' as int] + (if fields == [] then blank + ['}' as int] else FieldsFrom(x, 0))
  }

  function ItemText(x: Item): seq<byte>
    decreases x
  {
    x.before + (Written(x.value) + x.after)
  }

  /** The elements from number `k` on, separated by commas, and the closing bracket. */
  function ItemsFrom(x: Syntax, k: nat): (t: seq<byte>)
    requires x.List? && k < |x.items|
    decreases x, |x.items| - k
  {
    ItemText(x.items[k]) + if k + 1 < |x.items| then [',' as int] + ItemsFrom(x, k + 1) else [']' as int]
  }

  function FieldsFrom(x: Syntax, k: nat): (t: seq<byte>)
    requires x.Record? && k < |x.fields|
    decreases x, |x.fields| - k
  {
    FieldText(x.fields[k]) + if k + 1 < |x.fields| then [',' as int] + FieldsFrom(x, k + 1) else ['}' as int]
  }

  function FieldText(f: Field): seq<byte>
    decreases f
  {
    f.before + (Quoted(f.name) + (f.colon + ([':' as int] + ItemText(f.item))))
  }

  /** Written by the rules, and nested at most 1000 deep. */
  predicate Proper(x: Syntax, depth: nat)
    decreases x
  {
    match x
    case Word(v) => v.Null? || v.Bool?
    case Integer(negative, d) =>
      && Decimal(d) && (|d| > 1 ==> d[0] != '0' as int)
      && -0x8000_0000 <= (if negative then -DecimalValue(d) else DecimalValue(d)) <= 0x7FFF_FFFF
    case Chars(units) => UnitsOk(units)
    case List(blank, items) =>
      && depth < 1000 && White(blank)
      && forall k :: 0 <= k < |items| ==> White(items[k].before) && White(items[k].after) && Proper(items[k].value, depth + 1)
    case Record(blank, fields) =>
      && depth < 1000 && White(blank)
      && forall k :: 0 <= k < |fields| ==>
           && White(fields[k].before) && UnitsOk(fields[k].name) && White(fields[k].colon)
           && White(fields[k].item.before) && White(fields[k].item.after) && Proper(fields[k].item.value, depth + 1)
  }

  /** The value `v` is what the text means. */
  predicate Means(x: Syntax, v: Json, depth: nat)
    requires Proper(x, depth)
    decreases x
  {
    match x
    case Word(w) => v == w
    case Integer(negative, d) => v.Number? && v.n as int == if negative then -DecimalValue(d) else DecimalValue(d)
    case Chars(units) => v.Str? && Holds(v.s, UnitsMeaning(units))
    case List(_, items) =>
      && v.Array? && |v.items| == |items|
      && forall k :: 0 <= k < |items| ==> Means(items[k].value, v.items[k], depth + 1)
    case Record(_, fields) =>
      && v.Object? && |v.members| == |fields|
      && forall k :: 0 <= k < |fields| ==>
           Holds(v.members[k].key, UnitsMeaning(fields[k].name)) && Means(fields[k].item.value, v.members[k].value, depth + 1)
  }

  /** A meaning of a text; there is just one, since all of them are what the parser finds. */
  function Understood(x: Syntax, depth: nat): (v: Json)
    requires Proper(x, depth)
    ensures Means(x, v, depth)
    decreases x
  {
    match x
    case Word(v) => v
    case Integer(negative, d) => Number(if negative then -DecimalValue(d) else DecimalValue(d))
    case Chars(units) => Str(BeforeZero(UnitsMeaning(units)))
    case List(_, items) =>
      Array(seq(|items|, k requires 0 <= k < |items| => Understood(items[k].value, depth + 1)))
    case Record(_, fields) =>
      Object(seq(|fields|, k requires 0 <= k < |fields| =>
        Member(BeforeZero(UnitsMeaning(fields[k].name)), Understood(fields[k].item.value, depth + 1))))
  }

  function BeforeZero(bytes: seq<byte>): (s: cstring)
    ensures Holds(s, bytes)
  {
    if bytes == [] || bytes[0] == 0 then [] else [bytes[0]] + BeforeZero(bytes[1..])
  }

  /** An escape in upper case: the text "\u00E9" in quotes stands for the two bytes of U+00E9. */
  lemma Accented()
    ensures var x := Chars([Code(0xE9, [48, 48, 69, 57])]);
            && Written(x) == [34, 92, 117, 48, 48, 69, 57, 34]
            && Proper(x, 0) && Means(x, Str([0xC3, 0xA9]), 0)
  {
    AccentedUnit();
    hide UnitOk, UnitText, UnitMeaning;
    var unit := Code(0xE9, [48, 48, 69, 57]);
    assert [unit][1..] == [];
    assert UnitsText([unit]) == UnitText(unit) && UnitsMeaning([unit]) == UnitMeaning(unit);
  }

  lemma AccentedUnit()
    ensures var unit := Code(0xE9, [48, 48, 69, 57]);
            UnitOk(unit) && UnitText(unit) == [92, 117, 48, 48, 69, 57] && UnitMeaning(unit) == [0xC3, 0xA9]
  {
    assert LOWER[0] == '0' && UPPER[14] == 'E' && LOWER[9] == '9';
  }
}
