/** The recursive-descent parser of cJSON over a byte buffer. */
module JsonParse {
  import opened Bits
  import opened JsonText
  import opened JsonString

  /** `NotModelled` stands for the numbers that are not 32-bit integers. */
  datatype Outcome<+T> = Ok(value: T, next: nat) | Bad | NotModelled

  // ---- Numbers -----------------------------------------------------------------------------

  predicate IsDigit(b: byte) {
    48 <= b <= 57
  }

  /** The characters `parse_number` collects: digits, `+`, `-`, `.`, `e` and `E`. */
  predicate IsNumberByte(b: byte) {
    IsDigit(b) || b == 43 || b == 45 || b == 46 || b == 101 || b == 69
  }

  function TokenEnd(c: seq<byte>, i: nat): (r: nat)
    requires i <= |c|
    ensures i <= r <= |c|
    decreases |c| - i
  {
    if i == |c| || !IsNumberByte(c[i]) then i else TokenEnd(c, i + 1)
  }

  function DigitsEnd(t: seq<byte>, i: nat): (r: nat)
    requires i <= |t|
    ensures i <= r <= |t| && forall k :: i <= k < r ==> IsDigit(t[k])
    decreases |t| - i
  {
    if i == |t| || !IsDigit(t[i]) then i else DigitsEnd(t, i + 1)
  }

  function DigitsValue(t: seq<byte>): nat
    requires forall k :: 0 <= k < |t| ==> IsDigit(t[k])
  {
    if t == [] then 0
    else
      assert IsDigit(t[|t| - 1]);
      10 * DigitsValue(t[..|t| - 1]) + (t[|t| - 1] as int - 48)
  }

  /** `strtod` on a collected token, as far as it reads an integer. */
  function Strtod(t: seq<byte>): (r: Outcome<int32>)
    ensures r.Ok? ==> 0 < r.next <= |t|
  {
    var start := if t != [] && t[0] == MINUS then 1 else 0;
    var end := DigitsEnd(t, start);
    if end < |t| && (t[end] == 46 || (end > start && (t[end] == 101 || t[end] == 69))) then NotModelled
    else if end == start then Bad
    else
      var v: int := if start == 1 then -(DigitsValue(t[start..end]) as int) else DigitsValue(t[start..end]);
      if -0x8000_0000 <= v <= 0x7FFF_FFFF then Ok(v, end) else NotModelled
  }

  function NumberAt(c: seq<byte>, i: nat): (r: Outcome<Json>)
    requires i < |c|
    ensures r.Ok? ==> i < r.next <= |c|
  {
    match Strtod(c[i..TokenEnd(c, i)])
    case Ok(v, n) => Ok(Number(v), i + n)
    case Bad => Bad
    case NotModelled => NotModelled
  }

  // ---- Values ------------------------------------------------------------------------------

  function SpaceEnd(c: seq<byte>, i: nat): (r: nat)
    requires i <= |c|
    ensures i <= r <= |c|
    decreases |c| - i
  {
    if i == |c| || c[i] > 32 then i else SpaceEnd(c, i + 1)
  }

  /** Blanks are skipped; at the end of the buffer the last byte is kept. */
  function Skip(c: seq<byte>, i: nat): (r: nat)
    ensures i < |c| ==> i <= r < |c|
    ensures i >= |c| ==> r == i
  {
    if i >= |c| then i else if SpaceEnd(c, i) == |c| then |c| - 1 else SpaceEnd(c, i)
  }

  predicate Has(c: seq<byte>, i: nat, t: seq<byte>) {
    i + |t| <= |c| && c[i..i + |t|] == t
  }

  function Left(c: seq<byte>, i: nat): nat {
    if i <= |c| then |c| - i else 0
  }

  function Value(c: seq<byte>, i: nat, depth: nat): (r: Outcome<Json>)
    ensures r.Ok? ==> i < r.next <= |c|
    decreases Left(c, i), 1
  {
    if Has(c, i, NULL_TEXT) then Ok(Null, i + 4)
    else if Has(c, i, FALSE_TEXT) then Ok(Bool(false), i + 5)
    else if Has(c, i, TRUE_TEXT) then Ok(Bool(true), i + 4)
    else if i >= |c| then Bad
    else if c[i] == QUOTE then
      match StringAt(c, i)
      case None => Bad
      case Some(s) => Ok(Str(s.0), s.1)
    else if c[i] == MINUS || IsDigit(c[i]) then NumberAt(c, i)
    else if c[i] == OPEN_ARRAY then
      ArrayAt(c, i, depth)
    else if c[i] == OPEN_OBJECT then
      ObjectAt(c, i, depth)
    else Bad
  }

  function ArrayAt(c: seq<byte>, i: nat, depth: nat): (r: Outcome<Json>)
    requires i < |c|
    ensures r.Ok? ==> i < r.next <= |c|
    decreases Left(c, i), 0
  {
    var p := Skip(c, i + 1);
    if depth >= 1000 || p >= |c| then Bad
    else if c[p] == CLOSE_ARRAY then Ok(Array([]), p + 1)
    else Elements(c, p, depth + 1, [])
  }

  function ObjectAt(c: seq<byte>, i: nat, depth: nat): (r: Outcome<Json>)
    requires i < |c|
    ensures r.Ok? ==> i < r.next <= |c|
    decreases Left(c, i), 0
  {
    var p := Skip(c, i + 1);
    if depth >= 1000 || p >= |c| then Bad
    else if c[p] == CLOSE_OBJECT then Ok(Object([]), p + 1)
    else Members(c, p, depth + 1, [])
  }

  /** The elements of an array from `i` on, after those in `acc`. */
  function Elements(c: seq<byte>, i: nat, depth: nat, acc: seq<Json>): (r: Outcome<Json>)
    ensures r.Ok? ==> i < r.next <= |c|
    decreases Left(c, i), 2
  {
    match Value(c, Skip(c, i), depth)
    case Ok(v, next) =>
      var p := Skip(c, next);
      if p < |c| && c[p] == COMMA then Elements(c, p + 1, depth, acc + [v])
      else if p < |c| && c[p] == CLOSE_ARRAY then Ok(Array(acc + [v]), p + 1)
      else Bad
    case Bad => Bad
    case NotModelled => NotModelled
  }

  /** One member of an object: the name, a colon and the value. */
  function MemberAt(c: seq<byte>, i: nat, depth: nat): (r: Outcome<Member>)
    ensures r.Ok? ==> i < r.next <= |c|
    decreases Left(c, i), 2
  {
    if i >= |c| then Bad
    else match StringAt(c, Skip(c, i))
      case None => Bad
      case Some(k) =>
        var colon := Skip(c, k.1);
        if colon >= |c| || c[colon] != COLON then Bad
        else match Value(c, Skip(c, colon + 1), depth)
          case Ok(v, next) => Ok(Member(k.0, v), next)
          case Bad => Bad
          case NotModelled => NotModelled
  }

  /** The members of an object from `i` on, after those in `acc`. */
  function Members(c: seq<byte>, i: nat, depth: nat, acc: seq<Member>): (r: Outcome<Json>)
    ensures r.Ok? ==> i < r.next <= |c|
    decreases Left(c, i), 3
  {
    match MemberAt(c, i, depth)
    case Ok(m, next) =>
      var p := Skip(c, next);
      if p < |c| && c[p] == COMMA then Members(c, p + 1, depth, acc + [m])
      else if p < |c| && c[p] == CLOSE_OBJECT then Ok(Object(acc + [m]), p + 1)
      else Bad
    case Bad => Bad
    case NotModelled => NotModelled
  }

  const BOM: seq<byte> := [0xEF, 0xBB, 0xBF]

  /** `cJSON_ParseWithLength`: a byte order mark and blanks, then a value; what follows is ignored. */
  function Parse(c: seq<byte>): Outcome<Json> {
    if c == [] then Bad
    else Value(c, Skip(c, if |c| > 4 && Has(c, 0, BOM) then 3 else 0), 0)
  }

  /** `cJSON_Parse` on a C string. */
  function ParseText(text: cstring): Outcome<Json> {
    Parse(text + [0])
  }

  // ---- The parse buffer --------------------------------------------------------------------

  class ParseBuffer {
    const content: seq<byte>
    var offset: nat
    var depth: nat

    constructor (content: seq<byte>)
      ensures this.content == content && offset == 0 && depth == 0
    {
      this.content := content;
      offset, depth := 0, 0;
    }

    /** `can_access_at_index`. */
    predicate CanAccess(index: nat)
      reads this
    {
      offset + index < |content|
    }

    /** `buffer_skip_whitespace`. */
    method SkipWhitespace()
      modifies this`offset
      ensures offset == Skip(content, old(offset))
    {
      if !CanAccess(0) {
        return;
      }
      while CanAccess(0) && content[offset] <= 32
        invariant offset <= |content|
        invariant SpaceEnd(content, old(offset)) == SpaceEnd(content, offset)
        decreases |content| - offset
      {
        offset := offset + 1;
      }
      if offset == |content| {
        offset := offset - 1;
      }
    }

    /** `parse_number`. */
    method ParseNumber() returns (r: Outcome<Json>)
      requires offset < |content|
      modifies this`offset
      ensures r == NumberAt(content, old(offset)) && (r.Ok? ==> offset == r.next)
    {
      var length := 0;
      while CanAccess(length) && IsNumberByte(content[offset + length])
        invariant 0 <= length && offset + length <= |content|
        invariant TokenEnd(content, offset) == TokenEnd(content, offset + length)
        decreases |content| - length
      {
        length := length + 1;
      }
      match Strtod(content[offset..offset + length]) {
        case Ok(v, n) =>
          offset := offset + n;
          return Ok(Number(v), offset);
        case Bad => return Bad;
        case NotModelled => return NotModelled;
      }
    }

    /** `parse_string`. */
    method ParseString() returns (r: Option<cstring>)
      requires offset < |content|
      modifies this`offset
      ensures match StringAt(content, old(offset))
              case None => r == None
              case Some(s) => r == Some(s.0) && offset == s.1
    {
      hide EndQuote, Unescape, Truncate, Second, Escapes;
      if content[offset] != QUOTE {
        return None;
      }
      var ok, end, skipped := MeasureString(content, offset + 1);
      if !ok {
        return None;
      }
      var s;
      ok, s := DecodeString(content, offset + 1, end, skipped);
      if !ok {
        return None;
      }
      offset := end + 1;
      return Some(s);
    }

    predicate StartsWith(t: seq<byte>)
      reads this
    {
      offset + |t| <= |content| && content[offset..offset + |t|] == t
    }

    /** `parse_value`. */
    method ParseValue() returns (r: Outcome<Json>)
      modifies this
      ensures r == Value(content, old(offset), old(depth))
      ensures r.Ok? ==> offset == r.next && depth == old(depth)
      decreases Left(content, offset), 1
    {
      hide NumberAt, StringAt, Elements, Members, Skip;
      if StartsWith(NULL_TEXT) {
        offset := offset + 4;
        return Ok(Null, offset);
      }
      if StartsWith(FALSE_TEXT) {
        offset := offset + 5;
        return Ok(Bool(false), offset);
      }
      if StartsWith(TRUE_TEXT) {
        offset := offset + 4;
        return Ok(Bool(true), offset);
      }
      if CanAccess(0) && content[offset] == QUOTE {
        var s := ParseString();
        return if s.Some? then Ok(Str(s.value), offset) else Bad;
      }
      if CanAccess(0) && (content[offset] == MINUS || IsDigit(content[offset])) {
        r := ParseNumber();
        return;
      }
      if CanAccess(0) && content[offset] == OPEN_ARRAY {
        r := ParseArray();
        return;
      }
      if CanAccess(0) && content[offset] == OPEN_OBJECT {
        r := ParseObject();
        return;
      }
      return Bad;
    }

    /** `parse_array`. */
    method ParseArray() returns (r: Outcome<Json>)
      requires offset < |content| && content[offset] == OPEN_ARRAY
      modifies this
      ensures r == ArrayAt(content, old(offset), old(depth))
      ensures r.Ok? ==> offset == r.next && depth == old(depth)
      decreases Left(content, offset), 0
    {
      hide Value, Elements, Skip;
      if depth >= NESTING_LIMIT {
        return Bad;
      }
      depth := depth + 1;
      offset := offset + 1;
      SkipWhitespace();
      if CanAccess(0) && content[offset] == CLOSE_ARRAY {
        depth := depth - 1;
        offset := offset + 1;
        return Ok(Array([]), offset);
      }
      if !CanAccess(0) {
        offset := offset - 1;
        return Bad;
      }
      offset := offset - 1;
      var items := [];
      while true
        invariant old(offset) <= offset < |content| && depth == old(depth) + 1
        invariant Elements(content, offset + 1, depth, items) == ArrayAt(content, old(offset), old(depth))
        decreases |content| - offset
      {
        ElementsStep(content, offset + 1, depth, items);
        offset := offset + 1;
        SkipWhitespace();
        var v := ParseValue();
        if !v.Ok? {
          return if v.Bad? then Bad else NotModelled;
        }
        items := items + [v.value];
        SkipWhitespace();
        if !(CanAccess(0) && content[offset] == COMMA) {
          break;
        }
      }
      if !CanAccess(0) || content[offset] != CLOSE_ARRAY {
        return Bad;
      }
      depth := depth - 1;
      offset := offset + 1;
      return Ok(Array(items), offset);
    }

    /** The name and value of the next child in `parse_object`. */
    method ParseMember() returns (r: Outcome<Member>)
      modifies this
      ensures r == MemberAt(content, old(offset) + 1, old(depth))
      ensures r.Ok? ==> offset == r.next && depth == old(depth)
      decreases Left(content, offset + 1), 2
    {
      hide Value, Skip, StringAt;
      if !CanAccess(1) {
        return Bad;
      }
      offset := offset + 1;
      SkipWhitespace();
      var key := ParseString();
      if key.None? {
        return Bad;
      }
      SkipWhitespace();
      if !CanAccess(0) || content[offset] != COLON {
        return Bad;
      }
      offset := offset + 1;
      SkipWhitespace();
      var v := ParseValue();
      match v {
        case Ok(value, next) => return Ok(Member(key.value, value), next);
        case Bad => return Bad;
        case NotModelled => return NotModelled;
      }
    }

    /** `parse_object`. */
    method ParseObject() returns (r: Outcome<Json>)
      requires offset < |content| && content[offset] == OPEN_OBJECT
      modifies this
      ensures r == ObjectAt(content, old(offset), old(depth))
      ensures r.Ok? ==> offset == r.next && depth == old(depth)
      decreases Left(content, offset), 0
    {
      hide Members, MemberAt, Skip;
      if depth >= NESTING_LIMIT {
        return Bad;
      }
      depth := depth + 1;
      if !CanAccess(0) || content[offset] != OPEN_OBJECT {
        return Bad;
      }
      offset := offset + 1;
      SkipWhitespace();
      if CanAccess(0) && content[offset] == CLOSE_OBJECT {
        depth := depth - 1;
        offset := offset + 1;
        return Ok(Object([]), offset);
      }
      if !CanAccess(0) {
        offset := offset - 1;
        return Bad;
      }
      offset := offset - 1;
      var members := [];
      while true
        invariant old(offset) <= offset < |content| && depth == old(depth) + 1
        invariant Members(content, offset + 1, depth, members) == ObjectAt(content, old(offset), old(depth))
        decreases |content| - offset
      {
        MembersStep(content, offset + 1, depth, members);
        var m := ParseMember();
        if !m.Ok? {
          return if m.Bad? then Bad else NotModelled;
        }
        members := members + [m.value];
        SkipWhitespace();
        if !(CanAccess(0) && content[offset] == COMMA) {
          break;
        }
      }
      if !CanAccess(0) || content[offset] != CLOSE_OBJECT {
        return Bad;
      }
      depth := depth - 1;
      offset := offset + 1;
      return Ok(Object(members), offset);
    }
  }

  /** `cJSON_ParseWithLength`. */
  method ParseWithLength(c: seq<byte>) returns (r: Outcome<Json>)
    ensures r == Parse(c)
  {
    hide Value, Skip;
    if c == [] {
      return Bad;
    }
    var buffer := new ParseBuffer(c);
    if buffer.CanAccess(4) && buffer.StartsWith(BOM) {
      buffer.offset := buffer.offset + 3;
    }
    buffer.SkipWhitespace();
    r := buffer.ParseValue();
  }

  lemma ElementsStep(c: seq<byte>, i: nat, depth: nat, acc: seq<Json>)
    ensures Elements(c, i, depth, acc)
         == match Value(c, Skip(c, i), depth)
            case Ok(v, next) =>
              var p := Skip(c, next);
              if p < |c| && c[p] == COMMA then Elements(c, p + 1, depth, acc + [v])
              else if p < |c| && c[p] == CLOSE_ARRAY then Ok(Array(acc + [v]), p + 1)
              else Bad
            case Bad => Bad
            case NotModelled => NotModelled
  {
    hide Value, Skip;
  }

  lemma MembersStep(c: seq<byte>, i: nat, depth: nat, acc: seq<Member>)
    ensures Members(c, i, depth, acc)
         == match MemberAt(c, i, depth)
            case Ok(m, next) =>
              var p := Skip(c, next);
              if p < |c| && c[p] == COMMA then Members(c, p + 1, depth, acc + [m])
              else if p < |c| && c[p] == CLOSE_OBJECT then Ok(Object(acc + [m]), p + 1)
              else Bad
            case Bad => Bad
            case NotModelled => NotModelled
  {
    hide MemberAt, Skip;
  }
}
