/** Strings: `parse_string` with its two passes, and the escapes of RFC 8259 section 7. */
module JsonString {
  import opened Bits
  import opened JsonText
  import opened JsonGrammar

  const LETTER_U: byte := 117

  // ---- UTF-8 (RFC 3629) --------------------------------------------------------------------

  /** The last `n` groups of six bits as continuation bytes. */
  function Tail(cp: nat, n: nat): (r: seq<byte>)
    ensures |r| == n
    decreases n
  {
    if n == 0 then [] else Tail(cp / 64, n - 1) + [0x80 + cp % 64]
  }

  /** The bits above them. */
  function Lead(cp: nat, n: nat): nat
    decreases n
  {
    if n == 0 then cp else Lead(cp / 64, n - 1)
  }

  function Utf8Length(cp: nat): (n: nat)
    ensures 1 <= n <= 4
  {
    if cp < 0x80 then 1 else if cp < 0x800 then 2 else if cp < 0x1_0000 then 3 else 4
  }

  /** As many ones as there are bytes. */
  function Mark(n: nat): byte {
    if n == 2 then 0xC0 else if n == 3 then 0xE0 else 0xF0
  }

  lemma LeadFits(cp: nat)
    requires cp <= 0x10_FFFF && Utf8Length(cp) > 1
    ensures Mark(Utf8Length(cp)) + Lead(cp, Utf8Length(cp) - 1) < 256
    ensures Lead(cp, Utf8Length(cp) - 1) < Pow2(7 - Utf8Length(cp))
  {
    assert Pow2(3) == 8 && Pow2(4) == 16 && Pow2(5) == 32;
    if cp < 0x800 {
      assert Lead(cp, 1) == cp / 64;
    } else if cp < 0x1_0000 {
      assert Lead(cp / 64, 1) == cp / 64 / 64 && Lead(cp, 2) == cp / 64 / 64;
    } else {
      var a := cp / 64;
      var b := a / 64;
      assert Lead(b, 1) == b / 64 && Lead(a, 2) == b / 64 && Lead(cp, 3) == b / 64;
    }
  }

  function Utf8(cp: nat): (r: seq<byte>)
    requires cp <= 0x10_FFFF
    ensures |r| == Utf8Length(cp)
  {
    if cp < 0x80 then [cp]
    else
      LeadFits(cp);
      [Mark(Utf8Length(cp)) + Lead(cp, Utf8Length(cp) - 1)] + Tail(cp, Utf8Length(cp) - 1)
  }

  lemma OrEven(a: nat, m: nat)
    ensures Or(a, 2 * m) == a % 2 + 2 * Or(a / 2, m)
  {
    if a > 0 && m == 0 {
      assert Or(a / 2, 0) == a / 2;
    }
  }

  lemma OrOdd(a: nat)
    ensures Or(a, 1) % 2 == 1
  {
  }

  lemma OrEight(a: nat, m: nat)
    ensures Or(a, 8 * m) == a % 8 + 8 * Or(a / 8, m)
  {
    hide Or;
    OrEven(a, 4 * m);
    OrEven(a / 2, 2 * m);
    OrEven(a / 4, m);
  }

  lemma Or80(a: nat)
    ensures Or(a, 0x80) % 64 == a % 64 && (Or(a, 0x80) / 128) % 2 == 1
  {
    hide Or;
    OrEight(a, 0x10);
    OrEight(a / 8, 2);
    OrEven(a / 64, 1);
    OrOdd(a / 128);
    assert a / 8 / 8 == a / 64 && a / 64 / 2 == a / 128;
    assert a % 64 == a % 8 + 8 * ((a / 8) % 8);
    Or80Sum(a % 64, (a / 64) % 2, Or(a / 128, 1));
  }

  lemma Or80Sum(low: nat, z: nat, h: nat)
    requires low < 64 && z < 2
    ensures (low + 64 * (z + 2 * h)) % 64 == low && (low + 64 * (z + 2 * h)) / 128 == h
  {
    assert low + 64 * (z + 2 * h) == 128 * h + (64 * z + low) && 64 * z + low < 128;
  }

  lemma AndEight(a: nat, m: nat)
    ensures And(a, 8 * m + 7) == a % 8 + 8 * And(a / 8, m)
  {
    hide And;
    AndOdd(a, 4 * m + 3);
    AndOdd(a / 2, 2 * m + 1);
    AndOdd(a / 4, m);
  }

  lemma AndBF(a: nat)
    ensures And(a, 0xBF) == a % 64 + 128 * ((a / 128) % 2)
  {
    hide And;
    AndEight(a, 0x17);
    AndEight(a / 8, 2);
    AndEven(a / 64, 1);
    AndOdd(a / 128, 0);
    AndZero(a / 256);
    assert a / 8 / 8 == a / 64 && a / 64 / 2 == a / 128;
    assert a % 64 == a % 8 + 8 * ((a / 8) % 8);
  }

  /** A continuation byte: the two top bits are 1 and 0, the others those of the code point. */
  lemma Continuation(cp: nat)
    ensures And(Or(cp, 0x80), 0xBF) == 0x80 + cp % 64
  {
    hide And, Or;
    Or80(cp);
    AndBF(Or(cp, 0x80));
  }

  /** The first byte of a longer sequence: `(cp | mark) & 0xFF`. */
  lemma FirstByte(cp: nat, ones: nat, shift: nat)
    requires cp < Pow2(shift) && Shl(ones, shift) + Pow2(shift) <= 256
    ensures And(Or(cp, Shl(ones, shift)), 0xFF) == Shl(ones, shift) + cp
  {
    hide And, Or, Shl, Low, Shr, Pow2;
    var v := cp + Shl(ones, shift);
    OrShifted(cp, ones, shift);
    Pow2Values();
    AndMask(v, 8);
    ShrSmall(v, 8);
    Recompose(v, 8);
    ShlZero(8);
  }

  lemma Shifted(cp: nat)
    ensures Shr(cp, 6) == cp / 64
  {
    assert Shr(cp, 3) == cp / 8;
    ShrShr(cp, 3, 3);
    assert Shr(cp / 8, 3) == cp / 8 / 8;
  }

  function Ones(n: nat): nat {
    if n == 2 then 3 else if n == 3 then 7 else 15
  }

  lemma MarkOnes(n: nat)
    requires 2 <= n <= 4
    ensures Mark(n) == Shl(Ones(n), 8 - n) && Mark(n) + Pow2(8 - n) <= 256 && Pow2(7 - n) <= Pow2(8 - n)
  {
    Pow2Values();
    assert Shl(3, 3) == 24 && Shl(15, 2) == 60 && Shl(7, 2) == 28;
    assert Shl(3, 6) == 192 && Shl(7, 5) == 224 && Shl(15, 4) == 240;
  }

  /** The encoding loop of `utf16_literal_to_utf8`. */
  method EncodeUtf8(codepoint: nat, out: array<byte>, o: nat)
    requires codepoint <= 0x10_FFFF && o + |Utf8(codepoint)| <= out.Length
    modifies out
    ensures out[..o + |Utf8(codepoint)|] == old(out[..o]) + Utf8(codepoint)
  {
    hide Tail, Lead, Utf8Length, Utf8;
    var length := Utf8Length(codepoint);
    var cp := PutTail(codepoint, length, out, o);
    var first := FirstOf(cp, codepoint, length);
    ghost var tail := out[o + 1..o + length];
    out[o] := first;
    assert out[o + 1..o + length] == tail;
    assert out[..o + length] == out[..o] + [first] + tail;
  }

  /** The continuation bytes, from the last one to the first. */
  method PutTail(codepoint: nat, length: nat, out: array<byte>, o: nat) returns (cp: nat)
    requires length > 0 && o + length <= out.Length
    modifies out
    ensures out[..o] == old(out[..o]) && cp == Lead(codepoint, length - 1)
    ensures out[o + 1..o + length] == Tail(codepoint, length - 1)
  {
    hide And, Or, Shr, Shl, Pow2, Tail, Lead;
    cp := codepoint;
    var position := length - 1;
    ghost var tail := Tail(codepoint, length - 1);
    while position > 0
      invariant 0 <= position < length
      invariant tail[..position] == Tail(cp, position)
      invariant forall k :: position <= k < length - 1 ==> out[o + 1 + k] == tail[k]
      invariant Lead(codepoint, length - 1) == Lead(cp, position)
      invariant out[..o] == old(out[..o])
    {
      TailStep(cp, position);
      assert tail[..position][position - 1] == 0x80 + cp % 64;
      assert tail[..position][..position - 1] == tail[..position - 1];
      Continuation(cp);
      Shifted(cp);
      out[o + position] := And(Or(cp, 0x80), 0xBF);
      cp := Shr(cp, 6);
      position := position - 1;
    }
    TailDone(cp);
  }

  method FirstOf(cp: nat, ghost codepoint: nat, length: nat) returns (b: byte)
    requires codepoint <= 0x10_FFFF && length == Utf8Length(codepoint) && cp == Lead(codepoint, length - 1)
    ensures Utf8(codepoint) == [b] + Tail(codepoint, length - 1)
  {
    hide And, Or, Shr, Shl, Pow2, Tail, Lead, Mark;
    TailDone(codepoint);
    if length > 1 {
      LeadFits(codepoint);
      MarkOnes(length);
      FirstByte(cp, Ones(length), 8 - length);
      b := And(Or(cp, Mark(length)), 0xFF);
    } else {
      assert Pow2(7) == 128 by { Pow2Values(); }
      AndMask(cp, 7);
      ShrSmall(cp, 7);
      Recompose(cp, 7);
      ShlZero(7);
      b := And(cp, 0x7F);
    }
  }

  lemma TailStep(cp: nat, n: nat)
    requires n > 0
    ensures Tail(cp, n) == Tail(cp / 64, n - 1) + [0x80 + cp % 64] && Lead(cp, n) == Lead(cp / 64, n - 1)
  {
  }

  lemma TailDone(cp: nat)
    ensures Tail(cp, 0) == [] && Lead(cp, 0) == cp
  {
  }

  // ---- Escapes -----------------------------------------------------------------------------

  /** The value of a hexadecimal digit; 16 for anything else. */
  function HexValue(b: byte): (v: nat)
    ensures v <= 16
  {
    if 48 <= b <= 57 then b - 48
    else if 65 <= b <= 70 then 10 + (b - 65)
    else if 97 <= b <= 102 then 10 + (b - 97)
    else 16
  }

  predicate IsHex4(c: seq<byte>, i: nat)
    requires i + 4 <= |c|
  {
    HexValue(c[i]) < 16 && HexValue(c[i + 1]) < 16 && HexValue(c[i + 2]) < 16 && HexValue(c[i + 3]) < 16
  }

  /** Four hexadecimal digits; anything else reads as zero. */
  function Hex4(c: seq<byte>, i: nat): (v: nat)
    requires i + 4 <= |c|
    ensures v < 0x1_0000
  {
    if IsHex4(c, i) then
      0x1000 * HexValue(c[i]) + 0x100 * HexValue(c[i + 1]) + 0x10 * HexValue(c[i + 2]) + HexValue(c[i + 3])
    else 0
  }

  datatype Literal = Literal(codepoint: nat, length: nat)

  /** The escape at `i`: one unit, or a surrogate pair (RFC 2781 section 2.2), all before `end`. */
  function Utf16(c: seq<byte>, i: nat, end: nat): (r: Option<Literal>)
    requires i <= end <= |c|
    ensures r.Some? ==> r.value.codepoint <= 0x10_FFFF && i + r.value.length <= end
    ensures r.Some? ==> if r.value.length == 6 then r.value.codepoint < 0x1_0000 else r.value.length == 12
  {
    if end - i < 6 then None
    else
      var first := Hex4(c, i + 2);
      if 0xDC00 <= first <= 0xDFFF then None
      else if 0xD800 <= first <= 0xDBFF then
        if end - i < 12 || c[i + 6] != BACKSLASH || c[i + 7] != LETTER_U then None
        else
          var second := Hex4(c, i + 8);
          if second < 0xDC00 || second > 0xDFFF then None
          else Some(Literal(0x1_0000 + 0x400 * (first - 0xD800) + (second - 0xDC00), 12))
      else Some(Literal(first, 6))
  }

  /** The byte for a two-character escape, or 0. */
  function Unescaped(letter: byte): byte {
    if letter == 98 then 8
    else if letter == 102 then 12
    else if letter == 110 then 10
    else if letter == 114 then 13
    else if letter == 116 then 9
    else if letter == QUOTE || letter == BACKSLASH || letter == 47 then letter
    else 0
  }

  /** The second pass: the bytes of the string from `i` on, after `acc`. */
  function Unescape(c: seq<byte>, i: nat, end: nat, acc: seq<byte>): Option<seq<byte>>
    requires end < |c|
    decreases end - i
  {
    if i >= end then Some(acc)
    else if c[i] != BACKSLASH then Unescape(c, i + 1, end, acc + [c[i]])
    else if c[i + 1] == LETTER_U then
      match Utf16(c, i, end)
      case None => None
      case Some(l) => Unescape(c, i + l.length, end, acc + Utf8(l.codepoint))
    else if Unescaped(c[i + 1]) == 0 then None
    else Unescape(c, i + 2, end, acc + [Unescaped(c[i + 1])])
  }

  /** The first pass: the closing quote. */
  function EndQuote(c: seq<byte>, i: nat): (r: Option<nat>)
    ensures r.Some? ==> i <= r.value < |c| && c[r.value] == QUOTE
    decreases |c| - i
  {
    if i >= |c| then None
    else if c[i] == QUOTE then Some(i)
    else if c[i] != BACKSLASH then EndQuote(c, i + 1)
    else if i + 1 >= |c| then None
    else EndQuote(c, i + 2)
  }

  /** The string literal at `i`, and the position after it. */
  function StringAt(c: seq<byte>, i: nat): (r: Option<(cstring, nat)>)
    ensures r.Some? ==> i + 2 <= r.value.1 <= |c|
  {
    if i >= |c| || c[i] != QUOTE then None
    else match EndQuote(c, i + 1)
      case None => None
      case Some(end) =>
        match Unescape(c, i + 1, end, [])
        case None => None
        case Some(s) => Some((Truncate(s), end + 1))
  }

  // ---- The estimate ------------------------------------------------------------------------

  /** In the first pass, started at `p`, position `i` is the second byte of an escape. */
  ghost predicate Second(c: seq<byte>, p: nat, i: nat)
    requires p <= i <= |c|
    decreases i
  {
    i > p && !Second(c, p, i - 1) && c[i - 1] == BACKSLASH
  }

  /** How many escapes the first pass sees begin from `i` up to `end`. */
  ghost function Escapes(c: seq<byte>, p: nat, i: nat, end: nat): (n: nat)
    requires p <= i && end <= |c|
    decreases end - i
  {
    if i >= end then 0
    else (if !Second(c, p, i) && c[i] == BACKSLASH then 1 else 0) + Escapes(c, p, i + 1, end)
  }

  lemma {:induction false} EscapesSplit(c: seq<byte>, p: nat, i: nat, m: nat, end: nat)
    requires p <= i <= m <= end <= |c|
    ensures Escapes(c, p, i, end) == Escapes(c, p, i, m) + Escapes(c, p, m, end)
    decreases m - i
  {
    if i < m {
      EscapesSplit(c, p, i + 1, m, end);
    }
  }

  /** Among any two positions at most one begins an escape, so among `2 * n` at most `n` do. */
  lemma {:induction false} EscapesApart(c: seq<byte>, p: nat, i: nat, n: nat, end: nat)
    requires p <= i && i + 2 * n <= end <= |c|
    ensures Escapes(c, p, i, end) <= n + Escapes(c, p, i + 2 * n, end)
    decreases n
  {
    if n > 0 {
      EscapesApart(c, p, i + 2, n - 1, end);
      assert Escapes(c, p, i, end) <= 1 + Escapes(c, p, i + 2, end) by { TwoApart(c, p, i, end); }
      assert i + 2 + 2 * (n - 1) == i + 2 * n;
    }
  }

  lemma TwoApart(c: seq<byte>, p: nat, i: nat, end: nat)
    requires p <= i && i + 2 <= end <= |c|
    ensures Escapes(c, p, i, end) <= 1 + Escapes(c, p, i + 2, end)
  {
    assert Second(c, p, i + 1) <==> !Second(c, p, i) && c[i] == BACKSLASH;
  }

  /** The closing quote is not escaped, so the last byte before it does not begin an escape. */
  lemma LastPlain(c: seq<byte>, p: nat, end: nat)
    requires p < end <= |c| && !Second(c, p, end)
    ensures Escapes(c, p, end - 1, end) == 0
  {
  }

  // ---- Reading -----------------------------------------------------------------------------

  /** `parse_hex4`. */
  method ParseHex4(c: seq<byte>, at: nat) returns (h: nat)
    requires at + 4 <= |c|
    ensures h == Hex4(c, at)
    ensures if forall k :: at <= k < at + 4 ==> HexChar(c[k]) then Spells(c[at..at + 4], h) else h == 0
  {
    hide Shl, HexValue, Spells;
    HexRead(c, at);
    h := 0;
    for i := 0 to 4
      invariant (i > 0 ==> HexValue(c[at]) < 16) && (i > 1 ==> HexValue(c[at + 1]) < 16)
      invariant (i > 2 ==> HexValue(c[at + 2]) < 16) && (i > 3 ==> HexValue(c[at + 3]) < 16)
      invariant h == HexSoFar(c, at, i)
    {
      if HexValue(c[at + i]) < 16 {
        h := h + HexValue(c[at + i]);
      } else {
        return 0;
      }
      if i < 3 {
        ShlFour(h);
        h := Shl(h, 4);
      }
    }
  }

  lemma DigitRead(b: byte, v: nat)
    ensures IsHex(b, v) <==> v < 16 && HexValue(b) == v
  {
    if v < 16 {
      LetterOf(v);
    }
  }

  lemma LetterOf(v: nat)
    requires v < 16
    ensures LOWER[v] as int == if v < 10 then 48 + v else 87 + v
    ensures UPPER[v] as int == if v < 10 then 48 + v else 55 + v
  {
  }

  /** Reading four digits gives the value they spell, and zero if they spell none. */
  lemma HexRead(c: seq<byte>, at: nat)
    requires at + 4 <= |c|
    ensures if forall k :: at <= k < at + 4 ==> HexChar(c[k]) then Spells(c[at..at + 4], Hex4(c, at)) else Hex4(c, at) == 0
  {
    hide IsHex, HexValue, HexChar;
    var d, h := c[at..at + 4], Hex4(c, at);
    assert d[0] == c[at] && d[1] == c[at + 1] && d[2] == c[at + 2] && d[3] == c[at + 3];
    forall k | at <= k < at + 4
      ensures HexChar(c[k]) <==> HexValue(c[k]) < 16
    {
      CharRead(c[k]);
    }
    if IsHex4(c, at) {
      var v0, v1, v2, v3 := HexValue(d[0]), HexValue(d[1]), HexValue(d[2]), HexValue(d[3]);
      DigitRead(d[0], v0);
      DigitRead(d[1], v1);
      DigitRead(d[2], v2);
      DigitRead(d[3], v3);
      DigitsOf(v0, v1, v2, v3);
      assert Spells(d, h);
    }
  }

  lemma CharRead(b: byte)
    ensures HexChar(b) <==> HexValue(b) < 16
  {
  }

  /** Digits spell one value only. */
  lemma SpelledHex(c: seq<byte>, at: nat, v: nat)
    requires at + 4 <= |c| && Spells(c[at..at + 4], v)
    ensures Hex4(c, at) == v
  {
    hide IsHex, HexValue;
    var d := c[at..at + 4];
    assert d[0] == c[at] && d[1] == c[at + 1] && d[2] == c[at + 2] && d[3] == c[at + 3];
    DigitRead(d[0], v / 4096);
    DigitRead(d[1], v / 256 % 16);
    DigitRead(d[2], v / 16 % 16);
    DigitRead(d[3], v % 16);
    FourDigits(v);
  }

  lemma FourDigits(v: nat)
    requires v <= 0xFFFF
    ensures v == 4096 * (v / 4096) + 256 * (v / 256 % 16) + 16 * (v / 16 % 16) + v % 16
  {
    var b := v / 16;
    var a := b / 16;
    assert v / 256 == a && v / 4096 == a / 16;
    assert v == 16 * b + v % 16 && b == 16 * a + b % 16 && a == 16 * (a / 16) + a % 16;
  }

  lemma DigitsOf(v0: nat, v1: nat, v2: nat, v3: nat)
    requires v0 < 16 && v1 < 16 && v2 < 16 && v3 < 16
    ensures var v := 0x1000 * v0 + 0x100 * v1 + 0x10 * v2 + v3;
            v / 4096 == v0 && v / 256 % 16 == v1 && v / 16 % 16 == v2 && v % 16 == v3 && v <= 0xFFFF
  {
    var v := 0x1000 * v0 + 0x100 * v1 + 0x10 * v2 + v3;
    var a := 16 * v0 + v1;
    var b := 16 * a + v2;
    assert v == 16 * b + v3;
    assert v / 16 == b && b / 16 == a && a / 16 == v0;
    assert v / 256 == a && v / 4096 == v0;
  }

  /** The encoding in closed form. */
  lemma Utf8IsEncoding(cp: nat)
    requires cp <= 0x10_FFFF
    ensures Utf8(cp) == Encoding(cp)
  {
    var a := cp / 64;
    var b := a / 64;
    assert a / 64 == cp / 4096 && b / 64 == cp / 262144;
    TailDone(a);
    TailDone(b);
    TailDone(b / 64);
    TailStep(cp, 1);
    TailStep(cp, 2);
    TailStep(a, 1);
    TailStep(cp, 3);
    TailStep(a, 2);
    TailStep(b, 1);
  }

  /** The digits so far, shifted to make room for the next one. */
  function HexSoFar(c: seq<byte>, at: nat, i: nat): nat
    requires at + 4 <= |c| && i <= 4
  {
    var v0, v1, v2 := HexValue(c[at]), HexValue(c[at + 1]), HexValue(c[at + 2]);
    if i == 0 then 0
    else if i == 1 then 0x10 * v0
    else if i == 2 then 0x100 * v0 + 0x10 * v1
    else if i == 3 then 0x1000 * v0 + 0x100 * v1 + 0x10 * v2
    else 0x1000 * v0 + 0x100 * v1 + 0x10 * v2 + HexValue(c[at + 3])
  }

  /** The code point of a surrogate pair: the low ten bits of both halves, beyond the first plane. */
  function Combine(first: nat, second: nat): nat {
    0x1_0000 + Or(Shl(And(first, 0x3FF), 10), And(second, 0x3FF))
  }

  lemma CombinePair(first: nat, second: nat)
    requires 0xD800 <= first <= 0xDBFF && 0xDC00 <= second <= 0xDFFF
    ensures Combine(first, second) == 0x1_0000 + 0x400 * (first - 0xD800) + (second - 0xDC00)
  {
    hide And, Or, Shl, Low, Pow2;
    assert Pow2(10) == 0x400 by { Ten(); }
    AndMask(first, 10);
    AndMask(second, 10);
    TenBits(54, first - 0xD800);
    TenBits(55, second - 0xDC00);
    var a, b := first - 0xD800, second - 0xDC00;
    OrCommutes(Shl(a, 10), b);
    OrShifted(b, a, 10);
    ShlTen(a);
  }

  lemma Ten()
    ensures Pow2(10) == 0x400
  {
    assert Pow2(5) == 32;
    assert Pow2(10) == 2 * Pow2(9) && Pow2(9) == 2 * Pow2(8) && Pow2(8) == 2 * Pow2(7) && Pow2(7) == 2 * Pow2(6) && Pow2(6) == 2 * Pow2(5);
  }

  lemma ShlTen(v: nat)
    ensures Shl(v, 10) == 0x400 * v
  {
    hide Shl;
    ShlFour(v);
    ShlFour(16 * v);
    ShlShl(v, 4, 4);
    ShlShl(v, 8, 2);
    assert Shl(256 * v, 2) == 1024 * v by { ShlTwo(256 * v); }
  }

  lemma ShlTwo(v: nat)
    ensures Shl(v, 2) == 4 * v
  {
    assert Shl(v, 1) == 2 * v;
  }

  lemma TenBits(h: nat, l: nat)
    requires l < 0x400
    ensures Low(0x400 * h + l, 10) == l
  {
    hide Shl, Low, Pow2, Shr;
    Ten();
    ShlTen(h);
    SplitAt(h, l, 10);
  }

  /** `utf16_literal_to_utf8`: a length of zero reports failure. */
  method Utf16Literal(c: seq<byte>, i: nat, end: nat, out: array<byte>, o: nat) returns (length: nat, next: nat)
    requires i <= end <= |c|
    requires var l := Utf16(c, i, end); l.Some? ==> o + |Utf8(l.value.codepoint)| <= out.Length
    modifies out
    ensures match Utf16(c, i, end)
            case None => length == 0 && next == o && out[..] == old(out[..])
            case Some(l) => length == l.length && next == o + |Utf8(l.codepoint)| && out[..next] == old(out[..o]) + Utf8(l.codepoint)
  {
    hide Hex4, Combine, Utf8;
    length, next := 0, o;
    if end - i < 6 {
      return;
    }
    var first_code := ParseHex4(c, i + 2);
    if 0xDC00 <= first_code <= 0xDFFF {
      return;
    }
    var codepoint := first_code;
    if 0xD800 <= first_code <= 0xDBFF {
      if end - (i + 6) < 6 {
        return;
      }
      if c[i + 6] != BACKSLASH || c[i + 7] != LETTER_U {
        return;
      }
      var second_code := ParseHex4(c, i + 8);
      if second_code < 0xDC00 || second_code > 0xDFFF {
        return;
      }
      CombinePair(first_code, second_code);
      codepoint := Combine(first_code, second_code);
      length := 12;
    } else {
      length := 6;
    }
    EncodeUtf8(codepoint, out, o);
    next := o + Utf8Length(codepoint);
  }

  lemma EscapesNone(c: seq<byte>, p: nat)
    requires p <= |c|
    ensures Escapes(c, p, p, p) == 0 && !Second(c, p, p)
  {
  }

  /** One step of the first pass. */
  lemma EscapesHere(c: seq<byte>, p: nat, i: nat, end: nat)
    requires p <= i < end <= |c| && !Second(c, p, i)
    ensures c[i] != BACKSLASH ==> !Second(c, p, i + 1) && (end == i + 1 ==> Escapes(c, p, i, end) == 0)
    ensures c[i] == BACKSLASH && end == i + 2 ==> !Second(c, p, i + 2) && Escapes(c, p, i, end) == 1
  {
    assert Escapes(c, p, end, end) == 0;
    if end == i + 2 {
      assert Escapes(c, p, i + 1, end) == (if !Second(c, p, i + 1) && c[i + 1] == BACKSLASH then 1 else 0) + Escapes(c, p, end, end);
    }
  }

  /** The first pass of `parse_string`: the end of the literal and the number of backslashes skipped. */
  method MeasureString(c: seq<byte>, start: nat) returns (ok: bool, input_end: nat, skipped_bytes: nat)
    requires start <= |c|
    ensures ok <==> EndQuote(c, start).Some?
    ensures ok ==> EndQuote(c, start) == Some(input_end) && start <= input_end
    ensures ok ==> !Second(c, start, input_end) && skipped_bytes == Escapes(c, start, start, input_end)
  {
    hide Second, Escapes;
    EscapesNone(c, start);
    input_end, skipped_bytes := start, 0;
    while input_end < |c| && c[input_end] != QUOTE
      invariant start <= input_end <= |c| && !Second(c, start, input_end)
      invariant EndQuote(c, start) == EndQuote(c, input_end)
      invariant skipped_bytes == Escapes(c, start, start, input_end)
    {
      if c[input_end] != BACKSLASH {
        EscapesSplit(c, start, start, input_end, input_end + 1);
        EscapesHere(c, start, input_end, input_end + 1);
      }
      if c[input_end] == BACKSLASH {
        if input_end + 1 >= |c| {
          return false, input_end, skipped_bytes;
        }
        EscapesSplit(c, start, start, input_end, input_end + 2);
        EscapesHere(c, start, input_end, input_end + 2);
        skipped_bytes := skipped_bytes + 1;
        input_end := input_end + 1;
      }
      input_end := input_end + 1;
    }
    ok := input_end < |c|;
  }

  /** The second pass of `parse_string`, into a buffer of the estimated size.  The estimate suffices
      for every input: each write and the terminator stay inside it. */
  method DecodeString(c: seq<byte>, start: nat, end: nat, skipped_bytes: nat) returns (ok: bool, valuestring: cstring)
    requires 0 < start <= end < |c| && !Second(c, start, end)
    requires skipped_bytes == Escapes(c, start, start, end)
    ensures match Unescape(c, start, end, [])
            case None => !ok
            case Some(s) => ok && valuestring == Truncate(s)
  {
    hide Second, Escapes, Utf16, Utf8, Unescape, Unescaped, Truncate;
    EscapesAtMost(c, start, start, end);
    var allocation_length := end - (start - 1) - skipped_bytes;
    var output := new byte[allocation_length + 1];
    var input: nat, o: nat := start, 0;
    while input < end
      invariant start <= input <= end + 1 && o <= end - start - skipped_bytes
      invariant input <= end ==> o + (end - input) - Escapes(c, start, input, end) <= end - start - skipped_bytes
      invariant Unescape(c, start, end, []) == Unescape(c, input, end, output[..o])
    {
      UnescapeStep(c, input, end, output[..o]);
      RoomStep(c, start, input, end);
      ghost var acc := output[..o];
      if c[input] != BACKSLASH {
        output[o] := c[input];
        o := o + 1;
        input := input + 1;
        assert output[..o] == acc + [c[input - 1]];
      } else if c[input + 1] == LETTER_U {
        var length;
        length, o := Utf16Literal(c, input, end, output, o);
        if length == 0 {
          return false, [];
        }
        input := input + length;
      } else if Unescaped(c[input + 1]) != 0 {
        output[o] := Unescaped(c[input + 1]);
        o := o + 1;
        input := input + 2;
        assert output[..o] == acc + [Unescaped(c[input - 1])];
      } else {
        return false, [];
      }
    }
    UnescapeStep(c, input, end, output[..o]);
    output[o] := 0;
    return true, Truncate(output[..o]);
  }

  lemma {:induction false} EscapesAtMost(c: seq<byte>, p: nat, i: nat, end: nat)
    requires p <= i <= end <= |c|
    ensures Escapes(c, p, i, end) <= end - i
    decreases end - i
  {
    if i < end {
      EscapesAtMost(c, p, i + 1, end);
    }
  }

  lemma UnescapeStep(c: seq<byte>, i: nat, end: nat, acc: seq<byte>)
    requires end < |c|
    ensures i >= end ==> Unescape(c, i, end, acc) == Some(acc)
    ensures i < end && c[i] != BACKSLASH ==> Unescape(c, i, end, acc) == Unescape(c, i + 1, end, acc + [c[i]])
    ensures i < end && c[i] == BACKSLASH && c[i + 1] == LETTER_U ==>
              Unescape(c, i, end, acc) == (match Utf16(c, i, end)
                                           case None => None
                                           case Some(l) => Unescape(c, i + l.length, end, acc + Utf8(l.codepoint)))
    ensures i < end && c[i] == BACKSLASH && c[i + 1] != LETTER_U ==>
              Unescape(c, i, end, acc) == (if Unescaped(c[i + 1]) == 0 then None
                                           else Unescape(c, i + 2, end, acc + [Unescaped(c[i + 1])]))
  {
    hide Utf16, Utf8, Unescaped;
  }

  /** What each kind of step takes from the input pays for what it writes, however the two passes
      divide the text into escapes. */
  lemma RoomStep(c: seq<byte>, p: nat, i: nat, end: nat)
    requires p <= i < end < |c| && !Second(c, p, end)
    ensures c[i] != BACKSLASH ==> Escapes(c, p, i, end) == Escapes(c, p, i + 1, end)
    ensures i + 2 <= end ==> Escapes(c, p, i, end) <= 1 + Escapes(c, p, i + 2, end)
    ensures i + 6 <= end ==> Escapes(c, p, i, end) <= 3 + Escapes(c, p, i + 6, end)
    ensures i + 12 <= end ==> Escapes(c, p, i, end) <= 6 + Escapes(c, p, i + 12, end)
    ensures i + 1 == end ==> Escapes(c, p, i, end) == 0
    ensures forall k :: i <= k <= end ==> Escapes(c, p, k, end) <= end - k
  {
    if i + 2 <= end {
      EscapesApart(c, p, i, 1, end);
    } else {
      LastPlain(c, p, end);
    }
    if i + 6 <= end {
      EscapesApart(c, p, i, 3, end);
    }
    if i + 12 <= end {
      EscapesApart(c, p, i, 6, end);
    }
    forall k: nat | i <= k <= end
      ensures Escapes(c, p, k, end) <= end - k
    {
      EscapesAtMost(c, p, k, end);
    }
  }

  // ---- Looking at bytes --------------------------------------------------------------------

  lemma Shown(c: seq<byte>, i: nat, t: seq<byte>)
    requires At(c, i, t)
    ensures forall k :: 0 <= k < |t| ==> c[i + k] == t[k]
  {
    forall k | 0 <= k < |t|
      ensures c[i + k] == t[k]
    {
      assert c[i..i + |t|][k] == t[k];
    }
  }

  lemma QuoteHere(c: seq<byte>, i: nat)
    requires i < |c| && c[i] == QUOTE
    ensures EndQuote(c, i) == Some(i)
  {
  }
}
