/** Literals and matches, the bits that carry them in a block with the fixed codes, and the theorem
    that a decoder reading those bits gives the expansion of the tokens. */
module DeflateSpec {
  import opened Bits
  import opened Huffman
  import opened InflateSpec
  import opened FixedCodes

  /** A literal byte, or a copy of `len` bytes from `dist` back. */
  datatype Token = Literal(b: byte) | Copy(len: nat, dist: nat)

  /** What the tokens append to `out`. */
  function Expand(out: seq<byte>, tokens: seq<Token>): (r: seq<byte>)
    requires Sound(out, tokens)
    ensures out <= r
    decreases |tokens|
  {
    if tokens == [] then out else Expand(Apply(out, tokens[0]), tokens[1..])
  }

  function Apply(out: seq<byte>, t: Token): (r: seq<byte>)
    requires t.Literal? || 1 <= t.dist <= |out|
    ensures out <= r
  {
    match t
    case Literal(b) => out + [b]
    case Copy(len, dist) => CopyBack(out, dist, len)
  }

  predicate TokenOk(out: seq<byte>, t: Token) {
    t.Literal? || (3 <= t.len <= 258 && 1 <= t.dist <= 32767 && t.dist <= |out|)
  }

  /** Every copy has a length and a distance the format can express, and reaches back no further
      than the output goes. */
  predicate Sound(out: seq<byte>, tokens: seq<Token>)
    decreases |tokens|
  {
    tokens == [] || (TokenOk(out, tokens[0]) && Sound(Apply(out, tokens[0]), tokens[1..]))
  }

  lemma {:induction false} ExpandAppend(out: seq<byte>, tokens: seq<Token>, t: Token)
    requires Sound(out, tokens) && TokenOk(Expand(out, tokens), t)
    ensures Sound(out, tokens + [t])
    ensures Expand(out, tokens + [t]) == Apply(Expand(out, tokens), t)
    decreases |tokens|
  {
    if tokens == [] {
      assert tokens + [t] == [t] && [t][1..] == [];
    } else {
      assert (tokens + [t])[0] == tokens[0] && (tokens + [t])[1..] == tokens[1..] + [t];
      ExpandAppend(Apply(out, tokens[0]), tokens[1..], t);
    }
  }

  // ---- Bit lists ---------------------------------------------------------------------------

  /** The low `n` bits of `v`, least significant first. */
  function BitsLsb(v: nat, n: nat): (r: seq<nat>)
    ensures |r| == n && forall k :: 0 <= k < n ==> r[k] <= 1
    decreases n
  {
    if n == 0 then [] else [v % 2] + BitsLsb(v / 2, n - 1)
  }

  /** The low `n` bits of `v`, most significant first. */
  function BitsMsb(v: nat, n: nat): (r: seq<nat>)
    ensures |r| == n && forall k :: 0 <= k < n ==> r[k] <= 1
    decreases n
  {
    if n == 0 then [] else BitsMsb(v / 2, n - 1) + [v % 2]
  }

  /** The bits `e` stand in the stream at position `c`. */
  ghost predicate Carries(s: seq<byte>, c: nat, e: seq<nat>) {
    forall k :: 0 <= k < |e| ==> StreamBit(s, c + k) == e[k]
  }

  lemma CarriesSplit(s: seq<byte>, c: nat, a: seq<nat>, b: seq<nat>)
    requires Carries(s, c, a + b)
    ensures Carries(s, c, a) && Carries(s, c + |a|, b)
  {
    forall k | 0 <= k < |a| ensures StreamBit(s, c + k) == a[k] {
      assert (a + b)[k] == a[k];
    }
    forall k | 0 <= k < |b| ensures StreamBit(s, c + |a| + k) == b[k] {
      assert (a + b)[|a| + k] == b[k];
    }
  }

  lemma {:induction false} ReadLsb(s: seq<byte>, c: nat, v: nat, n: nat)
    requires Carries(s, c, BitsLsb(v, n)) && v < Pow2(n)
    ensures Peek(s, c, n) == v
    decreases n
  {
    if n > 0 {
      CarriesSplit(s, c, [v % 2], BitsLsb(v / 2, n - 1));
      assert StreamBit(s, c + 0) == [v % 2][0];
      ReadLsb(s, c + 1, v / 2, n - 1);
    }
  }

  lemma {:induction false} ReadMsb(s: seq<byte>, c: nat, v: nat, n: nat)
    requires Carries(s, c, BitsMsb(v, n)) && v < Pow2(n)
    ensures PeekMsb(s, c, n) == v
    decreases n
  {
    if n > 0 {
      CarriesSplit(s, c, BitsMsb(v / 2, n - 1), [v % 2]);
      assert StreamBit(s, c + (n - 1) + 0) == [v % 2][0];
      ReadMsb(s, c, v / 2, n - 1);
    }
  }

  /** Sending the reversed code least significant bit first sends it most significant first. */
  lemma {:induction false} LsbOfRev(v: nat, n: nat)
    ensures BitsLsb(Rev(v, n), n) == BitsMsb(v, n)
    decreases n
  {
    if n > 0 {
      RevTop(v, n);
      LsbAppend(v % 2, Rev(v / 2, n - 1), n - 1);
      LsbOfRev(v / 2, n - 1);
    }
  }

  lemma {:induction false} LsbAppend(b: nat, r: nat, k: nat)
    requires b <= 1 && r < Pow2(k)
    ensures BitsLsb(Shl(b, k) + r, k + 1) == BitsLsb(r, k) + [b]
    decreases k
  {
    if k == 0 {
      assert BitsLsb(b, 1) == [b];
    } else {
      assert (Shl(b, k) + r) / 2 == Shl(b, k - 1) + r / 2;
      LsbAppend(b, r / 2, k - 1);
    }
  }

  lemma {:induction false} LsbConcat(a: nat, n: nat, b: nat, m: nat)
    requires a < Pow2(n)
    ensures BitsLsb(a + Shl(b, n), n + m) == BitsLsb(a, n) + BitsLsb(b, m)
    decreases n
  {
    if n > 0 {
      assert (a + Shl(b, n)) / 2 == a / 2 + Shl(b, n - 1);
      LsbConcat(a / 2, n - 1, b, m);
    }
  }

  lemma {:induction false} LsbBit(v: nat, n: nat, k: nat)
    requires k < n
    ensures BitsLsb(v, n)[k] == NthBit(v, k)
    decreases n
  {
    if k > 0 {
      LsbBit(v / 2, n - 1, k - 1);
    }
  }

  /** Appending bytes does not disturb the bits before them. */
  lemma CarriesExtend(s: seq<byte>, t: seq<byte>, c: nat, e: seq<nat>)
    requires Carries(s, c, e) && c + |e| <= 8 * |s|
    ensures Carries(s + t, c, e)
  {
    forall k | 0 <= k < |e| ensures StreamBit(s + t, c + k) == e[k] {
      assert (c + k) / 8 < |s| && (s + t)[(c + k) / 8] == s[(c + k) / 8];
      assert StreamBit(s + t, c + k) == StreamBit(s, c + k);
    }
  }

  lemma CarriesJoin(s: seq<byte>, c: nat, a: seq<nat>, b: seq<nat>)
    requires Carries(s, c, a) && Carries(s, c + |a|, b)
    ensures Carries(s, c, a + b)
  {
    forall k | 0 <= k < |a + b| ensures StreamBit(s, c + k) == (a + b)[k] {
      if k >= |a| {
        assert StreamBit(s, c + |a| + (k - |a|)) == b[k - |a|];
      }
    }
  }

  lemma CarriesByte(s: seq<byte>, i: nat)
    requires i < |s|
    ensures Carries(s, 8 * i, BitsLsb(s[i], 8))
  {
    forall k | 0 <= k < 8 ensures StreamBit(s, 8 * i + k) == BitsLsb(s[i], 8)[k] {
      assert (8 * i + k) / 8 == i && (8 * i + k) % 8 == k;
      LsbBit(s[i], 8, k);
    }
  }

  // ---- Tokens as bits ----------------------------------------------------------------------

  /** The tables of the compressor, with the sentinel its search stops at. */
  const LENGTHC: seq<nat> := LENGTH_BASE + [259]
  const DISTC: seq<nat> := DIST_BASE + [32768]

  /** The first `j` with `v < table[j + 1]`. */
  function CodeIndex(table: seq<nat>, v: nat, j: nat): (r: nat)
    requires j + 1 < |table| && table[j] <= v < table[|table| - 1]
    ensures j <= r && r + 1 < |table| && table[r] <= v < table[r + 1]
    decreases |table| - j
  {
    if v < table[j + 1] then j else CodeIndex(table, v, j + 1)
  }

  function LengthIndex(len: nat): (j: nat)
    requires 3 <= len <= 258
    ensures j < 29
    ensures LengthBase(j) <= len && len - LengthBase(j) < Pow2(LengthExtra(j))
  {
    var j := CodeIndex(LENGTHC, len, 0);
    LengthSpan(j);
    j
  }

  function DistIndex(dist: nat): (j: nat)
    requires 1 <= dist <= 32767
    ensures j < 30
    ensures DistBase(j) <= dist && dist - DistBase(j) < Pow2(DistExtra(j))
  {
    var j := CodeIndex(DISTC, dist, 0);
    DistSpan(j);
    j
  }

  lemma LengthSpan(j: nat)
    requires j < 29
    ensures LENGTHC[j] == LengthBase(j) && LENGTHC[j + 1] - LENGTHC[j] <= Pow2(LengthExtra(j))
  {
    Pow2Values();
  }

  lemma DistSpan(j: nat)
    requires j < 30
    ensures DISTC[j] == DistBase(j) && DISTC[j + 1] - DISTC[j] <= Pow2(DistExtra(j))
  {
    hide Pow2;
    Pow2Values();
    assert Pow2(0) == 1 && Pow2(10) == 1024 && Pow2(11) == 2048 && Pow2(12) == 4096 by { Pow2Teens(); }
    if j < 8 {
    } else if j < 16 {
    } else if j < 24 {
    } else {
    }
  }

  lemma Pow2Teens()
    ensures Pow2(0) == 1 && Pow2(10) == 1024 && Pow2(11) == 2048 && Pow2(12) == 4096
  {
    assert Pow2(5) == 32;
    assert Pow2(10) == 2 * Pow2(9) && Pow2(9) == 2 * Pow2(8) && Pow2(8) == 2 * Pow2(7) && Pow2(7) == 2 * Pow2(6) && Pow2(6) == 2 * Pow2(5);
    assert Pow2(12) == 2 * Pow2(11) && Pow2(11) == 2 * Pow2(10);
  }

  function SymbolBits(n: nat): (r: seq<nat>)
    requires n < 288
    ensures |r| == FixedLength(n)
  {
    BitsMsb(FixedCode(n), FixedLength(n))
  }

  function TokenBits(t: Token): seq<nat>
    requires t.Literal? || (3 <= t.len <= 258 && 1 <= t.dist <= 32767)
  {
    match t
    case Literal(b) => SymbolBits(b)
    case Copy(len, dist) =>
      LengthBits(len) + DistBits(dist)
  }

  function LengthBits(len: nat): seq<nat>
    requires 3 <= len <= 258
  {
    var j := LengthIndex(len);
    SymbolBits(257 + j) + BitsLsb(len - LengthBase(j), LengthExtra(j))
  }

  function DistBits(dist: nat): seq<nat>
    requires 1 <= dist <= 32767
  {
    var k := DistIndex(dist);
    BitsMsb(k, 5) + BitsLsb(dist - DistBase(k), DistExtra(k))
  }

  function TokensBits(out: seq<byte>, tokens: seq<Token>): seq<nat>
    requires Sound(out, tokens)
    decreases |tokens|
  {
    if tokens == [] then [] else TokenBits(tokens[0]) + TokensBits(Apply(out, tokens[0]), tokens[1..])
  }

  lemma {:induction false} BitsAppend(out: seq<byte>, tokens: seq<Token>, t: Token)
    requires Sound(out, tokens) && TokenOk(Expand(out, tokens), t) && Sound(out, tokens + [t])
    ensures TokensBits(out, tokens + [t]) == TokensBits(out, tokens) + TokenBits(t)
    decreases |tokens|
  {
    if tokens == [] {
      assert tokens + [t] == [t] && [t][1..] == [];
    } else {
      assert (tokens + [t])[0] == tokens[0] && (tokens + [t])[1..] == tokens[1..] + [t];
      BitsAppend(Apply(out, tokens[0]), tokens[1..], t);
    }
  }

  lemma SymbolDecodes(s: seq<byte>, c: nat, n: nat)
    requires n < 288 && Carries(s, c, SymbolBits(n))
    ensures Decode(FixedLengths(), s, c) == Some(n) && FixedLengths()[n] == |SymbolBits(n)|
  {
    hide Count, FirstCode, Accepted;
    FixedAccepted();
    FixedCodeOf(n);
    CodeFits(FixedLengths(), n);
    ReadMsb(s, c, FixedCode(n), FixedLength(n));
    DecodeUnique(FixedLengths(), n, s, c);
  }

  lemma DistanceDecodes(s: seq<byte>, c: nat, n: nat)
    requires n < 32 && Carries(s, c, BitsMsb(n, 5))
    ensures Decode(FixedDistances(), s, c) == Some(n) && FixedDistances()[n] == 5
  {
    hide Count, FirstCode, Accepted;
    FixedAccepted();
    DistanceCodeOf(n);
    CodeFits(FixedDistances(), n);
    ReadMsb(s, c, n, 5);
    DecodeUnique(FixedDistances(), n, s, c);
  }

  lemma LiteralDecodes(s: seq<byte>, c: nat, out: seq<byte>, b: byte)
    requires Carries(s, c, SymbolBits(b)) && |out| < UINT_MAX
    ensures Codes(FixedLengths(), FixedDistances(), s, c, out)
         == Codes(FixedLengths(), FixedDistances(), s, c + |SymbolBits(b)|, out + [b])
  {
    hide Codes, Decode, SymbolBits, FixedLengths, FixedDistances, FixedLength;
    SymbolDecodes(s, c, b);
    CodesStep(FixedLengths(), FixedDistances(), s, c, out);
  }

  lemma CopyDecodes(s: seq<byte>, c: nat, out: seq<byte>, len: nat, dist: nat)
    requires TokenOk(out, Copy(len, dist)) && Carries(s, c, TokenBits(Copy(len, dist)))
    requires |out| + len <= UINT_MAX
    ensures Codes(FixedLengths(), FixedDistances(), s, c, out)
         == Codes(FixedLengths(), FixedDistances(), s, c + |TokenBits(Copy(len, dist))|, CopyBack(out, dist, len))
  {
    hide Codes, Match, CopyBack, Peek, Decode, LengthBase, LengthExtra, DistBase, DistExtra, LengthIndex, DistIndex;
    hide SymbolBits, BitsLsb, BitsMsb, Carries, Pow2, FixedLengths, FixedDistances, FixedLength;
    var j, k := LengthIndex(len), DistIndex(dist);
    var e1, e2 := SymbolBits(257 + j), BitsLsb(len - LengthBase(j), LengthExtra(j));
    var e3, e4 := BitsMsb(k, 5), BitsLsb(dist - DistBase(k), DistExtra(k));
    var c1, c2 := c + |e1|, c + |e1| + |e2|;
    CarriesSplit(s, c, e1 + e2, e3 + e4);
    CarriesSplit(s, c, e1, e2);
    CarriesSplit(s, c2, e3, e4);
    SymbolDecodes(s, c, 257 + j);
    CodesStep(FixedLengths(), FixedDistances(), s, c, out);
    ReadLsb(s, c1, len - LengthBase(j), LengthExtra(j));
    DistanceDecodes(s, c2, k);
    ReadLsb(s, c2 + 5, dist - DistBase(k), DistExtra(k));
    MatchStep(FixedLengths(), FixedDistances(), s, c1, out, j);
  }

  /** One token read back. */
  lemma TokenDecodes(s: seq<byte>, c: nat, out: seq<byte>, t: Token)
    requires TokenOk(out, t) && Carries(s, c, TokenBits(t))
    requires |Apply(out, t)| <= UINT_MAX
    ensures Codes(FixedLengths(), FixedDistances(), s, c, out)
         == Codes(FixedLengths(), FixedDistances(), s, c + |TokenBits(t)|, Apply(out, t))
  {
    hide Codes, CopyBack, SymbolBits, Carries, LengthIndex, DistIndex, FixedLengths, FixedDistances, FixedLength,
      LengthBase, LengthExtra, DistBase, DistExtra, BitsLsb, BitsMsb, Pow2;
    match t {
      case Literal(b) => LiteralDecodes(s, c, out, b);
      case Copy(len, dist) => CopyDecodes(s, c, out, len, dist);
    }
  }

  /** A block of tokens read back. */
  lemma {:induction false} TokensDecode(s: seq<byte>, c: nat, out: seq<byte>, tokens: seq<Token>)
    requires Sound(out, tokens) && |Expand(out, tokens)| <= UINT_MAX
    requires Carries(s, c, TokensBits(out, tokens) + SymbolBits(256))
    ensures Codes(FixedLengths(), FixedDistances(), s, c, out)
         == Done(Expand(out, tokens), c + |TokensBits(out, tokens)| + |SymbolBits(256)|)
    decreases |tokens|
  {
    hide Codes, Decode, SymbolBits, TokenBits, Carries, FixedLengths, FixedDistances, FixedLength, Apply;
    if tokens == [] {
      assert TokensBits(out, tokens) + SymbolBits(256) == SymbolBits(256);
      SymbolDecodes(s, c, 256);
      CodesStep(FixedLengths(), FixedDistances(), s, c, out);
    } else {
      var e, rest := TokenBits(tokens[0]), TokensBits(Apply(out, tokens[0]), tokens[1..]);
      assert TokensBits(out, tokens) + SymbolBits(256) == e + (rest + SymbolBits(256));
      CarriesSplit(s, c, e, rest + SymbolBits(256));
      TokenDecodes(s, c, out, tokens[0]);
      TokensDecode(s, c + |e|, Apply(out, tokens[0]), tokens[1..]);
    }
  }
}
