/** The tokens and the stored blocks of the compressor are those of a sender that keeps to the standards. */
module CompressLaw {
  import opened Bits
  import opened Huffman
  import opened InflateSpec
  import opened FixedCodes
  import opened DeflateSpec
  import opened Packing
  import opened BitWriter
  import S = Sender
  import InflateLaw

  // ---- Codewords ---------------------------------------------------------------------------

  lemma SymbolIsWord(n: nat)
    requires n < 288
    ensures S.Used(S.FixedLits(), n) && S.Word(S.FixedLits(), n) == SymbolBits(n)
  {
    hide S.Number, CodeOf, FixedCode, S.FixedLits, FixedLengths, BitsMsb, HighFirst, S.Taken;
    InflateLaw.FixedAgree();
    InflateLaw.FixedPrefixes();
    FixedUsed(n);
    InflateLaw.NumberIsCode(S.FixedLits(), n);
    FixedCodeOf(n);
    HighFirstIs(FixedCode(n), FixedLength(n));
  }

  lemma FixedUsed(n: nat)
    requires n < 288
    ensures FixedLengths()[n] == FixedLength(n) > 0
  {
  }

  lemma DistanceIsWord(n: nat)
    requires n < 32
    ensures S.Used(S.FixedDists(), n) && S.Word(S.FixedDists(), n) == BitsMsb(n, 5)
  {
    hide S.Number, CodeOf, FixedDistances, BitsMsb, HighFirst, S.Taken;
    InflateLaw.FixedAgree();
    InflateLaw.FixedPrefixes();
    InflateLaw.NumberIsCode(S.FixedDists(), n);
    DistanceCodeOf(n);
    HighFirstIs(n, 5);
  }

  // ---- Lengths and distances ---------------------------------------------------------------

  /** The entries of a table grow. */
  predicate Rising(table: seq<nat>) {
    forall k :: 0 <= k < |table| - 1 ==> table[k] < table[k + 1]
  }

  lemma {:induction false} RisesTo(table: seq<nat>, a: nat, b: nat)
    requires Rising(table) && a <= b < |table|
    ensures table[a] <= table[b]
    decreases b
  {
    if a < b {
      RisesTo(table, a, b - 1);
      assert table[b - 1] < table[b - 1 + 1];
    }
  }

  /** The search of the compressor stops at the only entry it can. */
  lemma {:induction false} IndexIs(table: seq<nat>, v: nat, j: nat, i: nat)
    requires Rising(table) && j <= i && i + 1 < |table|
    requires table[j] <= v < table[|table| - 1] && table[i] <= v < table[i + 1]
    ensures CodeIndex(table, v, j) == i
    decreases i - j
  {
    if j < i {
      RisesTo(table, j + 1, i);
      IndexIs(table, v, j + 1, i);
    }
  }

  lemma LengthsRise()
    ensures Rising(LENGTHC)
  {
  }

  lemma DistancesRise()
    ensures Rising(DISTC)
  {
  }

  lemma LengthRange(len: nat)
    requires 3 <= len <= 258
    ensures var p := S.LengthPart(len);
            && 257 <= p.symbol <= 285 && LENGTHC[p.symbol - 257] <= len < LENGTHC[p.symbol - 257 + 1]
  {
    hide S.LengthPart;
    InflateLaw.LengthFits(len);
    var p := S.LengthPart(len);
    LengthGap(p.symbol - 257);
    LongestAlone(len);
  }

  lemma LongestAlone(len: nat)
    requires 3 <= len <= 258
    ensures S.LengthPart(len).symbol == 284 ==> len <= 257
  {
  }

  lemma LengthGap(i: nat)
    requires i < 29
    ensures LENGTHC[i] == LengthBase(i)
    ensures if i == 27 then LENGTHC[i + 1] == 258 else LENGTHC[i + 1] == LENGTHC[i] + POWERS[LengthExtra(i)]
  {
    if i < 10 {
    } else if i < 20 {
    } else {
    }
  }

  lemma NearGap(i: nat)
    requires i < 10
    ensures DISTC[i] == DistBase(i)
    ensures DISTC[i + 1] + (if i == 29 then 1 else 0) == DISTC[i] + POWERS[DistExtra(i)]
  {
  }

  lemma MiddleGap(i: nat)
    requires 10 <= i < 20
    ensures DISTC[i] == DistBase(i)
    ensures DISTC[i + 1] + (if i == 29 then 1 else 0) == DISTC[i] + POWERS[DistExtra(i)]
  {
  }

  lemma FarGap(i: nat)
    requires 20 <= i < 30
    ensures DISTC[i] == DistBase(i)
    ensures DISTC[i + 1] + (if i == 29 then 1 else 0) == DISTC[i] + POWERS[DistExtra(i)]
  {
  }

  lemma DistanceGap(i: nat)
    requires i < 30
    ensures DISTC[i] == DistBase(i)
    ensures DISTC[i + 1] + (if i == 29 then 1 else 0) == DISTC[i] + POWERS[DistExtra(i)]
  {
    hide DISTC, DistBase, DistExtra, POWERS;
    if i < 10 {
      NearGap(i);
    } else if i < 20 {
      MiddleGap(i);
    } else {
      FarGap(i);
    }
  }

  lemma LengthIsPart(len: nat)
    requires 3 <= len <= 258
    ensures var j, p := LengthIndex(len), S.LengthPart(len);
            p.symbol == 257 + j && p.extra == LengthExtra(j) && p.value == len - LengthBase(j)
  {
    hide S.LengthPart, CodeIndex, LengthExtra, LengthBase, Rising;
    InflateLaw.LengthFits(len);
    LengthRange(len);
    LengthsRise();
    IndexIs(LENGTHC, len, 0, S.LengthPart(len).symbol - 257);
  }

  lemma DistanceIsPart(dist: nat)
    requires 1 <= dist <= 32767
    ensures var k, p := DistIndex(dist), S.DistancePart(dist);
            p.symbol == k && p.extra == DistExtra(k) && p.value == dist - DistBase(k)
  {
    hide S.DistancePart, CodeIndex, DistExtra, DistBase, Rising;
    InflateLaw.DistanceFits(dist);
    var p := S.DistancePart(dist);
    DistanceGap(p.symbol);
    DistancesRise();
    IndexIs(DISTC, dist, 0, p.symbol);
  }

  // ---- Tokens ------------------------------------------------------------------------------

  lemma TokenSent(out: seq<byte>, t: Token)
    requires TokenOk(out, t)
    ensures S.Sendable(S.FixedLits(), S.FixedDists(), out, t) && S.Applied(out, t) == Apply(out, t)
    ensures S.OneToken(S.FixedLits(), S.FixedDists(), out, t) == TokenBits(t)
  {
    hide S.Word, S.Used, S.FixedLits, S.FixedDists, SymbolBits, S.LengthPart, S.DistancePart, LengthIndex, DistIndex,
      LengthBase, LengthExtra, DistBase, DistExtra, BitsMsb, BitsLsb, LowFirst, CopyBack, POWERS, Pow2;
    match t {
      case Literal(b) =>
        SymbolIsWord(b);
      case Copy(len, dist) =>
        InflateLaw.CopyIsApplied(out, dist, len);
        LengthIsPart(len);
        DistanceIsPart(dist);
        var p, q := S.LengthPart(len), S.DistancePart(dist);
        SymbolIsWord(p.symbol);
        DistanceIsWord(q.symbol);
        LowFirstIs(p.value, p.extra);
        LowFirstIs(q.value, q.extra);
    }
  }

  /** The compressor's tokens with the fixed codes. */
  lemma {:induction false} TokensSent(out: seq<byte>, tokens: seq<Token>)
    requires Sound(out, tokens)
    ensures S.Used(S.FixedLits(), 256) && S.AllSendable(S.FixedLits(), S.FixedDists(), out, tokens)
    ensures S.Spread(S.FixedLits(), S.FixedDists(), out, tokens) == Expand(out, tokens)
    ensures S.AllTokens(S.FixedLits(), S.FixedDists(), out, tokens) == TokensBits(out, tokens) + SymbolBits(256)
    decreases |tokens|
  {
    hide S.Word, S.Used, S.FixedLits, S.FixedDists, SymbolBits, TokenBits, S.Sendable, S.Applied, Apply, S.OneToken;
    SymbolIsWord(256);
    if tokens != [] {
      var t := tokens[0];
      TokenSent(out, t);
      TokensSent(Apply(out, t), tokens[1..]);
    }
  }

  // ---- Bytes -------------------------------------------------------------------------------

  /** Bytes that carry the bits and then zeros are those bits packed. */
  lemma {:induction false} CarriedIsPacked(s: seq<byte>, i: nat, b: seq<nat>, zeros: seq<nat>)
    requires AreBits(b) && Padding(zeros) && i <= |s| && |b| + |zeros| == 8 * (|s| - i)
    requires Carries(s, 8 * i, b + zeros)
    ensures s[i..] == Pack(b)
    decreases |s| - i
  {
    hide Carries, ByteOf, BitsLsb;
    var all := b + zeros;
    if i < |s| {
      assert all == all[..8] + all[8..];
      CarriesSplit(s, 8 * i, all[..8], all[8..]);
      ByteCarried(s, i, all[..8]);
      assert s[i..] == [s[i]] + s[i + 1..];
      if |b| < 8 {
        ShortPack(b, zeros);
        assert all[..8] == all && s[i + 1..] == [];
      } else {
        assert all[..8] == b[..8] && all[8..] == b[8..] + zeros;
        CarriedIsPacked(s, i + 1, b[8..], zeros);
      }
    }
  }

  lemma ShortPack(b: seq<nat>, zeros: seq<nat>)
    requires AreBits(b) && Padding(zeros) && 0 < |b| < 8 && |b| + |zeros| == 8
    ensures Pack(b) == [ByteOf(b + zeros)]
  {
    hide ByteOf;
    assert zeros == ZeroBits(8 - |b|);
  }

  lemma ByteCarried(s: seq<byte>, i: nat, b: seq<nat>)
    requires i < |s| && |b| == 8 && AreBits(b) && Carries(s, 8 * i, b)
    ensures s[i] == ByteOf(b)
  {
    hide Carries, ByteOf, BitsLsb, Peek, Pow2;
    ByteBits(b);
    PowersAre(8);
    ReadLsb(s, 8 * i, ByteOf(b), 8);
    PeekByte(s, i);
  }

  lemma {:induction false} SameBitsLsb(v: nat, w: nat, n: nat)
    requires v < Pow2(n) && w < Pow2(n) && BitsLsb(v, n) == BitsLsb(w, n)
    ensures v == w
    decreases n
  {
    if n > 0 {
      assert BitsLsb(v, n)[0] == BitsLsb(w, n)[0] && BitsLsb(v, n)[1..] == BitsLsb(w, n)[1..];
      SameBitsLsb(v / 2, w / 2, n - 1);
    }
  }

  lemma ByteBack(v: byte)
    ensures ByteOf(LowFirst(v, 8)) == v
  {
    hide ByteOf, LowFirst, BitsLsb, Pow2;
    PowersAre(8);
    ByteBits(LowFirst(v, 8));
    LowFirstIs(v, 8);
    SameBitsLsb(v, ByteOf(LowFirst(v, 8)), 8);
  }

  lemma PackByte(v: byte, rest: seq<nat>)
    requires AreBits(rest)
    ensures Pack(LowFirst(v, 8) + rest) == [v] + Pack(rest)
  {
    hide ByteOf, LowFirst;
    var b := LowFirst(v, 8) + rest;
    assert b[..8] == LowFirst(v, 8) && b[8..] == rest;
    ByteBack(v);
  }

  lemma Regroup<T>(a: seq<T>, b: seq<T>, c: seq<T>)
    ensures a + b + c == a + (b + c)
  {
  }

  lemma BytesStep(data: seq<byte>)
    requires data != []
    ensures S.BytesBits(data) == LowFirst(data[0], 8) + S.BytesBits(data[1..]) && data == [data[0]] + data[1..]
  {
    hide LowFirst;
  }

  lemma Both(a: seq<nat>, b: seq<nat>)
    requires AreBits(a) && AreBits(b)
    ensures AreBits(a + b)
  {
  }

  lemma {:induction false} PackBytes(data: seq<byte>, rest: seq<nat>)
    requires AreBits(rest)
    ensures Pack(S.BytesBits(data) + rest) == data + Pack(rest)
    decreases |data|
  {
    hide LowFirst, Pack;
    if data == [] {
      assert S.BytesBits(data) + rest == rest;
      assert data + Pack(rest) == Pack(rest);
    } else {
      hide S.BytesBits, AreBits;
      BytesStep(data);
      Regroup(LowFirst(data[0], 8), S.BytesBits(data[1..]), rest);
      Both(S.BytesBits(data[1..]), rest);
      PackByte(data[0], S.BytesBits(data[1..]) + rest);
      PackBytes(data[1..], rest);
      Regroup([data[0]], data[1..], Pack(rest));
    }
  }

  lemma TwoBytes(v: nat)
    requires v < 65536
    ensures LowFirst(v, 16) == LowFirst(v % 256, 8) + LowFirst(v / 256, 8)
  {
    hide LowFirst, BitsLsb, Shl, Pow2;
    LowFirstIs(v, 16);
    LowFirstIs(v % 256, 8);
    LowFirstIs(v / 256, 8);
    PowersAre(8);
    ShlShl(v / 256, 4, 4);
    ShlFour(v / 256);
    ShlFour(16 * (v / 256));
    LsbConcat(v % 256, 8, v / 256, 8);
  }

  lemma PackWord(v: nat, rest: seq<nat>)
    requires v < 65536 && AreBits(rest)
    ensures Pack(LowFirst(v, 16) + rest) == [v % 256, v / 256] + Pack(rest)
  {
    hide LowFirst, Pack, AreBits;
    var a, b := LowFirst(v % 256, 8), LowFirst(v / 256, 8);
    TwoBytes(v);
    Regroup(a, b, rest);
    BitsOf(v / 256, 8);
    Both(b, rest);
    PackByte(v % 256, b + rest);
    PackByte(v / 256, rest);
    assert [v % 256] + ([v / 256] + Pack(rest)) == [v % 256, v / 256] + Pack(rest);
  }

  lemma BitsOf(v: nat, n: nat)
    requires n <= 16
    ensures AreBits(LowFirst(v, n))
  {
  }

  /** At a byte boundary the three bits of a stored block and its filling are one byte. */
  lemma FirstByte(last: bool, c: nat, rest: seq<nat>)
    requires c % 8 == 0
    ensures var l := if last then 1 else 0;
            LowFirst(l, 1) + (LowFirst(0, 2) + (S.Filling(0, c + 3) + rest)) == LowFirst(l, 8) + rest
  {
    var l := if last then 1 else 0;
    var a, b, f := LowFirst(l, 1), LowFirst(0, 2), S.Filling(0, c + 3);
    assert |f| == 5;
    assert a + b + f == LowFirst(l, 8) by {
      forall i | 0 <= i < 8
        ensures (a + b + f)[i] == LowFirst(l, 8)[i]
      {
        SmallBits(l, i);
      }
    }
    assert a + (b + (f + rest)) == a + b + f + rest;
  }

  lemma SmallBits(l: nat, i: nat)
    requires l <= 1 && i < 8
    ensures LowFirst(l, 8)[i] == if i == 0 then l else 0
    ensures i < 1 ==> LowFirst(l, 1)[i] == l
    ensures i < 2 ==> LowFirst(0, 2)[i] == 0
    ensures i < 5 ==> LowFirst(0, 5)[i] == 0
  {
    if i > 0 {
      assert POWERS[i] >= 2;
      QuotientIs(l, 0, POWERS[i], l);
      QuotientIs(0, 0, POWERS[i], 0);
    }
  }

  /** A stored block at a byte boundary, in bytes: flag and type, length, complement, data. */
  lemma PlainPacked(out: seq<byte>, data: seq<byte>, last: bool, c: nat, rest: seq<nat>)
    requires |data| <= 65535 && c % 8 == 0 && AreBits(rest)
    ensures var n := |data|;
            && |S.BlockBits(out, S.Plain(data, 0), last, c)| % 8 == 0
            && Pack(S.BlockBits(out, S.Plain(data, 0), last, c) + rest)
               == [if last then 1 else 0, n % 256, n / 256, (65535 - n) % 256, (65535 - n) / 256] + data + Pack(rest)
  {
    hide LowFirst, Pack, S.Filling, S.BytesBits, AreBits;
    var n, l := |data|, if last then 1 else 0;
    var e2, e3, e4 := LowFirst(n, 16), LowFirst(65535 - n, 16), S.BytesBits(data);
    FirstByte(last, c, e2 + (e3 + e4));
    var all := LowFirst(l, 8) + (e2 + (e3 + e4));
    assert S.BlockBits(out, S.Plain(data, 0), last, c) == all;
    assert all + rest == LowFirst(l, 8) + (e2 + (e3 + (e4 + rest))) by {
      Regroup(LowFirst(l, 8), e2 + (e3 + e4), rest);
      Regroup(e2, e3 + e4, rest);
      Regroup(e3, e4, rest);
    }
    Both(e4, rest);
    BitsOf(65535 - n, 16);
    Both(e3, e4 + rest);
    BitsOf(n, 16);
    Both(e2, e3 + (e4 + rest));
    PackByte(l, e2 + (e3 + (e4 + rest)));
    PackWord(n, e3 + (e4 + rest));
    PackWord(65535 - n, e4 + rest);
    PackBytes(data, rest);
    Assemble(l, [n % 256, n / 256], [(65535 - n) % 256, (65535 - n) / 256], data, Pack(rest));
  }

  lemma Assemble(l: byte, a: seq<byte>, b: seq<byte>, data: seq<byte>, rest: seq<byte>)
    requires |a| == 2 && |b| == 2
    ensures [l] + (a + (b + (data + rest))) == [l, a[0], a[1], b[0], b[1]] + data + rest
  {
  }
}
