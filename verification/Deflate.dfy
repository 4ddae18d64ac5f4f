/** `stbi_zlib_compress`: hashed match search with lazy matching, the fixed-Huffman block, the
    stored fallback and the checksum. */
module Deflate {
  import opened Bits
  import opened InflateSpec
  import opened DeflateSpec
  import opened BitWriter

  const ZHASH := 16384

  /** `stbiw__zhash` of three bytes, with the 32-bit wrap-around of unsigned arithmetic. */
  function ZHash(b0: byte, b1: byte, b2: byte): bv32 {
    var h0 := (b0 as bv32) + ((b1 as bv32) << 8) + ((b2 as bv32) << 16);
    var h1 := h0 ^ (h0 << 3);
    var h2 := h1 + (h1 >> 5);
    var h3 := h2 ^ (h2 << 4);
    var h4 := h3 + (h3 >> 17);
    var h5 := h4 ^ (h4 << 25);
    h5 + (h5 >> 6)
  }

  function Bucket(data: seq<byte>, i: nat): (h: nat)
    requires i + 2 < |data|
    ensures h < ZHASH
  {
    (ZHash(data[i], data[i + 1], data[i + 2]) & 0x3FFF) as bv14 as int
  }

  /** How many bytes from `a` and from `b` on agree, up to 258 of them. */
  function Agreement(data: seq<byte>, a: nat, b: nat, k: nat): (r: nat)
    requires a <= b && b + k <= |data| && k <= 258
    ensures k <= r <= 258 && b + r <= |data|
    decreases 258 - k
  {
    if k < 258 && b + k < |data| && data[a + k] == data[b + k] then Agreement(data, a, b, k + 1) else k
  }

  ghost predicate SameRun(data: seq<byte>, a: nat, b: nat, k: nat) {
    a < b && b + k <= |data| && data[a..a + k] == data[b..b + k]
  }

  /** `stbiw__zlib_countm`. */
  method CountMatch(data: seq<byte>, a: nat, b: nat) returns (i: nat)
    requires a < b <= |data|
    ensures i == Agreement(data, a, b, 0) && SameRun(data, a, b, i)
  {
    hide Agreement;
    i := 0;
    AgreementStep(data, a, b, 0);
    while i < |data| - b && i < 258
      invariant i <= 258 && SameRun(data, a, b, i)
      invariant Agreement(data, a, b, 0) == Agreement(data, a, b, i)
    {
      AgreementStep(data, a, b, i);
      if data[a + i] != data[b + i] {
        return;
      }
      assert data[a..a + i + 1] == data[a..a + i] + [data[a + i]];
      assert data[b..b + i + 1] == data[b..b + i] + [data[b + i]];
      i := i + 1;
    }
    AgreementStep(data, a, b, i);
  }

  lemma AgreementStep(data: seq<byte>, a: nat, b: nat, k: nat)
    requires a <= b && b + k <= |data| && k <= 258
    ensures Agreement(data, a, b, k)
         == if k < 258 && b + k < |data| && data[a + k] == data[b + k] then Agreement(data, a, b, k + 1) else k
  {
  }

  /** A match the format can express: real, long enough and near enough. */
  ghost predicate MatchAt(data: seq<byte>, i: nat, loc: nat, len: nat) {
    SameRun(data, loc, i, len) && 3 <= len <= 258 && i - loc <= 32767
  }

  /** The entry is usable from position `i` with the given window. */
  predicate InWindow(entry: nat, i: nat, window: nat) {
    entry < i && entry > i - window
  }

  /** The search over one bucket: the longest match of at least three bytes within the window,
      the latest entry among equals; `None` when there is none. */
  method FindMatch(data: seq<byte>, i: nat, hlist: seq<nat>) returns (best: nat, bestloc: int)
    requires i <= |data| && forall j :: 0 <= j < |hlist| ==> hlist[j] < i
    ensures bestloc == -1 ==> best == 3
    ensures bestloc != -1 ==> bestloc in hlist && MatchAt(data, i, bestloc, best)
    ensures forall j :: 0 <= j < |hlist| && InWindow(hlist[j], i, 32768) ==>
              Agreement(data, hlist[j], i, 0) <= best && (bestloc == -1 ==> Agreement(data, hlist[j], i, 0) < best)
  {
    best, bestloc := 3, -1;
    for j := 0 to |hlist|
      invariant best >= 3 && (bestloc == -1 ==> best == 3)
      invariant bestloc != -1 ==> bestloc in hlist && MatchAt(data, i, bestloc, best)
      invariant forall k :: 0 <= k < j && InWindow(hlist[k], i, 32768) ==>
                  Agreement(data, hlist[k], i, 0) <= best && (bestloc == -1 ==> Agreement(data, hlist[k], i, 0) < best)
    {
      if hlist[j] > i - 32768 {
        var d := CountMatch(data, hlist[j], i);
        if d >= best {
          best, bestloc := d, hlist[j];
        }
      }
    }
  }

  /** The lazy look at the next position: some entry there matches for longer than `best`. */
  method BetterNext(data: seq<byte>, i: nat, hlist: seq<nat>, best: nat) returns (better: bool)
    requires i < |data| && forall j :: 0 <= j < |hlist| ==> hlist[j] <= i
    ensures better <==> exists j :: 0 <= j < |hlist| && InWindow(hlist[j], i + 1, 32768)
                                    && Agreement(data, hlist[j], i + 1, 0) > best
  {
    better := false;
    for j := 0 to |hlist|
      invariant forall k :: 0 <= k < j && InWindow(hlist[k], i + 1, 32768) ==> Agreement(data, hlist[k], i + 1, 0) <= best
    {
      if hlist[j] > i - 32767 {
        var e := CountMatch(data, hlist[j], i + 1);
        if e > best {
          return true;
        }
      }
    }
  }

  /** Copying what already matches in the input continues the output along the input. */
  lemma {:induction false} CopyFollowsInput(data: seq<byte>, i: nat, loc: nat, len: nat)
    requires SameRun(data, loc, i, len)
    ensures CopyBack(data[..i], i - loc, len) == data[..i + len]
    decreases len
  {
    if len > 0 {
      assert data[..i][|data[..i]| - (i - loc)] == data[loc];
      assert data[loc..loc + len][0] == data[i..i + len][0];
      assert data[..i] + [data[loc]] == data[..i + 1];
      assert data[loc + 1..loc + len] == data[loc..loc + len][1..] && data[i + 1..i + len] == data[i..i + len][1..];
      CopyFollowsInput(data, i + 1, loc + 1, len - 1);
    }
  }

  // ---- The compressed stream ---------------------------------------------------------------

  /** The block header bits: final, type 1. */
  const BLOCK_HEADER: seq<nat> := [1, 1, 0]

  const ZLIB_HEADER: seq<byte> := [0x78, 0x5e]

  /** The buckets hold positions below `i`, at most `2 * quality` of them. */
  ghost predicate BucketsOk(table: seq<seq<nat>>, i: nat, quality: nat) {
    && |table| == ZHASH
    && forall h :: 0 <= h < ZHASH ==> |table[h]| <= 2 * quality && forall j :: 0 <= j < |table[h]| ==> table[h][j] < i
  }

  /** The bits are the block header and the tokens, which expand to the first `i` input bytes. */
  ghost predicate Encodes(bits: seq<nat>, data: seq<byte>, i: nat, tokens: seq<Token>) {
    && i <= |data| && Sound([], tokens) && Expand([], tokens) == data[..i]
    && bits == BLOCK_HEADER + TokensBits([], tokens)
  }

  ghost predicate Encoded(w: ZWriter, data: seq<byte>, i: nat, tokens: seq<Token>)
    reads w, w.data
  {
    w.Valid() && w.prefix == ZLIB_HEADER && Encodes(w.bits, data, i, tokens)
  }

  lemma EncodesMore(bits: seq<nat>, data: seq<byte>, i: nat, tokens: seq<Token>, t: Token, j: nat)
    requires Encodes(bits, data, i, tokens) && TokenOk(data[..i], t)
    requires j <= |data| && Apply(data[..i], t) == data[..j]
    ensures Encodes(bits + TokenBits(t), data, j, tokens + [t])
  {
    hide TokensBits, TokenBits, Expand, Apply, Sound;
    ExpandAppend([], tokens, t);
    BitsAppend([], tokens, t);
  }

  /** The emission of one match: length code, extra bits, distance code, extra bits. */
  method EmitCopy(w: ZWriter, best: nat, d: nat)
    requires w.Valid() && 3 <= best <= 258 && 1 <= d <= 32767
    modifies w, w.data
    ensures w.Valid() && w.prefix == old(w.prefix) && (w.data == old(w.data) || fresh(w.data))
    ensures w.bits == old(w.bits) + TokenBits(Copy(best, d))
  {
    hide ZWriter.Valid, LengthBits, DistBits;
    EmitLength(w, best);
    EmitDistance(w, d);
  }

  method EmitLength(w: ZWriter, best: nat)
    requires w.Valid() && 3 <= best <= 258
    modifies w, w.data
    ensures w.Valid() && w.prefix == old(w.prefix) && (w.data == old(w.data) || fresh(w.data))
    ensures w.bits == old(w.bits) + LengthBits(best)
  {
    hide ZWriter.Valid, BitsLsb, SymbolBits, Pow2, LengthBase, LengthExtra, CodeIndex;
    var j := FindCode(LENGTHC, best);
    LengthSpan(j);
    w.Huff(j + 257);
    EmitExtra(w, best - LENGTHC[j], LengthExtra(j));
  }

  method EmitDistance(w: ZWriter, d: nat)
    requires w.Valid() && 1 <= d <= 32767
    modifies w, w.data
    ensures w.Valid() && w.prefix == old(w.prefix) && (w.data == old(w.data) || fresh(w.data))
    ensures w.bits == old(w.bits) + DistBits(d)
  {
    hide ZWriter.Valid, BitsLsb, BitsMsb, Pow2, DistBase, DistExtra, CodeIndex;
    var j := FindCode(DISTC, d);
    DistSpan(j);
    LsbOfRev(j, 5);
    var r := ZWriter.BitRev(j, 5);
    w.Add(r, 5);
    EmitExtra(w, d - DISTC[j], DistExtra(j));
  }

  /** The search for the code of a length or distance: the last entry that is not greater. */
  method FindCode(table: seq<nat>, v: nat) returns (j: nat)
    requires |table| >= 2 && table[0] <= v < table[|table| - 1]
    ensures j + 1 < |table| && table[j] <= v < table[j + 1]
    ensures j == CodeIndex(table, v, 0)
  {
    j := 0;
    while v + 1 > table[j + 1]
      invariant j + 1 < |table| && table[j] <= v
      invariant CodeIndex(table, v, 0) == CodeIndex(table, v, j)
      decreases |table| - j
    {
      j := j + 1;
    }
  }

  method EmitExtra(w: ZWriter, v: nat, n: nat)
    requires w.Valid() && n <= 13 && v < Pow2(n)
    modifies w, w.data
    ensures w.Valid() && w.prefix == old(w.prefix) && (w.data == old(w.data) || fresh(w.data))
    ensures w.bits == old(w.bits) + BitsLsb(v, n)
  {
    if n != 0 {
      w.Add(v, n);
    } else {
      assert BitsLsb(v, 0) == [];
    }
  }

  /** Emits byte `i` as a literal. */
  method EmitLiteral(w: ZWriter, data: seq<byte>, i: nat, ghost tokens: seq<Token>) returns (ghost more: seq<Token>)
    requires Encoded(w, data, i, tokens) && i < |data|
    modifies w, w.data
    ensures Encoded(w, data, i + 1, more) && (w.data == old(w.data) || fresh(w.data))
  {
    hide ZWriter.Valid, Encodes, TokenBits;
    more := tokens + [Literal(data[i])];
    assert data[..i] + [data[i]] == data[..i + 1];
    EncodesMore(w.bits, data, i, tokens, Literal(data[i]), i + 1);
    w.HuffB(data[i]);
  }

  method EmitMatch(w: ZWriter, data: seq<byte>, i: nat, loc: nat, best: nat, ghost tokens: seq<Token>) returns (ghost more: seq<Token>)
    requires Encoded(w, data, i, tokens) && MatchAt(data, i, loc, best)
    modifies w, w.data
    ensures Encoded(w, data, i + best, more) && (w.data == old(w.data) || fresh(w.data))
  {
    hide ZWriter.Valid, Encodes, TokenBits;
    more := tokens + [Copy(best, i - loc)];
    CopyFollowsInput(data, i, loc, best);
    EncodesMore(w.bits, data, i, tokens, Copy(best, i - loc), i + best);
    EmitCopy(w, best, i - loc);
  }

  /** Drops the older half of a full bucket and appends position `i`. */
  method Remember(table: array<seq<nat>>, h: nat, i: nat, quality: nat)
    requires h < ZHASH && quality >= 5 && BucketsOk(table[..], i, quality)
    modifies table
    ensures BucketsOk(table[..], i + 1, quality)
    ensures table[h] == (if |old(table[h])| == 2 * quality then old(table[h])[quality..] else old(table[h])) + [i]
    ensures forall k :: 0 <= k < ZHASH && k != h ==> table[k] == old(table[k])
  {
    assert forall k :: 0 <= k < ZHASH ==> table[..][k] == table[k];
    if |table[h]| == 2 * quality {
      table[h] := table[h][quality..];
    }
    table[h] := table[h] + [i];
  }

  /** One turn of the compressor's main loop. */
  method CompressStep(w: ZWriter, table: array<seq<nat>>, data: seq<byte>, i: nat, quality: nat, ghost tokens: seq<Token>)
    returns (next: nat, ghost more: seq<Token>)
    requires Encoded(w, data, i, tokens) && i + 3 < |data| && quality >= 5
    requires BucketsOk(table[..], i, quality)
    modifies w, w.data, table
    ensures i < next && Encoded(w, data, next, more) && (w.data == old(w.data) || fresh(w.data))
    ensures BucketsOk(table[..], next, quality)
  {
    hide ZWriter.Valid, Encodes, Bucket, MatchAt;
    var h := Bucket(data, i);
    assert table[..][h] == table[h];
    var best, bestloc := FindMatch(data, i, table[h]);
    Remember(table, h, i, quality);
    if bestloc != -1 {
      h := Bucket(data, i + 1);
      assert table[..][h] == table[h];
      var better := BetterNext(data, i, table[h], best);
      if better {
        bestloc := -1;
      }
    }
    ghost var buckets := table[..];
    if bestloc != -1 {
      MatchEnd(data, i, bestloc, best);
      more := EmitMatch(w, data, i, bestloc, best, tokens);
      next := i + best;
    } else {
      more := EmitLiteral(w, data, i, tokens);
      next := i + 1;
    }
    assert table[..] == buckets;
  }

  lemma MatchEnd(data: seq<byte>, i: nat, loc: nat, len: nat)
    requires MatchAt(data, i, loc, len)
    ensures len >= 3
  {
  }

  /** The block: all the input as tokens with the fixed codes. */
  method CompressBlock(w: ZWriter, data: seq<byte>, quality: nat) returns (ghost tokens: seq<Token>, ghost zeros: seq<nat>)
    requires w.Valid() && w.prefix == ZLIB_HEADER && w.bits == [] && quality >= 5
    modifies w, w.data
    ensures w.Valid() && w.bitcount == 0 && w.prefix == ZLIB_HEADER && (w.data == old(w.data) || fresh(w.data))
    ensures Sound([], tokens) && Expand([], tokens) == data
    ensures w.bits == BLOCK_HEADER + TokensBits([], tokens) + SymbolBits(256) + zeros && Padding(zeros)
  {
    hide ZWriter.Valid, Encodes, SymbolBits;
    w.Add(1, 1);
    w.Add(1, 2);
    tokens := [];
    EncodesNothing(w.bits, data);
    var table := new seq<nat>[ZHASH](_ => []);
    var i := 0;
    while i + 3 < |data|
      invariant Encoded(w, data, i, tokens) && fresh(table)
      invariant w.data == old(w.data) || fresh(w.data)
      invariant BucketsOk(table[..], i, quality)
      decreases |data| - i
    {
      i, tokens := CompressStep(w, table, data, i, quality, tokens);
      EncodesBound(w.bits, data, i, tokens);
    }
    while i < |data|
      invariant Encoded(w, data, i, tokens)
      invariant w.data == old(w.data) || fresh(w.data)
      decreases |data| - i
    {
      tokens := EmitLiteral(w, data, i, tokens);
      i := i + 1;
    }
    EncodesAll(w.bits, data, i, tokens);
    w.Huff(256);
    zeros := w.Pad();
  }

  lemma EncodesNothing(bits: seq<nat>, data: seq<byte>)
    requires bits == [] + BitsLsb(1, 1) + BitsLsb(1, 2)
    ensures Encodes(bits, data, 0, [])
  {
    assert BitsLsb(1, 1) == [1] && BitsLsb(1, 2) == [1, 0];
  }

  lemma EncodesBound(bits: seq<nat>, data: seq<byte>, i: nat, tokens: seq<Token>)
    requires Encodes(bits, data, i, tokens)
    ensures i <= |data|
  {
  }

  lemma EncodesAll(bits: seq<nat>, data: seq<byte>, i: nat, tokens: seq<Token>)
    requires Encodes(bits, data, i, tokens) && i >= |data|
    ensures Sound([], tokens) && Expand([], tokens) == data && bits == BLOCK_HEADER + TokensBits([], tokens)
  {
  }
}
