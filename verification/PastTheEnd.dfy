/** What the inflater makes of the zeros it reads behind the last byte of its input. */
module PastTheEnd {
  import opened Bits
  import opened Huffman
  import opened InflateSpec
  import opened FixedCodes
  import opened DeflateSpec
  import opened Deflate
  import opened ZlibRoundTrip

  lemma {:induction false} ZerosBehind(s: seq<byte>, c: nat, n: nat)
    requires c >= 8 * |s|
    ensures Peek(s, c, n) == 0 && PeekMsb(s, c, n) == 0
    decreases n
  {
    if n > 0 {
      ZerosBehind(s, c + 1, n - 1);
      ZerosBehind(s, c, n - 1);
    }
  }

  /** Three bytes with a meaning that takes 26 bits: the last two bits of the end code are not there. */
  lemma EndCodeCutShort()
    ensures Inflated([0x78, 0x5e, 0x03], true) == Done([], 26)
  {
    hide Inflated, SymbolBits;
    var s: seq<byte> := [0x78, 0x5e, 0x03];
    assert s[..2] == ZLIB_HEADER;
    EndCodeCarried(s);
    assert Sound([], []) && TokensBits([], []) == [] && Expand([], []) == [];
    assert BLOCK_HEADER + ([] + SymbolBits(256)) == BLOCK_HEADER + SymbolBits(256);
    TokensInflate(s, [], []);
  }

  lemma EndCodeCarried(s: seq<byte>)
    requires |s| == 3 && s[2] == 3
    ensures Carries(s, 16, BLOCK_HEADER + SymbolBits(256)) && |SymbolBits(256)| == 7
  {
    hide BitsMsb, NthBit;
    NoBits(7);
    var e := BLOCK_HEADER + SymbolBits(256);
    forall k | 0 <= k < |e|
      ensures StreamBit(s, 16 + k) == e[k]
    {
      BitsOfThree(k);
      assert k < 8 ==> (16 + k) / 8 == 2 && (16 + k) % 8 == k;
    }
  }

  lemma BitsOfThree(k: nat)
    ensures NthBit(3, k) == if k < 2 then 1 else 0
  {
    if k >= 2 {
      assert Shr(3, k) == Shr(1, k - 1) == Shr(0, k - 2);
      ShrZero(k - 2);
    }
  }

  lemma {:induction false} NoBits(n: nat)
    ensures forall k :: 0 <= k < n ==> BitsMsb(0, n)[k] == 0
  {
    if n > 0 {
      NoBits(n - 1);
    }
  }

  /** The symbol whose codeword consists of zeros. */
  ghost predicate ZeroCode(l: seq<nat>, i: nat) {
    CodeLengths(l) && i < |l| && l[i] > 0 && CodeOf(l, i) == 0
  }

  lemma ZeroDecodes(l: seq<nat>, i: nat, s: seq<byte>, c: nat)
    requires ZeroCode(l, i) && c >= 8 * |s|
    ensures Decode(l, s, c) == Some(i)
  {
    hide CodeOf, Decode, PeekMsb;
    ZerosBehind(s, c, l[i]);
    DecodeUnique(l, i, s, c);
  }

  /** If behind the input the zeros mean a match within the output, then they mean matches for ever: only the
      limit on the output ends the block, and it ends as a failure. */
  lemma {:induction false} MatchesForEver(ll: seq<nat>, dd: seq<nat>, z: nat, d: nat, s: seq<byte>, c: nat, out: seq<byte>)
    requires ZeroCode(ll, z) && 257 <= z < 286 && ZeroCode(dd, d) && d < 30
    requires c >= 8 * |s| && DistBase(d) <= |out| <= UINT_MAX
    ensures Codes(ll, dd, s, c, out) == Fail
    decreases UINT_MAX - |out|
  {
    hide Codes, Match, Decode, CodeOf, CodeLengths, Peek, LengthBase, LengthExtra, DistBase, DistExtra, CopyBack;
    var c1 := c + ll[z];
    ZeroDecodes(ll, z, s, c);
    CodesStep(ll, dd, s, c, out);
    ZerosBehind(s, c1, LengthExtra(z - 257));
    var c2 := c1 + LengthExtra(z - 257);
    ZeroDecodes(dd, d, s, c2);
    MatchStep(ll, dd, s, c1, out, z - 257);
    ZerosBehind(s, c2 + dd[d], DistExtra(d));
    BasesPositive(z - 257, d);
    if |out| + LengthBase(z - 257) <= UINT_MAX {
      MatchesForEver(ll, dd, z, d, s, c2 + dd[d] + DistExtra(d), CopyBack(out, DistBase(d), LengthBase(z - 257)));
    }
  }

  lemma BasesPositive(z: nat, d: nat)
    requires z < 29 && d < 30
    ensures LengthBase(z) > 0 && DistBase(d) > 0
  {
  }

  /** Code lengths for which the zeros mean the shortest match, with the end code one bit longer. */
  lemma SuchCodesExist()
    ensures exists ll: seq<nat> :: Accepted(ll) && |ll| == 258 && ll[256] > 0 && ZeroCode(ll, 257)
  {
    var ll: seq<nat> := seq(256, _ => 0) + [2, 1];
    assert ll[..257] == seq(256, _ => 0) + [2];
    assert ll[..258] == ll;
    forall s | 1 <= s <= 15
      ensures Count(ll, s) == (if s <= 2 then 1 else 0) && Count(ll[..257], s) == if s == 2 then 1 else 0
    {
      NoneOf(256, s);
      assert ll[..256] == seq(256, _ => 0);
      CountNext(ll, 256, s);
      CountNext(ll, 257, s);
    }
    forall s | 1 <= s <= 15
      ensures EndCode(ll, s) <= Pow2(s)
    {
      TwoCodes(ll, s);
    }
  }

  lemma {:induction false} NoneOf(n: nat, s: nat)
    requires s > 0
    ensures Count(seq(n, _ => 0), s) == 0
  {
    if n > 0 {
      assert seq(n, _ => 0)[..n - 1] == seq(n - 1, _ => 0);
      NoneOf(n - 1, s);
    }
  }

  lemma {:induction false} TwoCodes(l: seq<nat>, s: nat)
    requires 1 <= s <= 15 && forall t :: 1 <= t <= 15 ==> Count(l, t) == if t <= 2 then 1 else 0
    ensures EndCode(l, s) <= Pow2(s)
    decreases s
  {
    if s > 1 {
      TwoCodes(l, s - 1);
    }
  }
}
