/** Machine integers, bit arithmetic on natural numbers, and the bit stream of RFC 1951
    (section 3.1.1): bytes in order, each from its least significant bit up.  Past the last
    byte the stream reads as zeros, which is what the decoder's byte fetch returns there. */
module Bits {
  type byte = x: int | 0 <= x < 0x100
  type uint16 = x: int | 0 <= x < 0x1_0000
  type uint32 = x: int | 0 <= x < 0x1_0000_0000

  const UINT_MAX := 0xFFFF_FFFF
  const INT_MAX := 0x7FFF_FFFF

  datatype Option<+T> = None | Some(value: T)

  /** A C string without its terminator. */
  type cstring = s: seq<byte> | 0 !in s witness []

  /** What a C program sees of the bytes: they end at the first NUL. */
  function Truncate(s: seq<byte>): (r: cstring)
    ensures 0 !in s ==> r == s
  {
    if s == [] || s[0] == 0 then [] else [s[0]] + Truncate(s[1..])
  }

  /** The bytes `t` stand at position `b`. */
  ghost predicate At(s: seq<byte>, b: nat, t: seq<byte>) {
    b + |t| <= |s| && s[b..b + |t|] == t
  }

  lemma AtSplit(s: seq<byte>, b: nat, t: seq<byte>, u: seq<byte>)
    requires At(s, b, t + u)
    ensures At(s, b, t) && At(s, b + |t|, u)
  {
    var all := s[b..b + |t + u|];
    assert s[b..b + |t|] == all[..|t|];
    assert s[b + |t|..b + |t| + |u|] == all[|t|..];
  }

  /** One, shifted left `n` times. */
  function Pow2(n: nat): (p: nat)
    ensures p > 0
  {
    if n == 0 then 1 else 2 * Pow2(n - 1)
  }

  /** The value shifted left by `k` bits. */
  function Shl(v: nat, k: nat): nat {
    if k == 0 then v else 2 * Shl(v, k - 1)
  }

  /** The value shifted right by `k` bits. */
  function Shr(v: nat, k: nat): nat
    decreases k
  {
    if k == 0 then v else Shr(v / 2, k - 1)
  }

  /** The low `k` bits of `v`. */
  function Low(v: nat, k: nat): (r: nat)
    ensures r < Pow2(k)
    decreases k
  {
    if k == 0 then 0 else v % 2 + 2 * Low(v / 2, k - 1)
  }

  function NthBit(v: nat, i: nat): (b: nat)
    ensures b <= 1
  {
    Shr(v, i) % 2
  }

  function And(a: nat, b: nat): nat {
    if a == 0 then 0 else (if a % 2 == 1 && b % 2 == 1 then 1 else 0) + 2 * And(a / 2, b / 2)
  }

  function Or(a: nat, b: nat): nat
    decreases a + b
  {
    if a == 0 then b
    else if b == 0 then a
    else (if a % 2 == 0 && b % 2 == 0 then 0 else 1) + 2 * Or(a / 2, b / 2)
  }

  // ---- Shifts ------------------------------------------------------------------------------

  lemma Pow2Values()
    ensures Pow2(1) == 2 && Pow2(2) == 4 && Pow2(3) == 8 && Pow2(4) == 16 && Pow2(5) == 32
    ensures Pow2(6) == 64 && Pow2(7) == 128 && Pow2(8) == 256 && Pow2(9) == 512
    ensures Pow2(13) == 0x2000 && Pow2(15) == 0x8000 && Pow2(16) == 0x1_0000
    ensures Pow2(24) == 0x100_0000 && Pow2(32) == 0x1_0000_0000
  {
  }

  lemma {:induction false} Pow2Monotone(m: nat, n: nat)
    requires m <= n
    ensures Pow2(m) <= Pow2(n)
    decreases n
  {
    if m < n {
      Pow2Monotone(m, n - 1);
    }
  }

  lemma {:induction false} ShlPow2(m: nat, k: nat)
    ensures Shl(Pow2(m), k) == Pow2(m + k)
  {
    if k > 0 {
      ShlPow2(m, k - 1);
    }
  }

  lemma {:induction false} ShlShl(v: nat, a: nat, b: nat)
    ensures Shl(v, a + b) == Shl(Shl(v, a), b)
  {
    if b > 0 {
      ShlShl(v, a, b - 1);
    }
  }

  lemma {:induction false} ShlDouble(v: nat, k: nat)
    ensures Shl(2 * v, k) == 2 * Shl(v, k)
  {
    if k > 0 {
      ShlDouble(v, k - 1);
    }
  }

  lemma {:induction false} ShlPlus(a: nat, b: nat, k: nat)
    ensures Shl(a + b, k) == Shl(a, k) + Shl(b, k)
  {
    if k > 0 {
      ShlPlus(a, b, k - 1);
    }
  }

  lemma {:induction false} ShlLess(a: nat, b: nat, k: nat)
    requires a < b
    ensures Shl(a, k) + Pow2(k) <= Shl(b, k)
  {
    if k > 0 {
      ShlLess(a, b, k - 1);
    }
  }

  lemma {:induction false} ShlAtMost(a: nat, b: nat, k: nat)
    requires a <= b
    ensures Shl(a, k) <= Shl(b, k)
  {
    if k > 0 {
      ShlAtMost(a, b, k - 1);
    }
  }

  lemma {:induction false} ShrShr(v: nat, a: nat, b: nat)
    ensures Shr(v, a + b) == Shr(Shr(v, a), b)
    decreases a
  {
    if a > 0 {
      ShrShr(v / 2, a - 1, b);
    }
  }

  /** Splitting `high << k | low` apart again. */
  lemma {:induction false} SplitAt(h: nat, l: nat, k: nat)
    requires l < Pow2(k)
    ensures Shr(Shl(h, k) + l, k) == h
    ensures Low(Shl(h, k) + l, k) == l
    decreases k
  {
    if k > 0 {
      SplitAt(h, l / 2, k - 1);
      assert (Shl(h, k) + l) / 2 == Shl(h, k - 1) + l / 2;
    }
  }

  lemma {:induction false} Recompose(v: nat, k: nat)
    ensures v == Shl(Shr(v, k), k) + Low(v, k)
    decreases k
  {
    if k > 0 {
      Recompose(v / 2, k - 1);
    }
  }

  lemma {:induction false} ShrSmall(v: nat, k: nat)
    requires v < Pow2(k)
    ensures Shr(v, k) == 0
    decreases k
  {
    if k > 0 {
      ShrSmall(v / 2, k - 1);
    }
  }

  lemma {:induction false} AndMask(v: nat, n: nat)
    ensures And(v, Pow2(n) - 1) == Low(v, n)
    decreases n
  {
    hide And;
    if n == 0 {
      AndZero(v);
    } else {
      AndMask(v / 2, n - 1);
      AndOdd(v, Pow2(n - 1) - 1);
    }
  }

  lemma AndOdd(v: nat, m: nat)
    ensures And(v, 2 * m + 1) == v % 2 + 2 * And(v / 2, m)
  {
    assert (2 * m + 1) / 2 == m;
    if v == 0 {
      AndZero(0);
    }
  }

  lemma AndEven(a: nat, m: nat)
    ensures And(a, 2 * m) == 2 * And(a / 2, m)
  {
    if a == 0 {
      AndZero(0);
    }
  }

  lemma {:induction false} AndZero(v: nat)
    ensures And(v, 0) == 0
  {
    if v > 0 {
      AndZero(v / 2);
    }
  }

  /** Or-ing in a value above all the set bits is adding it. */
  lemma {:induction false} OrShifted(a: nat, b: nat, n: nat)
    requires a < Pow2(n)
    ensures Or(a, Shl(b, n)) == a + Shl(b, n)
    decreases n
  {
    if n > 0 && a > 0 && Shl(b, n) > 0 {
      OrShifted(a / 2, b, n - 1);
    }
  }

  // ---- Single bits -------------------------------------------------------------------------

  lemma {:induction false} OrCommutes(a: nat, b: nat)
    ensures Or(a, b) == Or(b, a)
    decreases a + b
  {
    if a > 0 && b > 0 {
      OrCommutes(a / 2, b / 2);
    }
  }

  lemma {:induction false} AndBit(a: nat, b: nat, i: nat)
    ensures NthBit(And(a, b), i) == if NthBit(a, i) == 1 && NthBit(b, i) == 1 then 1 else 0
    decreases i
  {
    if a == 0 {
      ShrZero(i);
    } else if i > 0 {
      AndBit(a / 2, b / 2, i - 1);
    }
  }

  lemma {:induction false} OrBit(a: nat, b: nat, i: nat)
    ensures NthBit(Or(a, b), i) == if NthBit(a, i) == 0 && NthBit(b, i) == 0 then 0 else 1
    decreases i
  {
    ShrZero(i);
    if a > 0 && b > 0 && i > 0 {
      OrBit(a / 2, b / 2, i - 1);
    }
  }

  lemma {:induction false} ShrZero(i: nat)
    ensures Shr(0, i) == 0
  {
    if i > 0 {
      ShrZero(i - 1);
    }
  }

  lemma {:induction false} ShlBit(v: nat, k: nat, i: nat)
    ensures NthBit(Shl(v, k), i) == if i < k then 0 else NthBit(v, i - k)
    decreases k
  {
    if k > 0 && i > 0 {
      ShlBit(v, k - 1, i - 1);
    }
  }

  lemma {:induction false} SameBits(a: nat, b: nat, n: nat)
    requires a < Pow2(n) && b < Pow2(n)
    requires forall i :: 0 <= i < n ==> NthBit(a, i) == NthBit(b, i)
    ensures a == b
    decreases n
  {
    if n > 0 {
      assert NthBit(a, 0) == NthBit(b, 0);
      forall i | 0 <= i < n - 1 ensures NthBit(a / 2, i) == NthBit(b / 2, i) {
        assert NthBit(a, i + 1) == NthBit(b, i + 1);
      }
      SameBits(a / 2, b / 2, n - 1);
    }
  }

  // ---- Bit reversal ------------------------------------------------------------------------

  /** The low `n` bits of `v` in the opposite order. */
  function Rev(v: nat, n: nat): (r: nat)
    ensures r < Pow2(n)
  {
    if n == 0 then 0 else (if v % 2 == 1 then Pow2(n - 1) else 0) + Rev(v / 2, n - 1)
  }

  lemma {:induction false} RevSplit(v: nat, a: nat, m: nat)
    ensures Rev(v, a + m) == Shl(Rev(v, a), m) + Rev(Shr(v, a), m)
    decreases a
  {
    if a == 0 {
      ShlZero(m);
    } else {
      RevSplit(v / 2, a - 1, m);
      ShlPow2(a - 1, m);
      ShlZero(m);
      ShlPlus(if v % 2 == 1 then Pow2(a - 1) else 0, Rev(v / 2, a - 1), m);
    }
  }

  lemma {:induction false} ShlZero(m: nat)
    ensures Shl(0, m) == 0
  {
    if m > 0 {
      ShlZero(m - 1);
    }
  }

  /** Reversing twice gives the low bits back. */
  lemma {:induction false} RevRev(v: nat, n: nat)
    ensures Rev(Rev(v, n), n) == Low(v, n)
  {
    if n > 0 {
      // the low bit of v is the high bit of the reversal
      RevTop(v, n);
      RevAppend(v % 2, Rev(v / 2, n - 1), n - 1);
      RevRev(v / 2, n - 1);
    }
  }

  /** A bit put on top of `k` bits comes out at the bottom. */
  lemma RevAppend(b: nat, r: nat, k: nat)
    requires b <= 1 && r < Pow2(k)
    ensures Rev(Shl(b, k) + r, k + 1) == 2 * Rev(r, k) + b
  {
    hide Rev;
    SplitAt(b, r, k);
    RevSplit(Shl(b, k) + r, k, 1);
    RevLow(b, r, k);
    RevOne(b);
  }

  lemma RevTop(v: nat, n: nat)
    requires n > 0
    ensures Rev(v, n) == Shl(v % 2, n - 1) + Rev(v / 2, n - 1)
  {
    ShlPow2(0, n - 1);
    ShlZero(n - 1);
  }

  lemma RevOne(b: nat)
    ensures Rev(b, 1) == b % 2
  {
  }

  /** Bits at or above position `n` do not reach the reversal of the low `n` bits. */
  lemma {:induction false} RevLow(h: nat, v: nat, n: nat)
    ensures Rev(Shl(h, n) + v, n) == Rev(v, n)
    decreases n
  {
    if n > 0 {
      assert (Shl(h, n) + v) / 2 == Shl(h, n - 1) + v / 2;
      RevLow(h, v / 2, n - 1);
    }
  }

  lemma {:induction false} RevBit(v: nat, n: nat, i: nat)
    requires i < n
    ensures NthBit(Rev(v, n), i) == NthBit(v, n - 1 - i)
    decreases n
  {
    // bit i is the last bit of the reversal of the top n - i bits of the window
    RevSplit(v, n - i, i);
    SplitAt(Rev(v, n - i), Rev(Shr(v, n - i), i), i);
    RevSplit(v, n - i - 1, 1);
    assert Rev(Shr(v, n - i - 1), 1) == Shr(v, n - i - 1) % 2;
  }

  /** One round of the reversal by swapping neighbouring groups of `k` bits. */
  function SwapGroups(v: nat, hi: nat, lo: nat, k: nat): nat {
    Or(Shr(And(v, hi), k), Shl(And(v, lo), k))
  }

  /** `stbi__bitreverse16`. */
  function BitReverse16(v: nat): nat {
    var n1 := SwapGroups(v, 0xAAAA, 0x5555, 1);
    var n2 := SwapGroups(n1, 0xCCCC, 0x3333, 2);
    var n3 := SwapGroups(n2, 0xF0F0, 0x0F0F, 4);
    SwapGroups(n3, 0xFF00, 0x00FF, 8)
  }

  /** `stbi__bit_reverse`. */
  function BitReverse(v: nat, bits: nat): nat
    requires bits <= 16
  {
    Shr(BitReverse16(v), 16 - bits)
  }

  function ValueOfBits(b: seq<nat>): nat {
    if b == [] then 0 else b[0] + 2 * ValueOfBits(b[1..])
  }

  lemma {:induction false} BitsOfValue(b: seq<nat>, i: nat)
    requires forall k :: 0 <= k < |b| ==> b[k] <= 1
    ensures NthBit(ValueOfBits(b), i) == if i < |b| then b[i] else 0
    decreases i
  {
    hide NthBit;
    if |b| == 0 {
      ZeroBit(i);
    } else {
      assert ValueOfBits(b) == b[0] + 2 * ValueOfBits(b[1..]);
      BitAbove(b[0], ValueOfBits(b[1..]), i);
      if i > 0 {
        BitsOfValue(b[1..], i - 1);
      }
    }
  }

  lemma ZeroBit(i: nat)
    ensures NthBit(0, i) == 0
  {
    ShrZero(i);
  }

  lemma BitAbove(b: nat, v: nat, i: nat)
    requires b <= 1
    ensures NthBit(b + 2 * v, i) == if i == 0 then b else NthBit(v, i - 1)
  {
    assert (b + 2 * v) / 2 == v;
  }

  /** Whether position `i` lies in an odd-numbered group of `k` bits. */
  predicate OddGroup(i: nat, k: nat) {
    if k == 1 then i % 2 == 1 else if k == 2 then (i / 2) % 2 == 1 else if k == 4 then (i / 4) % 2 == 1 else (i / 8) % 2 == 1
  }

  /** The mask whose bit `i` is set exactly when `i` lies in an odd (or even) group. */
  function GroupMask(k: nat, odd: bool, n: nat): seq<nat> {
    seq(n, i requires 0 <= i < n => if OddGroup(i, k) == odd then 1 else 0)
  }

  lemma {:induction false} ValueOfConcat(a: seq<nat>, b: seq<nat>)
    ensures ValueOfBits(a + b) == ValueOfBits(a) + Shl(ValueOfBits(b), |a|)
  {
    if |a| == 0 {
      assert a + b == b;
    } else {
      assert (a + b)[1..] == a[1..] + b;
      ValueOfConcat(a[1..], b);
      ShlDouble(ValueOfBits(b), |a| - 1);
    }
  }

  lemma Nibble(b: seq<nat>)
    requires |b| == 4
    ensures ValueOfBits(b) == b[0] + 2 * b[1] + 4 * b[2] + 8 * b[3]
  {
    assert b[1..][1..] == b[2..] && b[2..][1..] == b[3..] && b[3..][1..] == [];
    assert ValueOfBits(b[3..]) == b[3];
    assert ValueOfBits(b[2..]) == b[2] + 2 * b[3];
  }

  lemma MaskValue(b: seq<nat>)
    requires |b| == 16
    ensures ValueOfBits(b) == b[0] + 2 * b[1] + 4 * b[2] + 8 * b[3]
                              + 16 * (b[4] + 2 * b[5] + 4 * b[6] + 8 * b[7])
                              + 256 * (b[8] + 2 * b[9] + 4 * b[10] + 8 * b[11])
                              + 4096 * (b[12] + 2 * b[13] + 4 * b[14] + 8 * b[15])
  {
    hide ValueOfBits;
    var x, y, z, w := b[..4], b[4..8], b[8..12], b[12..];
    assert b == x + (y + (z + w));
    ValueOfConcat(x, y + (z + w));
    ValueOfConcat(y, z + w);
    ValueOfConcat(z, w);
    ShlFour(ValueOfBits(y + (z + w)));
    ShlFour(ValueOfBits(z + w));
    ShlFour(ValueOfBits(w));
    Nibble(x);
    Nibble(y);
    Nibble(z);
    Nibble(w);
  }

  lemma ShlFour(v: nat)
    ensures Shl(v, 4) == 16 * v
  {
    assert Shl(v, 1) == 2 * v;
    assert Shl(v, 3) == 8 * v;
  }

  lemma MaskValues1()
    ensures ValueOfBits(GroupMask(1, true, 16)) == 0xAAAA && ValueOfBits(GroupMask(1, false, 16)) == 0x5555
  {
    hide ValueOfBits;
    MaskValue(GroupMask(1, true, 16));
    MaskValue(GroupMask(1, false, 16));
  }

  lemma MaskValues2()
    ensures ValueOfBits(GroupMask(2, true, 16)) == 0xCCCC && ValueOfBits(GroupMask(2, false, 16)) == 0x3333
  {
    hide ValueOfBits;
    MaskValue(GroupMask(2, true, 16));
    MaskValue(GroupMask(2, false, 16));
  }

  lemma MaskValues4()
    ensures ValueOfBits(GroupMask(4, true, 16)) == 0xF0F0 && ValueOfBits(GroupMask(4, false, 16)) == 0x0F0F
  {
    hide ValueOfBits;
    MaskValue(GroupMask(4, true, 16));
    MaskValue(GroupMask(4, false, 16));
  }

  lemma MaskValues8()
    ensures ValueOfBits(GroupMask(8, true, 16)) == 0xFF00 && ValueOfBits(GroupMask(8, false, 16)) == 0x00FF
  {
    hide ValueOfBits;
    MaskValue(GroupMask(8, true, 16));
    MaskValue(GroupMask(8, false, 16));
  }

  lemma GroupParity(i: nat, k: nat)
    requires k in {1, 2, 4, 8} && i < 16
    ensures OddGroup(i + k, k) != OddGroup(i, k)
    ensures i >= k ==> OddGroup(i - k, k) != OddGroup(i, k)
    ensures if OddGroup(i, k) then i >= k else i + k < 16
  {
    if k == 1 {
    } else if k == 2 {
    } else if k == 4 {
    } else {
    }
  }

  lemma SwapGroupsBit(v: nat, hi: nat, lo: nat, k: nat, i: nat)
    requires k in {1, 2, 4, 8} && i < 16
    requires hi == ValueOfBits(GroupMask(k, true, 16)) && lo == ValueOfBits(GroupMask(k, false, 16))
    ensures NthBit(SwapGroups(v, hi, lo, k), i) == NthBit(v, if OddGroup(i, k) then i - k else i + k)
  {
    hide ValueOfBits, And, Or, Shr, Shl;
    GroupParity(i, k);
    OrBit(Shr(And(v, hi), k), Shl(And(v, lo), k), i);
    ShrShr(And(v, hi), k, i);
    ShlBit(And(v, lo), k, i);
    AndBit(v, hi, i + k);
    BitsOfValue(GroupMask(k, true, 16), i + k);
    if i >= k {
      AndBit(v, lo, i - k);
      BitsOfValue(GroupMask(k, false, 16), i - k);
    }
  }

  /** The mask-and-shift reversal is the bit-by-bit one, whatever lies above bit 15. */
  lemma BitReverse16IsRev(v: nat)
    ensures BitReverse16(v) == Rev(v, 16)
  {
    hide ValueOfBits, Shr, Shl, And, Or, Rev, SwapGroups, NthBit, OddGroup;
    var n1 := SwapGroups(v, 0xAAAA, 0x5555, 1);
    var n2 := SwapGroups(n1, 0xCCCC, 0x3333, 2);
    var n3 := SwapGroups(n2, 0xF0F0, 0x0F0F, 4);
    var n4 := SwapGroups(n3, 0xFF00, 0x00FF, 8);
    MaskValues1();
    MaskValues2();
    MaskValues4();
    MaskValues8();
    forall i | 0 <= i < 16 ensures NthBit(n4, i) == NthBit(Rev(v, 16), i) {
      var i3, i2, i1, i0 := SwapPath(i);
      SwapGroupsBit(n3, 0xFF00, 0x00FF, 8, i);
      SwapGroupsBit(n2, 0xF0F0, 0x0F0F, 4, i3);
      SwapGroupsBit(n1, 0xCCCC, 0x3333, 2, i2);
      SwapGroupsBit(v, 0xAAAA, 0x5555, 1, i1);
      RevBit(v, 16, i);
    }
    SwapGroupsBound(n3);
    SameBits(n4, Rev(v, 16), 16);
  }

  /** Where bit `i` of the result comes from, round by round. */
  lemma SwapPath(i: nat) returns (i3: nat, i2: nat, i1: nat, i0: nat)
    requires i < 16
    ensures i3 == (if OddGroup(i, 8) then i - 8 else i + 8) && i3 < 16
    ensures i2 == (if OddGroup(i3, 4) then i3 - 4 else i3 + 4) && i2 < 16
    ensures i1 == (if OddGroup(i2, 2) then i2 - 2 else i2 + 2) && i1 < 16
    ensures i0 == (if OddGroup(i1, 1) then i1 - 1 else i1 + 1) && i0 == 15 - i
  {
    i3 := if OddGroup(i, 8) then i - 8 else i + 8;
    i2 := if OddGroup(i3, 4) then i3 - 4 else i3 + 4;
    i1 := if OddGroup(i2, 2) then i2 - 2 else i2 + 2;
    i0 := if OddGroup(i1, 1) then i1 - 1 else i1 + 1;
  }

  lemma {:induction false} OrBound(a: nat, b: nat, n: nat)
    requires a < Pow2(n) && b < Pow2(n)
    ensures Or(a, b) < Pow2(n)
    decreases n
  {
    if n > 0 && a > 0 && b > 0 {
      OrBound(a / 2, b / 2, n - 1);
    }
  }

  lemma {:induction false} AndBound(a: nat, b: nat)
    ensures And(a, b) <= b
    decreases a
  {
    if a > 0 {
      AndBound(a / 2, b / 2);
    }
  }

  lemma {:induction false} ShrAtMost(v: nat, k: nat)
    ensures Shr(v, k) <= v
    decreases k
  {
    if k > 0 {
      ShrAtMost(v / 2, k - 1);
    }
  }

  lemma SwapGroupsBound(v: nat)
    ensures SwapGroups(v, 0xFF00, 0x00FF, 8) < Pow2(16)
  {
    hide Shr, And, Or;
    Pow2Values();
    AndBound(v, 0xFF00);
    AndBound(v, 0x00FF);
    ShrAtMost(And(v, 0xFF00), 8);
    ShlLess(And(v, 0x00FF), 0x100, 8);
    assert Shl(0x100, 8) == 0x1_0000;
    OrBound(Shr(And(v, 0xFF00), 8), Shl(And(v, 0x00FF), 8), 16);
  }

  lemma BitReverseIsRev(v: nat, bits: nat)
    requires bits <= 16
    ensures BitReverse(v, bits) == Rev(v, bits)
  {
    hide Rev, BitReverse16, Shr, Shl;
    BitReverse16IsRev(v);
    RevSplit(v, bits, 16 - bits);
    SplitAt(Rev(v, bits), Rev(Shr(v, bits), 16 - bits), 16 - bits);
  }

  // ---- The bit stream ----------------------------------------------------------------------

  function StreamBit(s: seq<byte>, j: nat): (b: nat)
    ensures b <= 1
  {
    if j / 8 < |s| then NthBit(s[j / 8], j % 8) else 0
  }

  /** The `n` bits from position `c`, first bit least significant. */
  function Peek(s: seq<byte>, c: nat, n: nat): (v: nat)
    ensures v < Pow2(n)
    decreases n
  {
    if n == 0 then 0 else StreamBit(s, c) + 2 * Peek(s, c + 1, n - 1)
  }

  /** The `n` bits from position `c`, first bit most significant (how Huffman codes are packed). */
  function PeekMsb(s: seq<byte>, c: nat, n: nat): (v: nat)
    ensures v < Pow2(n)
    decreases n
  {
    if n == 0 then 0 else 2 * PeekMsb(s, c, n - 1) + StreamBit(s, c + n - 1)
  }

  lemma {:induction false} PeekSplit(s: seq<byte>, c: nat, a: nat, m: nat)
    ensures Peek(s, c, a + m) == Shl(Peek(s, c + a, m), a) + Peek(s, c, a)
    decreases a
  {
    if a > 0 {
      PeekSplit(s, c + 1, a - 1, m);
    }
  }

  /** Taking `a` bits off a window of `a + m` bits. */
  lemma PeekTake(s: seq<byte>, c: nat, a: nat, m: nat)
    ensures Low(Peek(s, c, a + m), a) == Peek(s, c, a)
    ensures Shr(Peek(s, c, a + m), a) == Peek(s, c + a, m)
  {
    hide Peek, Low, Shr, Shl;
    PeekSplit(s, c, a, m);
    SplitAt(Peek(s, c + a, m), Peek(s, c, a), a);
  }

  lemma {:induction false} PeekWithin(s: seq<byte>, k: nat, i: nat)
    requires i <= 8 && k < |s|
    ensures Peek(s, 8 * k + i, 8 - i) == Shr(s[k], i)
    decreases 8 - i
  {
    if i < 8 {
      PeekWithin(s, k, i + 1);
      ShrShr(s[k], i, 1);
      assert (8 * k + i) / 8 == k && (8 * k + i) % 8 == i;
    } else {
      Pow2Values();
      ShrSmall(s[k], 8);
    }
  }

  lemma PeekByte(s: seq<byte>, k: nat)
    ensures Peek(s, 8 * k, 8) == if k < |s| then s[k] else 0
  {
    hide Peek;
    if k < |s| {
      PeekWithin(s, k, 0);
    } else {
      PeekPastEnd(s, 8 * k, 8);
    }
  }

  lemma {:induction false} PeekPastEnd(s: seq<byte>, c: nat, n: nat)
    requires c >= 8 * |s|
    ensures Peek(s, c, n) == 0
    decreases n
  {
    if n > 0 {
      PeekPastEnd(s, c + 1, n - 1);
    }
  }

  /** Reading most significant bit first is reading and then reversing. */
  lemma {:induction false} PeekMsbIsRev(s: seq<byte>, c: nat, n: nat)
    ensures PeekMsb(s, c, n) == Rev(Peek(s, c, n), n)
    decreases n
  {
    hide Rev, Peek, PeekMsb, Shl, StreamBit, Pow2;
    PeekMsbStep(s, c, n);
    if n > 0 {
      PeekMsbIsRev(s, c, n - 1);
      PeekSplit(s, c, n - 1, 1);
      RevAppend(StreamBit(s, c + n - 1), Peek(s, c, n - 1), n - 1);
    }
  }

  lemma PeekMsbStep(s: seq<byte>, c: nat, n: nat)
    ensures n == 0 ==> PeekMsb(s, c, n) == 0 && Rev(Peek(s, c, n), n) == 0
    ensures n > 0 ==> PeekMsb(s, c, n) == 2 * PeekMsb(s, c, n - 1) + StreamBit(s, c + n - 1)
    ensures n > 0 ==> Peek(s, c + n - 1, 1) == StreamBit(s, c + n - 1)
  {
    hide StreamBit;
    if n > 0 {
      assert Peek(s, c + n, 0) == 0;
    }
  }

  /** A wider window gives the same reversed prefix. */
  lemma RevOfWindow(s: seq<byte>, c: nat, n: nat, w: nat)
    requires n <= w
    ensures Rev(Peek(s, c, w), n) == PeekMsb(s, c, n)
  {
    hide Rev, Peek, PeekMsb, Shl;
    PeekSplit(s, c, n, w - n);
    RevLow(Peek(s, c + n, w - n), Peek(s, c, n), n);
    PeekMsbIsRev(s, c, n);
  }

  lemma LowByte(v: nat)
    ensures Low(v, 8) == v % 256 && Shr(v, 8) == v / 256
  {
    hide Low, Shr, Shl;
    Recompose(v, 8);
    Pow2Values();
    ShlFour(Shr(v, 8));
    ShlFour(16 * Shr(v, 8));
    ShlShl(Shr(v, 8), 4, 4);
  }
}
