/** Bits in bytes, written out: the first bit of a byte counts 1, the last one 128. */
module Packing {
  import opened Bits
  import opened DeflateSpec

  const POWERS: seq<nat> := [1, 2, 4, 8, 16, 32, 64, 128, 256, 512, 1024, 2048, 4096, 8192, 16384, 32768, 65536]

  /** The low `n` bits of a number, least significant first. */
  function LowFirst(v: nat, n: nat): (b: seq<nat>)
    requires n <= 16
    ensures |b| == n && forall i :: 0 <= i < n ==> b[i] <= 1
  {
    seq(n, i requires 0 <= i < n => v / POWERS[i] % 2)
  }

  /** The low `n` bits of a number, most significant first. */
  function HighFirst(v: nat, n: nat): (b: seq<nat>)
    requires n <= 16
    ensures |b| == n && forall i :: 0 <= i < n ==> b[i] <= 1
  {
    seq(n, i requires 0 <= i < n => v / POWERS[n - 1 - i] % 2)
  }

  predicate AreBits(b: seq<nat>) {
    forall i :: 0 <= i < |b| ==> b[i] <= 1
  }

  function ByteOf(b: seq<nat>): byte
    requires |b| == 8 && AreBits(b)
  {
    b[0] + 2 * b[1] + 4 * b[2] + 8 * b[3] + 16 * b[4] + 32 * b[5] + 64 * b[6] + 128 * b[7]
  }

  function ZeroBits(n: nat): (b: seq<nat>)
    ensures AreBits(b) && |b| == n
  {
    seq(n, _ => 0)
  }

  /** The bits in bytes, the last one filled up with zeros. */
  function Pack(b: seq<nat>): (r: seq<byte>)
    requires AreBits(b)
    ensures 8 * |r| >= |b| > 8 * (|r| - 1)
    decreases |b|
  {
    if b == [] then []
    else if |b| < 8 then [ByteOf(b + ZeroBits(8 - |b|))]
    else [ByteOf(b[..8])] + Pack(b[8..])
  }

  // ---- Reading them back -------------------------------------------------------------------

  lemma PowersAre(i: nat)
    requires i <= 16
    ensures Pow2(i) == POWERS[i]
    decreases i
  {
    if i > 0 {
      PowersAre(i - 1);
    }
  }

  lemma Halved(v: nat, i: nat)
    requires 1 <= i <= 15
    ensures v / POWERS[i] == v / 2 / POWERS[i - 1]
  {
    assert POWERS[i] == 2 * POWERS[i - 1];
    var p := POWERS[i - 1];
    var q := v / 2 / p;
    var r := v / 2 % p;
    assert v / 2 == q * p + r;
    assert v == q * (2 * p) + (2 * r + v % 2) by { assert 2 * (q * p + r) == q * (2 * p) + 2 * r; }
    QuotientIs(v, q, 2 * p, 2 * r + v % 2);
  }

  lemma QuotientIs(v: nat, q: nat, d: nat, r: nat)
    requires d > 0 && r < d && v == q * d + r
    ensures v / d == q
  {
    var p := v / d;
    if p < q {
      assert (p + 1) * d <= q * d by { Times(p + 1, q, d); }
    } else if p > q {
      assert (q + 1) * d <= p * d by { Times(q + 1, p, d); }
    }
  }

  lemma Times(a: nat, b: nat, d: nat)
    requires a <= b
    ensures a * d <= b * d
  {
  }

  lemma {:induction false} LowFirstIs(v: nat, n: nat)
    requires n <= 16
    ensures LowFirst(v, n) == BitsLsb(v, n)
    decreases n
  {
    if n > 0 {
      LowFirstIs(v / 2, n - 1);
      forall i | 0 <= i < n
        ensures LowFirst(v, n)[i] == ([v % 2] + LowFirst(v / 2, n - 1))[i]
      {
        if i > 0 {
          Halved(v, i);
        }
      }
    }
  }

  lemma {:induction false} HighFirstIs(v: nat, n: nat)
    requires n <= 16
    ensures HighFirst(v, n) == BitsMsb(v, n)
    decreases n
  {
    if n > 0 {
      HighFirstIs(v / 2, n - 1);
      forall i | 0 <= i < n
        ensures HighFirst(v, n)[i] == (HighFirst(v / 2, n - 1) + [v % 2])[i]
      {
        if i < n - 1 {
          Halved(v, n - 1 - i);
        }
      }
    }
  }

  lemma ByteBits(b: seq<nat>)
    requires |b| == 8 && AreBits(b)
    ensures BitsLsb(ByteOf(b), 8) == b
  {
    hide BitsLsb;
    EightBits(b[0], b[1], b[2], b[3], b[4], b[5], b[6], b[7]);
    assert b == [b[0], b[1], b[2], b[3], b[4], b[5], b[6], b[7]];
  }

  lemma EightBits(b0: nat, b1: nat, b2: nat, b3: nat, b4: nat, b5: nat, b6: nat, b7: nat)
    requires b0 <= 1 && b1 <= 1 && b2 <= 1 && b3 <= 1 && b4 <= 1 && b5 <= 1 && b6 <= 1 && b7 <= 1
    ensures BitsLsb(b0 + 2 * b1 + 4 * b2 + 8 * b3 + 16 * b4 + 32 * b5 + 64 * b6 + 128 * b7, 8) == [b0, b1, b2, b3, b4, b5, b6, b7]
  {
    hide BitsLsb;
    var v6 := b6 + 2 * b7;
    var v5 := b5 + 2 * v6;
    var v4 := b4 + 2 * v5;
    var v3 := b3 + 2 * v4;
    var v2 := b2 + 2 * v3;
    var v1 := b1 + 2 * v2;
    FourBits(b4, b5, b6, b7);
    LastBit(b3, v4, 4);
    LastBit(b2, v3, 5);
    LastBit(b1, v2, 6);
    LastBit(b0, v1, 7);
  }

  lemma FourBits(b4: nat, b5: nat, b6: nat, b7: nat)
    requires b4 <= 1 && b5 <= 1 && b6 <= 1 && b7 <= 1
    ensures BitsLsb(b4 + 2 * (b5 + 2 * (b6 + 2 * b7)), 4) == [b4, b5, b6, b7]
  {
    hide BitsLsb;
    assert BitsLsb(b7, 1) == [b7] by { OneBit(b7); }
    LastBit(b6, b7, 1);
    LastBit(b5, b6 + 2 * b7, 2);
    LastBit(b4, b5 + 2 * (b6 + 2 * b7), 3);
  }

  lemma OneBit(b: nat)
    requires b <= 1
    ensures BitsLsb(b, 1) == [b]
  {
  }

  lemma LastBit(bit: nat, rest: nat, n: nat)
    requires bit <= 1
    ensures BitsLsb(bit + 2 * rest, n + 1) == [bit] + BitsLsb(rest, n)
  {
  }

  lemma PackStep(b: seq<nat>)
    requires AreBits(b)
    ensures b == [] ==> Pack(b) == []
    ensures 0 < |b| < 8 ==> Pack(b) == [ByteOf(b + ZeroBits(8 - |b|))]
    ensures |b| >= 8 ==> Pack(b) == [ByteOf(b[..8])] + Pack(b[8..])
  {
    hide ByteOf;
  }

  /** The byte after `front` carries its eight bits. */
  lemma ByteThere(front: seq<byte>, b: seq<nat>, tail: seq<byte>)
    requires |b| == 8 && AreBits(b)
    ensures Carries(front + [ByteOf(b)] + tail, 8 * |front|, b)
  {
    hide Carries, BitsLsb, ByteOf;
    ByteBits(b);
    var s := front + [ByteOf(b)] + tail;
    assert s[|front|] == ByteOf(b);
    CarriesByte(s, |front|);
  }

  /** Packed bits are carried by their bytes, whatever follows them. */
  lemma {:induction false} PackCarries(front: seq<byte>, b: seq<nat>, tail: seq<byte>)
    requires AreBits(b)
    ensures Carries(front + Pack(b) + tail, 8 * |front|, b)
    decreases |b|
  {
    hide Carries, BitsLsb, ByteOf, Pack;
    PackStep(b);
    if b == [] {
      NoBits(front + Pack(b) + tail, 8 * |front|);
    } else if |b| < 8 {
      var zeros := ZeroBits(8 - |b|);
      ByteThere(front, b + zeros, tail);
      CarriesSplit(front + Pack(b) + tail, 8 * |front|, b, zeros);
    } else {
      var more := front + [ByteOf(b[..8])];
      var rest := Pack(b[8..]);
      Regrouped(front, [ByteOf(b[..8])], rest, tail);
      ByteThere(front, b[..8], rest + tail);
      PackCarries(more, b[8..], tail);
      CarriesJoin(front + Pack(b) + tail, 8 * |front|, b[..8], b[8..]);
      assert b[..8] + b[8..] == b;
    }
  }

  lemma Regrouped(a: seq<byte>, b: seq<byte>, c: seq<byte>, d: seq<byte>)
    ensures a + (b + c) + d == a + b + (c + d) == (a + b) + c + d
  {
  }

  lemma NoBits(s: seq<byte>, c: nat)
    ensures Carries(s, c, [])
  {
  }

  /** A number carried least significant bit first. */
  lemma NumberCarried(s: seq<byte>, c: nat, v: nat, n: nat)
    requires n <= 16 && v < POWERS[n] && Carries(s, c, LowFirst(v, n))
    ensures Peek(s, c, n) == v
  {
    hide Carries, Peek, BitsLsb;
    LowFirstIs(v, n);
    PowersAre(n);
    ReadLsb(s, c, v, n);
  }
}
