/** The Adler-32 checksum: the definition of RFC 1950 (section 2.2), byte by byte, and the
    compressor's computation, which reduces only once per block of 5552 bytes. */
module Adler {
  import opened Bits

  const BASE := 65521
  const BLOCK := 5552

  /** The sum of the bytes plus one, modulo 65521. */
  function SumA(d: seq<byte>): (r: nat)
    ensures r < BASE
  {
    if d == [] then 1 else (SumA(d[..|d| - 1]) + d[|d| - 1]) % BASE
  }

  /** The sum of the first sums after each byte, modulo 65521. */
  function SumB(d: seq<byte>): (r: nat)
    ensures r < BASE
  {
    if d == [] then 0 else (SumB(d[..|d| - 1]) + SumA(d)) % BASE
  }

  // ---- The checksum as a number ------------------------------------------------------------

  function ByteSum(d: seq<byte>): nat {
    if d == [] then 0 else d[0] + ByteSum(d[1..])
  }

  /** Each byte as often as there are bytes from it on. */
  function WeightedSum(d: seq<byte>): nat {
    if d == [] then 0 else |d| * d[0] + WeightedSum(d[1..])
  }

  /** The number that RFC 1950 (section 2.2) puts behind the data: the second sum in the upper half, the
      first one in the lower half. */
  function Checksum(d: seq<byte>): nat {
    65536 * ((|d| + WeightedSum(d)) % 65521) + (1 + ByteSum(d)) % 65521
  }

  lemma {:induction false} ByteSumAppend(d: seq<byte>, b: byte)
    ensures ByteSum(d + [b]) == ByteSum(d) + b
    ensures WeightedSum(d + [b]) == WeightedSum(d) + ByteSum(d) + b
    decreases |d|
  {
    if d == [] {
      assert (d + [b])[1..] == [];
    } else {
      assert (d + [b])[1..] == d[1..] + [b];
      ByteSumAppend(d[1..], b);
      assert (|d| + 1) * d[0] == |d| * d[0] + d[0];
    }
  }

  /** Reducing after every byte gives the remainders of the plain sums. */
  lemma {:induction false} SumsArePlain(d: seq<byte>)
    ensures SumA(d) == (1 + ByteSum(d)) % 65521 && SumB(d) == (|d| + WeightedSum(d)) % 65521
    decreases |d|
  {
    if d != [] {
      var front, b := d[..|d| - 1], d[|d| - 1];
      SumsArePlain(front);
      assert front + [b] == d;
      ByteSumAppend(front, b);
      ModLater(1 + ByteSum(front), b);
      ModLater(|front| + WeightedSum(front), SumA(d));
      ModLater(1 + ByteSum(d), |front| + WeightedSum(front));
    }
  }

  /** The checksum of the two bytes "ab", and of none. */
  lemma KnownChecksums()
    ensures Checksum([97, 98]) == 0x0126_00c4 && Checksum([]) == 1
  {
    var d: seq<byte> := [97, 98];
    assert d[1..] == [98] && d[1..][1..] == [];
    assert ByteSum(d) == 195 && WeightedSum(d) == 292;
  }

  /** The bound on the second sum after `k` bytes without reduction. */
  function Growth(k: nat): nat {
    if k == 0 then 0 else Growth(k - 1) + 65520 + 255 * k
  }

  lemma {:induction false} GrowthClosed(k: nat)
    ensures 2 * Growth(k) == k * (131040 + 255 * (k + 1))
  {
    if k > 0 {
      GrowthClosed(k - 1);
      assert (k - 1) * (131040 + 255 * k) == k * (131040 + 255 * k) - 131040 - 255 * k;
      assert k * (131040 + 255 * (k + 1)) == k * (131040 + 255 * k) + 255 * k;
    }
  }

  lemma {:induction false} GrowthMonotone(a: nat, b: nat)
    requires a <= b
    ensures Growth(a) <= Growth(b)
    decreases b
  {
    if a < b {
      GrowthMonotone(a, b - 1);
    }
  }

  /** 5552 is small enough that neither sum leaves 32 bits. */
  lemma BlockFits(k: nat)
    requires k <= BLOCK
    ensures 65520 + Growth(k) <= UINT_MAX && 65520 + 255 * k <= UINT_MAX
  {
    hide Growth;
    GrowthMonotone(k, BLOCK);
    GrowthClosed(BLOCK);
  }

  /** Reducing later gives the same remainder. */
  lemma ModLater(x: nat, y: nat)
    ensures (x % BASE + y) % BASE == (x + y) % BASE
  {
  }

  /** The inner loop: one block, with 32-bit sums. */
  method SumBlock(data: seq<byte>, j: nat, blocklen: nat, a: nat, b: nat) returns (s1: uint32, s2: uint32)
    requires j + blocklen <= |data| && blocklen <= BLOCK
    requires a == SumA(data[..j]) && b == SumB(data[..j])
    ensures s1 % BASE == SumA(data[..j + blocklen]) && s2 % BASE == SumB(data[..j + blocklen])
  {
    hide Growth, SumA, SumB;
    s1, s2 := a, b;
    SumsSmall(data[..j], a, b);
    GrowthStart();
    for i := 0 to blocklen
      invariant s1 <= 65520 + 255 * i && s2 <= 65520 + Growth(i)
      invariant s1 % BASE == SumA(data[..j + i]) && s2 % BASE == SumB(data[..j + i])
    {
      BlockFits(i + 1);
      GrowthNext(i);
      SumsNext(data, j + i, s1, s2);
      s1 := s1 + data[j + i];
      s2 := s2 + s1;
    }
  }

  lemma GrowthStart()
    ensures Growth(0) == 0
  {
  }

  lemma GrowthNext(k: nat)
    ensures Growth(k + 1) == Growth(k) + 65520 + 255 * (k + 1)
  {
  }

  lemma SumsNext(data: seq<byte>, i: nat, s1: nat, s2: nat)
    requires i < |data| && s1 % BASE == SumA(data[..i]) && s2 % BASE == SumB(data[..i])
    ensures (s1 + data[i]) % BASE == SumA(data[..i + 1])
    ensures (s2 + s1 + data[i]) % BASE == SumB(data[..i + 1])
  {
    assert data[..i + 1][..i] == data[..i];
    ModLater(s1, data[i]);
    ModLater(s2, SumA(data[..i + 1]));
    ModLater(s1 + data[i], s2);
  }

  lemma SumsSmall(d: seq<byte>, a: nat, b: nat)
    requires a == SumA(d) && b == SumB(d)
    ensures a % BASE == a && b % BASE == b
  {
  }

  lemma SumsStart()
    ensures SumA([]) == 1 && SumB([]) == 0
  {
  }

  /** The checksum loop of `stbi_zlib_compress`.  Its first block is the short one and may be
      empty; the loop still ends. */
  method Adler32(data: seq<byte>) returns (s1: uint32, s2: uint32)
    ensures s1 == SumA(data) && s2 == SumB(data)
  {
    hide SumA, SumB;
    SumsStart();
    s1, s2 := 1, 0;
    var blocklen := |data| % BLOCK;
    ghost var blocks := |data| / BLOCK;
    var j := 0;
    assert data[..0] == [];
    while j < |data|
      invariant 0 <= j <= |data| && 0 <= blocklen <= BLOCK
      invariant j < |data| ==> |data| - j == blocklen + BLOCK * blocks && blocks >= 0
      invariant s1 == SumA(data[..j]) && s2 == SumB(data[..j])
      decreases |data| - j, BLOCK - blocklen
    {
      s1, s2 := SumBlock(data, j, blocklen, s1, s2);
      s1, s2 := s1 % BASE, s2 % BASE;
      j := j + blocklen;
      blocklen := BLOCK;
      blocks := blocks - 1;
    }
    assert data[..j] == data;
  }
}
