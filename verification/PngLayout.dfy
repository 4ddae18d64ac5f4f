/** The bytes of a PNG file as the standard lists them (W3C PNG, Second Edition, sections 5.2, 5.3, 11.2 and 11.3). */
module PngLayout {
  import opened Bits
  import opened InflateSpec
  import opened BitWriter
  import opened PngFile

  /** Four bytes, the first one counting 2^24. */
  function Big(f: seq<byte>, i: nat): nat
    requires i + 4 <= |f|
  {
    16777216 * f[i] as int + 65536 * f[i + 1] as int + 256 * f[i + 2] as int + f[i + 3] as int
  }

  /** Grey, grey with alpha, true colour, true colour with alpha. */
  function ColourOf(n: nat): byte
    requires 1 <= n <= 4
  {
    [0, 4, 2, 6][n - 1]
  }

  /** Signature, header chunk, one data chunk, end chunk: `x` by `y` pixels of `n` bytes. */
  predicate Laid(f: seq<byte>, x: nat, y: nat, n: nat, interlace: nat, zlib: seq<byte>) {
    && 1 <= n <= 4 && |f| == 57 + |zlib|
    && f[..8] == [137, 80, 78, 71, 13, 10, 26, 10]
    && f[8..16] == [0, 0, 0, 13, 73, 72, 68, 82]
    && Big(f, 16) == x && Big(f, 20) == y
    && f[24] == 8 && f[25] == ColourOf(n) && f[26] == 0 && f[27] == 0 && f[28] as int == interlace
    && Big(f, 33) == |zlib| && f[37..41] == [73, 68, 65, 84] && f[41..41 + |zlib|] == zlib
    && f[45 + |zlib|..53 + |zlib|] == [0, 0, 0, 0, 73, 69, 78, 68]
  }

  /** Each chunk ends in the checksum of its type and data. */
  predicate Checked(f: seq<byte>, size: nat, crc: seq<byte> -> uint32)
    requires |f| == 57 + size
  {
    && Big(f, 29) == crc(f[12..29])
    && Big(f, 41 + size) == crc(f[37..41 + size])
    && Big(f, 53 + size) == crc(f[49 + size..53 + size])
  }

  // ---- Written -----------------------------------------------------------------------------

  lemma BigIs(f: seq<byte>, i: nat, v: uint32)
    requires i + 4 <= |f| && f[i..i + 4] == Be32(v)
    ensures Big(f, i) == v
  {
    var b := f[i..i + 4];
    assert f[i] == b[0] && f[i + 1] == b[1] && f[i + 2] == b[2] && f[i + 3] == b[3];
    Digits(v);
  }

  /** Where the parts of a chunk are. */
  lemma ChunkParts(f: seq<byte>, pos: nat, tag: seq<byte>, data: seq<byte>, crc: uint32)
    requires |tag| == 4 && |data| <= UINT_MAX && At(f, pos, Chunk(tag, data, crc))
    ensures pos + 12 + |data| <= |f|
    ensures Big(f, pos) == |data| && f[pos..pos + 4] == Be32(|data|) && f[pos + 4..pos + 8] == tag && f[pos + 8..pos + 8 + |data|] == data
    ensures f[pos + 4..pos + 8 + |data|] == tag + data && Big(f, pos + 8 + |data|) == crc
  {
    hide Be32, Big;
    var len: uint32 := |data|;
    AtSplit(f, pos, Be32(len) + tag + data, Be32(crc));
    AtSplit(f, pos, Be32(len) + tag, data);
    AtSplit(f, pos, Be32(len), tag);
    BigIs(f, pos, len);
    BigIs(f, pos + 8 + |data|, crc);
    assert f[pos + 4..pos + 8 + |data|] == f[pos + 4..pos + 8] + f[pos + 8..pos + 8 + |data|];
  }

  lemma ZeroSize()
    ensures Be32(0) == [0, 0, 0, 0] && Be32(13) == [0, 0, 0, 13]
  {
  }

  lemma HeadParts(f: seq<byte>, x: uint32, y: uint32, n: nat)
    requires 1 <= n <= 4 && |f| >= 29 && f[16..29] == HeaderData(x, y, n)
    ensures Big(f, 16) == x && Big(f, 20) == y
    ensures f[24] == 8 && f[25] == ColourOf(n) && f[26] == 0 && f[27] == 0 && f[28] == 0
  {
    hide Be32, Big;
    var h := HeaderData(x, y, n);
    assert f[16..20] == f[16..29][..4] == Be32(x);
    assert f[20..24] == f[16..29][4..8] == Be32(y);
    BigIs(f, 16, x);
    BigIs(f, 20, y);
    assert f[24] == h[8] && f[25] == h[9] && f[26] == h[10] && f[27] == h[11] && f[28] == h[12];
  }

  /** The writer's file has these bytes. */
  lemma FileLaid(x: uint32, y: uint32, n: nat, zlib: seq<byte>, crc: seq<byte> -> uint32)
    requires 1 <= n <= 4 && |zlib| <= UINT_MAX
    ensures var f := FileBytes(x, y, n, zlib, crc(IHDR + HeaderData(x, y, n)), crc(IDAT + zlib), crc(IEND));
            Laid(f, x, y, n, 0, zlib) && Checked(f, |zlib|, crc)
  {
    hide Chunk, HeaderData, Be32, Big, ColourOf;
    var head := HeaderData(x, y, n);
    var c1, c2, c3 := crc(IHDR + head), crc(IDAT + zlib), crc(IEND);
    var f := FileBytes(x, y, n, zlib, c1, c2, c3);
    var k1, k2, k3 := Chunk(IHDR, head, c1), Chunk(IDAT, zlib, c2), Chunk(IEND, [], c3);
    ChunkSize(IHDR, head, c1);
    ChunkSize(IDAT, zlib, c2);
    ChunkSize(IEND, [], c3);
    assert At(f, 0, SIGNATURE + k1 + k2 + k3);
    AtSplit(f, 0, SIGNATURE + k1 + k2, k3);
    AtSplit(f, 0, SIGNATURE + k1, k2);
    AtSplit(f, 0, SIGNATURE, k1);
    ChunkParts(f, 8, IHDR, head, c1);
    ChunkParts(f, 33, IDAT, zlib, c2);
    ChunkParts(f, 45 + |zlib|, IEND, [], c3);
    HeadParts(f, x, y, n);
    ZeroSize();
    assert f[8..16] == f[8..12] + f[12..16];
    assert f[45 + |zlib|..53 + |zlib|] == f[45 + |zlib|..49 + |zlib|] + f[49 + |zlib|..53 + |zlib|];
    assert IEND + [] == IEND;
  }

  // ---- Read --------------------------------------------------------------------------------

  lemma BigRead(f: seq<byte>, i: nat)
    requires i + 4 <= |f|
    ensures Get32(f, i) == Big(f, i) && Tag(f, i) == f[i..i + 4]
  {
  }

  lemma Fours(f: seq<byte>, i: nat, a: seq<byte>, b: seq<byte>)
    requires i + 8 <= |f| && |a| == 4 && |b| == 4 && f[i..i + 8] == a + b
    ensures f[i..i + 4] == a && f[i + 4..i + 8] == b
  {
    assert f[i..i + 4] == f[i..i + 8][..4] && f[i + 4..i + 8] == f[i..i + 8][4..];
  }

  lemma Thirteen(f: seq<byte>, i: nat)
    requires i + 4 <= |f| && f[i..i + 4] == [0, 0, 0, 13]
    ensures Big(f, i) == 13
  {
    var b := f[i..i + 4];
    assert f[i] == b[0] && f[i + 1] == b[1] && f[i + 2] == b[2] && f[i + 3] == b[3];
  }

  lemma LaidHeader(f: seq<byte>, x: nat, y: nat, n: nat, interlace: nat, zlib: seq<byte>)
    requires Laid(f, x, y, n, interlace, zlib) && interlace <= 1 && WithinLimits(x, y, n)
    ensures Get32(f, 8) == 13 && Tag(f, 12) == IHDR && ReadHeader(f, 16) == Ready(Header(x, y, n, interlace == 1), [])
  {
    hide Big, Get32, Channels, Tag;
    Fours(f, 8, [0, 0, 0, 13], IHDR);
    Thirteen(f, 8);
    BigRead(f, 8);
    BigRead(f, 12);
    BigRead(f, 16);
    BigRead(f, 20);
    ColorChannels(n);
    assert ColourOf(n) == ColorType(n);
  }

  /** The reader finds in any file with these bytes what the standard says they mean, unless the data is
      longer than it accepts. */
  lemma LaidRead(f: seq<byte>, x: nat, y: nat, n: nat, interlace: nat, zlib: seq<byte>)
    requires Laid(f, x, y, n, interlace, zlib) && interlace <= 1 && WithinLimits(x, y, n) && 0 < |zlib| <= UINT_MAX
    ensures SIGNATURE <= f
    ensures Chunks(f, 8, None, []) == if |zlib| <= MAX_IDAT then Ready(Header(x, y, n, interlace == 1), zlib) else Corrupt
  {
    hide Big, Get32, Tag, ReadHeader, Chunks, ColourOf;
    var h := Header(x, y, n, interlace == 1);
    var e := 45 + |zlib|;
    assert f[..8] == SIGNATURE;
    LaidHeader(f, x, y, n, interlace, zlib);
    HeadStep(f, 8, h);
    BigRead(f, 33);
    BigRead(f, 37);
    DataStep(f, 33, h, zlib);
    Fours(f, e, [0, 0, 0, 0], IEND);
    BigRead(f, e + 4);
    EndStep(f, e, h, zlib);
  }
}
