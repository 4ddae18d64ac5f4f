/** PNG files: the chunk layout, `stbi_write_png_to_mem`, the 8-bit path of
    `stbi__parse_png_file`, and that reading undoes writing. */
module PngFile {
  import opened Bits
  import opened InflateSpec
  import opened Inflate
  import opened BitWriter
  import opened ZlibRoundTrip
  import opened PngFilter
  import opened PngImage
  import opened Adam7

  const SIGNATURE: seq<byte> := [137, 80, 78, 71, 13, 10, 26, 10]
  const IHDR: seq<byte> := [0x49, 0x48, 0x44, 0x52]
  const IDAT: seq<byte> := [0x49, 0x44, 0x41, 0x54]
  const IEND: seq<byte> := [0x49, 0x45, 0x4E, 0x44]
  const PLTE: seq<byte> := [0x50, 0x4C, 0x54, 0x45]
  const TRNS: seq<byte> := [0x74, 0x52, 0x4E, 0x53]
  const CGBI: seq<byte> := [0x43, 0x67, 0x42, 0x49]

  const MAX_DIMENSIONS := 0x100_0000
  const MAX_IDAT := 0x4000_0000

  /** Four bytes, most significant first (`stbiw__wp32`). */
  function Be32(v: uint32): (r: seq<byte>)
    ensures |r| == 4
  {
    [UChar(v / 0x100_0000), UChar(v / 0x1_0000), UChar(v / 0x100), UChar(v)]
  }

  /** The value of four bytes, zero past the end (`stbi__get32be`). */
  function Get32(s: seq<byte>, pos: nat): uint32 {
    0x100_0000 * ByteAt(s, pos) as int + 0x1_0000 * ByteAt(s, pos + 1) as int
    + 0x100 * ByteAt(s, pos + 2) as int + ByteAt(s, pos + 3) as int
  }

  /** The four letters of a chunk type. */
  function Tag(s: seq<byte>, pos: nat): seq<byte> {
    [ByteAt(s, pos), ByteAt(s, pos + 1), ByteAt(s, pos + 2), ByteAt(s, pos + 3)]
  }

  lemma Be32Reads(s: seq<byte>, pos: nat, v: uint32)
    requires pos + 4 <= |s| && s[pos..pos + 4] == Be32(v)
    ensures Get32(s, pos) == v
  {
    var b := s[pos..pos + 4];
    assert s[pos] == b[0] && s[pos + 1] == b[1] && s[pos + 2] == b[2] && s[pos + 3] == b[3];
    Digits(v);
  }

  lemma Digits(v: uint32)
    ensures 0x100_0000 * UChar(v / 0x100_0000) as int + 0x1_0000 * UChar(v / 0x1_0000) as int
            + 0x100 * UChar(v / 0x100) as int + UChar(v) as int == v
  {
    var a, b, c := v / 0x100, v / 0x1_0000, v / 0x100_0000;
    assert a / 0x100 == b && b / 0x100 == c;
    assert v == 0x100 * a + v % 0x100 && a == 0x100 * b + a % 0x100 && b == 0x100 * c + b % 0x100;
  }

  // ---- The chunk walk ----------------------------------------------------------------------

  datatype Header = Header(x: nat, y: nat, n: nat, interlaced: bool)

  /** What a walk over the chunks finds: the header and the joined image data, an error, or one of
      the variants that are not modelled (other depths, palettes, transparency, CgBI). */
  datatype Walk = Ready(h: Header, idata: seq<byte>) | Corrupt | Unsupported

  /** The checks on the fields of an IHDR chunk whose data starts at `pos`. */
  function ReadHeader(s: seq<byte>, pos: nat): Walk {
    var x, y := Get32(s, pos), Get32(s, pos + 4);
    var depth, color := ByteAt(s, pos + 8), ByteAt(s, pos + 9);
    if y > MAX_DIMENSIONS || x > MAX_DIMENSIONS then Corrupt
    else if depth !in {1, 2, 4, 8, 16} || color > 6 || (color == 3 && depth == 16) then Corrupt
    else if color != 3 && color % 2 == 1 then Corrupt
    else if ByteAt(s, pos + 10) != 0 || ByteAt(s, pos + 11) != 0 || ByteAt(s, pos + 12) > 1 then Corrupt
    else if x == 0 || y == 0 then Corrupt
    else if color == 3 || depth != 8 then Unsupported
    else
      var n := Channels(color);
      if MAX_IDAT / x / n < y then Corrupt
      else Ready(Header(x, y, n, ByteAt(s, pos + 12) == 1), [])
  }

  /** The channels of a colour type: three with the colour bit, else one, and one more with the alpha bit. */
  function Channels(color: nat): (n: nat)
    ensures 1 <= n <= 4
  {
    (if And(color, 2) != 0 then 3 else 1) + (if And(color, 4) != 0 then 1 else 0)
  }

  /** Skipping `n` bytes, a count that `int` would read as negative meaning "to the end". */
  function SkipTo(s: seq<byte>, pos: nat, n: uint32): (r: nat)
    ensures r >= pos || r == |s|
  {
    if n > INT_MAX then |s| else pos + n
  }

  /** The chunks from `pos` on.  A chunk is a length, a type, data and an unchecked CRC. */
  function Chunks(s: seq<byte>, pos: nat, h: Option<Header>, idata: seq<byte>): Walk
    decreases if pos <= |s| then |s| - pos else 0
  {
    var length, tag, data := Get32(s, pos), Tag(s, pos + 4), pos + 8;
    if pos >= |s| then Corrupt
    else if tag == CGBI then Unsupported
    else if tag == IHDR then
      if h.Some? || length != 13 then Corrupt
      else
        var r := ReadHeader(s, data);
        if r.Ready? then Chunks(s, data + 17, Some(r.h), idata) else r
    else if h.None? then Corrupt
    else if tag == PLTE then
      if length > 768 || length % 3 != 0 then Corrupt else Chunks(s, data + length + 4, h, idata)
    else if tag == TRNS then
      if idata != [] then Corrupt else Unsupported
    else if tag == IDAT then
      if length > MAX_IDAT || |idata| + length > INT_MAX || data + length > |s| then Corrupt
      else Chunks(s, data + length + 4, h, idata + s[data..data + length])
    else if tag == IEND then
      if idata == [] then Corrupt else Ready(h.value, idata)
    else if And(tag[0], 32) == 0 then Corrupt
    else
      var next := SkipTo(s, data, length);
      if next >= |s| then Corrupt else Chunks(s, next + 4, h, idata)
  }

  // ---- Writing -----------------------------------------------------------------------------

  function Chunk(tag: seq<byte>, data: seq<byte>, crc: uint32): seq<byte>
    requires |data| <= UINT_MAX
  {
    Be32(|data|) + tag + data + Be32(crc)
  }

  /** `ctype[n]`. */
  function ColorType(n: nat): byte
    requires 1 <= n <= 4
  {
    if n == 1 then 0 else if n == 2 then 4 else if n == 3 then 2 else 6
  }

  function HeaderData(x: uint32, y: uint32, n: nat): (r: seq<byte>)
    requires 1 <= n <= 4
    ensures |r| == 13
  {
    Be32(x) + Be32(y) + [8, ColorType(n), 0, 0, 0]
  }

  /** The bytes of a file with the given compressed data; the CRC words are whatever they are. */
  function FileBytes(x: uint32, y: uint32, n: nat, zlib: seq<byte>, c1: uint32, c2: uint32, c3: uint32): seq<byte>
    requires 1 <= n <= 4 && |zlib| <= UINT_MAX
  {
    SIGNATURE + Chunk(IHDR, HeaderData(x, y, n), c1) + Chunk(IDAT, zlib, c2) + Chunk(IEND, [], c3)
  }

  /** The part of `s` at `pos` is the chunk. */
  lemma ChunkReads(s: seq<byte>, pos: nat, tag: seq<byte>, data: seq<byte>, crc: uint32)
    requires |tag| == 4 && |data| <= UINT_MAX && At(s, pos, Chunk(tag, data, crc))
    ensures Get32(s, pos) == |data| && Tag(s, pos + 4) == tag
    ensures pos + 12 + |data| <= |s| && s[pos + 8..pos + 8 + |data|] == data
  {
    hide Be32, Get32;
    var len: uint32 := |data|;
    AtSplit(s, pos, Be32(len) + tag + data, Be32(crc));
    AtSplit(s, pos, Be32(len) + tag, data);
    AtSplit(s, pos, Be32(len), tag);
    Be32Reads(s, pos, len);
    var g := s[pos + 4..pos + 8];
    assert g == tag;
    assert g[0] == s[pos + 4] && g[1] == s[pos + 5] && g[2] == s[pos + 6] && g[3] == s[pos + 7];
  }

  /** The reader's limits on the dimensions. */
  predicate WithinLimits(x: nat, y: nat, n: nat) {
    && 1 <= x <= MAX_DIMENSIONS && 1 <= y <= MAX_DIMENSIONS && 1 <= n <= 4
    && MAX_IDAT / x / n >= y
  }

  lemma HeaderReads(s: seq<byte>, pos: nat, x: uint32, y: uint32, n: nat)
    requires WithinLimits(x, y, n) && At(s, pos, HeaderData(x, y, n))
    ensures ReadHeader(s, pos) == Ready(Header(x, y, n, false), [])
  {
    hide Be32, Get32;
    var tail := [8, ColorType(n), 0, 0, 0];
    AtSplit(s, pos, Be32(x) + Be32(y), tail);
    AtSplit(s, pos, Be32(x), Be32(y));
    Be32Reads(s, pos, x);
    Be32Reads(s, pos + 4, y);
    var g := s[pos + 8..pos + 13];
    assert g == tail;
    assert g[0] == s[pos + 8] && g[1] == s[pos + 9] && g[2] == s[pos + 10] && g[3] == s[pos + 11] && g[4] == s[pos + 12];
    ColorChannels(n);
  }

  lemma ColorChannels(n: nat)
    requires 1 <= n <= 4
    ensures Channels(ColorType(n)) == n && ColorType(n) != 3 && ColorType(n) <= 6 && ColorType(n) % 2 == 0
  {
    assert And(0, 2) == 0 && And(0, 4) == 0 && And(4, 2) == 0 && And(4, 4) == 4;
    assert And(2, 2) == 2 && And(2, 4) == 0 && And(6, 2) == 2 && And(6, 4) == 4;
  }

  /** The walk over a written file finds its header and its data, unless the data is longer than
      the reader accepts. */
  lemma FileWalk(x: uint32, y: uint32, n: nat, zlib: seq<byte>, c1: uint32, c2: uint32, c3: uint32)
    requires WithinLimits(x, y, n) && 0 < |zlib| <= UINT_MAX
    ensures Chunks(FileBytes(x, y, n, zlib, c1, c2, c3), 8, None, [])
         == if |zlib| <= MAX_IDAT then Ready(Header(x, y, n, false), zlib) else Corrupt
  {
    hide Chunk, HeaderData, ReadHeader, Get32, Tag;
    var s := FileBytes(x, y, n, zlib, c1, c2, c3);
    var k1, k2, k3 := Chunk(IHDR, HeaderData(x, y, n), c1), Chunk(IDAT, zlib, c2), Chunk(IEND, [], c3);
    ChunkSize(IHDR, HeaderData(x, y, n), c1);
    ChunkSize(IDAT, zlib, c2);
    ChunkSize(IEND, [], c3);
    var p2, p3 := 33, 45 + |zlib|;
    assert At(s, 0, SIGNATURE + k1 + k2 + k3);
    AtSplit(s, 0, SIGNATURE + k1 + k2, k3);
    AtSplit(s, 0, SIGNATURE + k1, k2);
    AtSplit(s, 0, SIGNATURE, k1);
    ChunkReads(s, 8, IHDR, HeaderData(x, y, n), c1);
    ChunkReads(s, p2, IDAT, zlib, c2);
    ChunkReads(s, p3, IEND, [], c3);
    HeaderReads(s, 16, x, y, n);
    var h := Header(x, y, n, false);
    assert [] + zlib == zlib;
    EndStep(s, p3, h, zlib);
    DataStep(s, p2, h, zlib);
    HeadStep(s, 8, h);
  }

  lemma ChunkSize(tag: seq<byte>, data: seq<byte>, crc: uint32)
    requires |tag| == 4 && |data| <= UINT_MAX
    ensures |Chunk(tag, data, crc)| == 12 + |data|
  {
  }

  /** One chunk, as the loop takes it. */
  lemma ChunkStep(s: seq<byte>, pos: nat, h: Option<Header>, idata: seq<byte>)
    ensures var length, tag, data := Get32(s, pos), Tag(s, pos + 4), pos + 8;
            var r := Chunks(s, pos, h, idata);
            && |tag| == 4
            && (pos >= |s| ==> r.Corrupt? && tag == [0, 0, 0, 0])
            && (pos < |s| ==>
                  r == if tag == CGBI then Unsupported
                       else if tag == IHDR then
                         if h.Some? || length != 13 then Corrupt
                         else if ReadHeader(s, data).Ready? then Chunks(s, data + 17, Some(ReadHeader(s, data).h), idata)
                         else ReadHeader(s, data)
                       else if h.None? then Corrupt
                       else if tag == PLTE then
                         if length > 768 || length % 3 != 0 then Corrupt else Chunks(s, data + length + 4, h, idata)
                       else if tag == TRNS then
                         if idata != [] then Corrupt else Unsupported
                       else if tag == IDAT then
                         if length > MAX_IDAT || |idata| + length > INT_MAX || data + length > |s| then Corrupt
                         else Chunks(s, data + length + 4, h, idata + s[data..data + length])
                       else if tag == IEND then
                         if idata == [] then Corrupt else Ready(h.value, idata)
                       else if And(tag[0], 32) == 0 then Corrupt
                       else Chunks(s, SkipTo(s, data, length) + 4, h, idata))
  {
    hide Get32, ReadHeader, And;
  }

  /** Positions from which nothing different can be read. */
  predicate SamePoint(s: seq<byte>, p: nat, q: nat) {
    p == q || (p >= |s| && q >= |s|)
  }

  lemma SamePointReads(s: seq<byte>, p: nat, q: nat)
    requires SamePoint(s, p, q)
    ensures Tag(s, p) == Tag(s, q) && ReadHeader(s, p) == ReadHeader(s, q)
  {
    if p >= |s| {
      assert Get32(s, p) == 0 && Get32(s, q) == 0 && Get32(s, p + 4) == 0 && Get32(s, q + 4) == 0;
      hide Get32;
    }
  }

  lemma SamePointChunks(s: seq<byte>, p: nat, q: nat, h: Option<Header>, idata: seq<byte>)
    requires SamePoint(s, p, q)
    ensures Chunks(s, p, h, idata) == Chunks(s, q, h, idata)
    ensures p >= |s| ==> Chunks(s, p, h, idata).Corrupt?
  {
  }

  lemma NoTag()
    ensures [0, 0, 0, 0] != CGBI && [0, 0, 0, 0] != IHDR && [0, 0, 0, 0] != PLTE
    ensures [0, 0, 0, 0] != TRNS && [0, 0, 0, 0] != IDAT && [0, 0, 0, 0] != IEND && And(0, 32) == 0
  {
    assert CGBI[0] == 0x43 && IHDR[0] == 0x49 && PLTE[0] == 0x50 && TRNS[0] == 0x74 && IDAT[0] == 0x49 && IEND[0] == 0x49;
  }

  lemma HeadStep(s: seq<byte>, pos: nat, h: Header)
    requires pos < |s| && Get32(s, pos) == 13 && Tag(s, pos + 4) == IHDR && ReadHeader(s, pos + 8) == Ready(h, [])
    ensures Chunks(s, pos, None, []) == Chunks(s, pos + 25, Some(h), [])
  {
    hide Get32, Tag, ReadHeader;
  }

  lemma DataStep(s: seq<byte>, pos: nat, h: Header, data: seq<byte>)
    requires pos + 12 + |data| <= |s| && Get32(s, pos) == |data| && Tag(s, pos + 4) == IDAT
    requires s[pos + 8..pos + 8 + |data|] == data && |data| <= UINT_MAX
    ensures Chunks(s, pos, Some(h), [])
         == if |data| <= MAX_IDAT then Chunks(s, pos + 12 + |data|, Some(h), data) else Corrupt
  {
    hide Get32, Tag, ReadHeader, Chunks, And, SkipTo;
    assert IDAT[1] == 68 && CGBI[1] == 103 && IHDR[1] == 72 && PLTE[1] == 76 && TRNS[1] == 82;
    ChunkStep(s, pos, Some(h), []);
    assert [] + data == data;
  }

  lemma EndStep(s: seq<byte>, pos: nat, h: Header, idata: seq<byte>)
    requires pos < |s| && Tag(s, pos + 4) == IEND && idata != []
    ensures Chunks(s, pos, Some(h), idata) == Ready(h, idata)
  {
    hide Get32, Tag, ReadHeader;
  }

  // ---- Reading -----------------------------------------------------------------------------

  /** `stbi__context` over a memory buffer. */
  class Context {
    const buffer: seq<byte>
    var pos: nat

    constructor (buffer: seq<byte>)
      ensures this.buffer == buffer && pos == 0
    {
      this.buffer := buffer;
      pos := 0;
    }

    /** `stbi__get8`. */
    method Get8() returns (b: byte)
      modifies this
      ensures b == ByteAt(buffer, old(pos))
      ensures pos == if old(pos) < |buffer| then old(pos) + 1 else old(pos)
    {
      if pos < |buffer| {
        b := buffer[pos];
        pos := pos + 1;
      } else {
        b := 0;
      }
    }

    /** `stbi__get32be`. */
    method Get32be() returns (v: uint32)
      modifies this
      ensures v == Get32(buffer, old(pos)) && Moved(old(pos), 4)
    {
      var a := Get8();
      var b := Get8();
      var c := Get8();
      var d := Get8();
      v := 0x100_0000 * a as int + 0x1_0000 * b as int + 0x100 * c as int + d as int;
    }

    /** The position is `k` further on, or stuck at the end. */
    predicate Moved(from: nat, k: nat)
      reads this
    {
      if from + k <= |buffer| then pos == from + k else pos >= |buffer|
    }

    /** `stbi__skip`. */
    method Skip(n: uint32)
      modifies this
      ensures pos == SkipTo(buffer, old(pos), n)
    {
      if n > INT_MAX {
        pos := |buffer|;
      } else {
        pos := pos + n;
      }
    }

    /** `stbi__getn`. */
    method GetN(n: nat) returns (ok: bool, data: seq<byte>)
      modifies this
      ensures ok <==> old(pos) + n <= |buffer|
      ensures ok ==> pos == old(pos) + n && data == buffer[old(pos)..pos]
    {
      ok := pos + n <= |buffer|;
      data := [];
      if ok {
        data := buffer[pos..pos + n];
        pos := pos + n;
      }
    }

    method Tag4() returns (tag: seq<byte>)
      modifies this
      ensures tag == Tag(buffer, old(pos)) && Moved(old(pos), 4)
    {
      var a := Get8();
      var b := Get8();
      var c := Get8();
      var d := Get8();
      tag := [a, b, c, d];
    }

    /** The IHDR branch: the header fields and their checks. */
    method ParseHeader() returns (r: Walk)
      modifies this
      ensures r == ReadHeader(buffer, old(pos)) && Moved(old(pos), 13)
    {
      hide Get32, And;
      ghost var p := pos;
      var x := Get32be();
      var y := Get32be();
      var depth := Get8();
      var color := Get8();
      var comp := Get8();
      var filter := Get8();
      var interlace := Get8();
      if y > MAX_DIMENSIONS || x > MAX_DIMENSIONS {
        return Corrupt;
      }
      if depth != 1 && depth != 2 && depth != 4 && depth != 8 && depth != 16 {
        return Corrupt;
      }
      if color > 6 || (color == 3 && depth == 16) || (color != 3 && color % 2 == 1) {
        return Corrupt;
      }
      if comp != 0 || filter != 0 || interlace > 1 || x == 0 || y == 0 {
        return Corrupt;
      }
      if color == 3 || depth != 8 {
        return Unsupported;
      }
      var n := Channels(color);
      if MAX_IDAT / x / n < y {
        return Corrupt;
      }
      r := Ready(Header(x, y, n, interlace == 1), []);
    }

    /** The chunk loop of `stbi__parse_png_file` up to the end of the data. */
    method ParseChunks() returns (r: Walk)
      modifies this
      ensures r == Chunks(buffer, old(pos), None, [])
    {
      hide Chunks;
      var h: Option<Header>, idata := None, [];
      while true
        invariant Chunks(buffer, pos, h, idata) == Chunks(buffer, old(pos), None, [])
        decreases if pos <= |buffer| then |buffer| - pos else 0
      {
        var done;
        done, r, h, idata := ParseChunk(h, idata);
        if done {
          return;
        }
      }
    }

    /** One turn of the chunk loop. */
    method ParseChunk(h0: Option<Header>, idata0: seq<byte>) returns (done: bool, r: Walk, h: Option<Header>, idata: seq<byte>)
      modifies this
      ensures done ==> r == Chunks(buffer, old(pos), h0, idata0)
      ensures !done ==> Chunks(buffer, pos, h, idata) == Chunks(buffer, old(pos), h0, idata0)
      ensures !done ==> old(pos) < |buffer| && pos > old(pos)
    {
      hide Get32, Tag, ReadHeader, Chunks, And;
      done, r, h, idata := true, Corrupt, h0, idata0;
      ChunkStep(buffer, pos, h, idata);
      NoTag();
      ghost var p := pos;
      var length := Get32be();
      SamePointReads(buffer, pos, p + 4);
      var tag := Tag4();
      SamePointReads(buffer, pos, p + 8);
      if tag == CGBI {
        r := Unsupported;
        return;
      } else if tag == IHDR {
        if h.Some? || length != 13 {
          return;
        }
        r := ParseHeader();
        if !r.Ready? {
          return;
        }
        h := Some(r.h);
      } else if h.None? {
        return;
      } else if tag == PLTE {
        if length > 768 || length % 3 != 0 {
          return;
        }
        SkipEntries(length);
      } else if tag == TRNS {
        r := if idata != [] then Corrupt else Unsupported;
        return;
      } else if tag == IDAT {
        if length > MAX_IDAT || |idata| + length > INT_MAX {
          return;
        }
        var ok, data := GetN(length);
        if !ok {
          return;
        }
        idata := idata + data;
      } else if tag == IEND {
        r := if idata == [] then Corrupt else Ready(h.value, idata);
        return;
      } else {
        if And(tag[0], 32) == 0 {
          return;
        }
        Skip(length);
      }
      var _ := Get32be();
      ghost var next := if tag == IHDR then p + 25 else if tag == PLTE || tag == IDAT then p + 12 + length else SkipTo(buffer, p + 8, length) + 4;
      assert SamePoint(buffer, pos, next);
      SamePointChunks(buffer, pos, next, h, idata);
      done := false;
    }

    /** The palette entries of an image without a palette are read and dropped. */
    method SkipEntries(n: nat)
      modifies this
      ensures Moved(old(pos), n)
    {
      for i := 0 to n
        invariant Moved(old(pos), i)
      {
        var _ := Get8();
      }
    }
  }
}
