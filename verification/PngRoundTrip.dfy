/** `stbi_write_png_to_mem` and `stbi_load_from_memory` on PNG data, end to end. */
module PngRoundTrip {
  import opened Bits
  import opened Layout
  import opened InflateSpec
  import opened Inflate
  import opened ZlibRoundTrip
  import opened PngImage
  import opened Adam7
  import opened PngFile
  import opened PngLayout
  import opened Adler
  import S = Sender

  /** What the writer needs of its caller: an image in memory whose size `int` can hold. */
  ghost predicate Writable(pixels: seq<byte>, stride: nat, x: nat, y: nat, n: nat) {
    && 1 <= x && 1 <= y && 1 <= n <= 4 && (x * n + 1) * y <= INT_MAX
    && RowsFit(pixels, RowStride(stride, x * n), x * n, y)
  }

  /** A stride of zero means rows without gaps. */
  function RowStride(stride_bytes: nat, nk: nat): nat {
    if stride_bytes == 0 then nk else stride_bytes
  }

  /** The signature and what three chunks need besides their data. */
  const FILE_OVERHEAD := 8 + 12 + 13 + 12 + 12

  /** File, compressed data and checksum have the bytes that the standards list. */
  ghost predicate ToTheLetter(out: seq<byte>, x: nat, y: nat, n: nat, zlib: seq<byte>, data: seq<byte>) {
    && Laid(out, x, y, n, 0, zlib)
    && |zlib| >= 4 && S.Sends(zlib, data, zlib[|zlib| - 4..]) && Trailer(zlib) == Checksum(data)
  }

  /** The file carries compressed data that inflates to the image, each row with its chosen filter. */
  ghost predicate FileOf(out: seq<byte>, pixels: seq<byte>, stride: nat, x: nat, y: nat, n: nat, force: int, zlib: seq<byte>, filters: seq<byte>)
    requires 1 <= n <= 4 && RowsFit(pixels, stride, x * n, y)
  {
    var r := Inflated(zlib, true);
    && x <= INT_MAX && y <= INT_MAX && 0 < |zlib| <= UINT_MAX && |out| == |zlib| + FILE_OVERHEAD
    && (exists c1, c2, c3 :: out == FileBytes(x, y, n, zlib, c1, c2, c3))
    && r.Done? && r.pos <= 8 * |zlib| && ToTheLetter(out, x, y, n, zlib, r.out) && |zlib| <= StoredSize(|r.out|) + 4
    && (Stubborn(r.out) ==> |zlib| == StoredSize(|r.out|) + 4)
    && FilteredAs(r.out, pixels, stride, x * n, n, y, force, filters)
  }

  /** The written file: compressed data and filters as above, for the caller's stride. */
  ghost predicate Wrote(out: seq<byte>, pixels: seq<byte>, stride_bytes: nat, x: nat, y: nat, n: nat, force: int)
    requires Writable(pixels, stride_bytes, x, y, n)
  {
    exists zlib, filters :: FileOf(out, pixels, RowStride(stride_bytes, x * n), x, y, n, force, zlib, filters)
  }

  /** The length of the compressed data when every filtered row is stored. */
  function StoredImage(x: nat, y: nat, n: nat): nat {
    StoredSize((x * n + 1) * y) + 4
  }

  lemma WritableSizes(x: nat, y: nat, n: nat)
    requires 1 <= x && 1 <= y && 1 <= n && (x * n + 1) * y <= INT_MAX
    ensures x <= INT_MAX && y <= INT_MAX
    ensures StoredSize((x * n + 1) * y) + 4 <= UINT_MAX
    ensures (x * n + 1) * y == Start(y, x * n + 1) > 0
  {
    hide StoredSize, Start;
    StartIsProduct(y, x * n + 1);
    MulAtMost(1, y, x * n + 1);
    MulAtMost(1, x * n + 1, y);
    MulAtMost(1, n, x);
    StoredFits((x * n + 1) * y);
  }

  lemma StoredFits(n: nat)
    requires n <= INT_MAX
    ensures StoredSize(n) + 4 <= UINT_MAX
  {
  }

  /** Copies bytes to the output pointer and advances it. */
  method Put(out: array<byte>, o: nat, b: seq<byte>) returns (next: nat)
    requires o + |b| <= out.Length
    modifies out
    ensures next == o + |b| && out[..next] == old(out[..o]) + b
  {
    forall k | 0 <= k < |b| {
      out[o + k] := b[k];
    }
    next := o + |b|;
  }

  method PutChunk(out: array<byte>, o: nat, tag: seq<byte>, data: seq<byte>, crc: uint32) returns (next: nat)
    requires |tag| == 4 && |data| <= UINT_MAX && o + 12 + |data| <= out.Length
    modifies out
    ensures next == o + 12 + |data| && out[..next] == old(out[..o]) + Chunk(tag, data, crc)
  {
    hide Be32;
    next := Put(out, o, Be32(|data|));
    next := Put(out, next, tag);
    next := Put(out, next, data);
    next := Put(out, next, Be32(crc));
  }

  /** `stbi_write_png_to_mem`, not flipped: `force` is the filter override and `level` the
      compression level; `crc` stands for the checksum function. */
  method WritePng(pixels: seq<byte>, stride_bytes: nat, x: nat, y: nat, n: nat, force: int, level: int, crc: seq<byte> -> uint32)
    returns (out: seq<byte>)
    requires Writable(pixels, stride_bytes, x, y, n)
    ensures Wrote(out, pixels, stride_bytes, x, y, n, force)
    ensures 57 <= |out| <= StoredImage(x, y, n) + FILE_OVERHEAD
    ensures Checked(out, |out| - 57, crc)
  {
    hide S.Sends, Laid, Checked, Checksum, Trailer, FilteredRows, Inflated, Start, HeaderData, Chunk, RowsFit, RowStride, StoredSize, FileBytes, Chosen, Stubborn;
    WritableSizes(x, y, n);
    var filt := FilterImage(pixels, RowStride(stride_bytes, x * n), x, y, n, force);
    ghost var filters :| FilteredAs(filt, pixels, RowStride(stride_bytes, x * n), x * n, n, y, force, filters);
    var z := ZlibCompress(filt, level);
    out := AssembleFile(x, y, n, z, crc);
    assert FileOf(out, pixels, RowStride(stride_bytes, x * n), x, y, n, force, z, filters);
  }

  /** The signature and the three chunks, written at the moving output pointer. */
  method AssembleFile(x: uint32, y: uint32, n: nat, z: seq<byte>, crc: seq<byte> -> uint32) returns (out: seq<byte>)
    requires 1 <= n <= 4 && |z| <= UINT_MAX
    ensures exists c1, c2, c3 :: out == FileBytes(x, y, n, z, c1, c2, c3)
    ensures |out| == |z| + FILE_OVERHEAD && Laid(out, x, y, n, 0, z) && Checked(out, |z|, crc)
  {
    hide HeaderData, Chunk, Laid, Checked;
    var buffer := new byte[8 + 12 + 13 + 12 + |z| + 12];
    var o := Put(buffer, 0, SIGNATURE);
    var head := HeaderData(x, y, n);
    var c1, c2, c3 := crc(IHDR + head), crc(IDAT + z), crc(IEND);
    o := PutChunk(buffer, o, IHDR, head, c1);
    o := PutChunk(buffer, o, IDAT, z, c2);
    o := PutChunk(buffer, o, IEND, [], c3);
    out := buffer[..];
    assert buffer[..o] == buffer[..];
    assert out == FileBytes(x, y, n, z, c1, c2, c3);
    FileLaid(x, y, n, z, crc);
  }

  datatype PngResult = Image(x: nat, y: nat, n: nat, out_n: nat, pixels: seq<byte>) | BadPng | NotModelled

  /** The number of channels to produce: an alpha channel is added if exactly that was asked for. */
  function OutChannels(n: nat, req_comp: nat): nat {
    if req_comp == n + 1 && req_comp != 3 then n + 1 else n
  }

  /** What a decoded file must hold, given its header and its inflated data. */
  ghost predicate RightImage(r: PngResult, h: Header, raw: seq<byte>, req_comp: nat)
    requires h.x >= 1 && h.y >= 1
  {
    var out_n := OutChannels(h.n, req_comp);
    && r.Image? && r.x == h.x && r.y == h.y && r.n == h.n && r.out_n == out_n
    && (!h.interlaced ==> DataOk(raw, h.x, h.y, h.n, out_n) && r.pixels == ImageRows(raw, h.x, h.n, out_n, h.y))
    && (h.interlaced ==> exists imgs :: PassImages(raw, imgs, 7, h.x, h.y, h.n, out_n)
                                        && PassesPlaced(r.pixels, imgs, 7, h.x, h.y, out_n)
                                        && |r.pixels| == h.x * h.y * out_n)
  }

  /** The image data can be turned into an image. */
  ghost predicate Decodable(h: Header, raw: seq<byte>, req_comp: nat)
    requires h.x >= 1 && h.y >= 1
  {
    var out_n := OutChannels(h.n, req_comp);
    if h.interlaced then Mad3Valid(h.x, h.y, out_n, 0) && forall p :: 0 <= p < 7 ==> PassOk(raw, p, h.x, h.y, h.n, out_n)
    else DataOk(raw, h.x, h.y, h.n, out_n)
  }

  /** `stbi__do_png` with `stbi__parse_png_file`, for every byte string: 8-bit images without
      palette, with or without interlacing. */
  method ReadPng(s: seq<byte>, req_comp: nat) returns (r: PngResult)
    requires req_comp <= 4
    ensures !(SIGNATURE <= s) ==> r.BadPng?
    ensures SIGNATURE <= s ==>
              match Chunks(s, 8, None, [])
              case Corrupt => r.BadPng?
              case Unsupported => r.NotModelled?
              case Ready(h, idata) =>
                && WithinLimits(h.x, h.y, h.n)
                && var z := Inflated(idata, true);
                   && (r.Image? ==> z.Done? && RightImage(r, h, z.out, req_comp))
                   && (r.NotModelled? ==> req_comp != 0 && req_comp != OutChannels(h.n, req_comp))
                   && (r.BadPng? ==> z.Done? ==> z.pos > 8 * |idata| || |z.out| > INT_MAX || !Decodable(h, z.out, req_comp))
  {
    hide Chunks, Inflated, ImageRows, DataOk, PassOk, PassImages, PassesPlaced, Mad3Valid;
    var c := new Context(s);
    var ok := CheckSignature(c);
    if !ok {
      return BadPng;
    }
    ChunksReady(s, 8, None, []);
    var walk := c.ParseChunks();
    match walk {
      case Corrupt => return BadPng;
      case Unsupported => return NotModelled;
      case Ready(h, idata) =>
        var out_n := OutChannels(h.n, req_comp);
        if req_comp != 0 && req_comp != out_n {
          return NotModelled;
        }
        RawLength(h.x, h.y, h.n);
        var bpl := (h.x * 8 + 7) / 8;
        var expanded;
        ok, expanded := DecodeMalloc(idata, bpl * h.y * h.n + h.y, true);
        if !ok {
          return BadPng;
        }
        var out; ghost var imgs, writes;
        ok, out, imgs, writes := CreateImage(expanded, h.x, h.y, h.n, out_n, h.interlaced);
        r := if ok then Image(h.x, h.y, h.n, out_n, out[..]) else BadPng;
    }
  }

  lemma RawLength(x: nat, y: nat, n: nat)
    requires WithinLimits(x, y, n)
    ensures (x * 8 + 7) / 8 == x && 0 < x * y * n + y <= INT_MAX
  {
    LimitProduct(x, y, n);
  }

  lemma SizeFits(x: nat, y: nat, n: nat)
    requires WithinLimits(x, y, n)
    ensures (x * n + 1) * y <= INT_MAX
  {
    LimitProduct(x, y, n);
    assert (x * n + 1) * y == x * y * n + y;
  }

  lemma LimitProduct(x: nat, y: nat, n: nat)
    requires WithinLimits(x, y, n)
    ensures x * y * n <= MAX_IDAT
  {
    var q := MAX_IDAT / x;
    DivAtMost(q, n, y);
    DivAtMost(MAX_IDAT, x, y * n);
    assert x * y * n == x * (y * n);
  }

  lemma DivAtMost(a: nat, d: nat, b: nat)
    requires d > 0 && b <= a / d
    ensures b * d <= a && d * b <= a
  {
    assert a == (a / d) * d + a % d;
    MulAtMost(b, a / d, d);
  }

  /** The header found by the walk passed the checks. */
  lemma {:induction false} ChunksReady(s: seq<byte>, pos: nat, h: Option<Header>, idata: seq<byte>)
    requires h.Some? ==> WithinLimits(h.value.x, h.value.y, h.value.n)
    ensures var r := Chunks(s, pos, h, idata); r.Ready? ==> WithinLimits(r.h.x, r.h.y, r.h.n)
    decreases if pos <= |s| then |s| - pos else 0
  {
    hide Get32, Tag, And, WithinLimits;
    var length, tag, data := Get32(s, pos), Tag(s, pos + 4), pos + 8;
    if pos < |s| && tag != CGBI {
      if tag == IHDR {
        HeaderChecked(s, data);
        if h.None? && length == 13 && ReadHeader(s, data).Ready? {
          ChunksReady(s, data + 17, Some(ReadHeader(s, data).h), idata);
        }
      } else if h.Some? {
        if tag == PLTE {
          ChunksReady(s, data + length + 4, h, idata);
        } else if tag == IDAT {
          if data + length <= |s| {
            ChunksReady(s, data + length + 4, h, idata + s[data..data + length]);
          }
        } else if tag != TRNS && tag != IEND && SkipTo(s, data, length) < |s| {
          ChunksReady(s, SkipTo(s, data, length) + 4, h, idata);
        }
      }
    }
  }

  lemma HeaderChecked(s: seq<byte>, pos: nat)
    ensures var r := ReadHeader(s, pos); r.Ready? ==> WithinLimits(r.h.x, r.h.y, r.h.n)
  {
    hide Get32, And;
  }

  /** `stbi__check_png_header`. */
  method CheckSignature(c: Context) returns (ok: bool)
    requires c.pos == 0
    modifies c
    ensures ok <==> SIGNATURE <= c.buffer
    ensures ok ==> c.pos == 8
  {
    for i := 0 to 8
      invariant c.pos == i <= |c.buffer| && SIGNATURE[..i] == c.buffer[..i]
    {
      var b := c.Get8();
      if b != SIGNATURE[i] {
        return false;
      }
    }
    ok := true;
  }

  /** Reading what was written.  Within the reader's limits, the image comes back with its size, its
      channels and its pixels exactly when the compressed data in the file is at most 2^30 bytes long;
      which is certain when the filtered rows, even stored uncompressed, are not longer than that. */
  method RoundTripPng(pixels: seq<byte>, stride: nat, x: nat, y: nat, n: nat, force: int, level: int, crc: seq<byte> -> uint32)
    returns (file: seq<byte>, r: PngResult)
    requires Writable(pixels, stride, x, y, n) && WithinLimits(x, y, n)
    ensures r.Image? <==> |file| <= MAX_IDAT + FILE_OVERHEAD
    ensures StoredImage(x, y, n) <= MAX_IDAT ==> r.Image?
    ensures Wrote(file, pixels, stride, x, y, n, force) && (r.Image? || r.BadPng?)
    ensures r.Image? ==>
              r == Image(x, y, n, n, PixelRows(pixels, RowStride(stride, x * n), x * n, y))
  {
    hide Chunks, Inflated, FilteredRows, PixelRows, FileBytes, DataOk, ImageRows, Decodable, ToTheLetter, Checked, RowStride, RowsFit, StoredSize;
    file := WritePng(pixels, stride, x, y, n, force, level, crc);
    ghost var zlib, filters :| FileOf(file, pixels, RowStride(stride, x * n), x, y, n, force, zlib, filters);
    ghost var c1, c2, c3 :| file == FileBytes(x, y, n, zlib, c1, c2, c3);
    FileWalk(x, y, n, zlib, c1, c2, c3);
    FileSigned(x, y, n, zlib, c1, c2, c3);
    WrittenDecodes(Inflated(zlib, true).out, pixels, RowStride(stride, x * n), x, y, n, filters);
    r := ReadPng(file, 0);
  }

  lemma FileSigned(x: uint32, y: uint32, n: nat, zlib: seq<byte>, c1: uint32, c2: uint32, c3: uint32)
    requires 1 <= n <= 4 && |zlib| <= UINT_MAX
    ensures SIGNATURE <= FileBytes(x, y, n, zlib, c1, c2, c3)
  {
    hide Chunk, HeaderData;
  }

  lemma WrittenDecodes(raw: seq<byte>, pixels: seq<byte>, stride: nat, x: nat, y: nat, n: nat, filters: seq<byte>)
    requires WithinLimits(x, y, n) && RowsFit(pixels, stride, x * n, y) && (x * n + 1) * y <= INT_MAX
    requires |filters| == y && forall j :: 0 <= j < y ==> filters[j] <= 4
    requires raw == FilteredRows(pixels, stride, x * n, n, filters, y)
    ensures |raw| <= INT_MAX && Decodable(Header(x, y, n, false), raw, 0)
    ensures ImageRows(raw, x, n, n, y) == PixelRows(pixels, stride, x * n, y)
  {
    hide FilteredRows, ImageRows, PixelRows, Start, FiltersOk, WithinLimits, SizesOk, Mad3Valid, RowsFit, DataOk;
    LimitsPositive(x, y, n);
    var nk := x * n;
    assert nk == Start(x, n) by { StartIsProduct(x, n); }
    RowsAtMost(y, nk + 1, INT_MAX);
    SizesFollow(x, y, n);
    RestoredDecodes(raw, pixels, stride, x, y, n, nk, filters);
  }

  lemma RowsAtMost(y: nat, w: nat, bound: nat)
    requires w * y <= bound
    ensures Start(y, w) <= bound
  {
    StartIsProduct(y, w);
  }

  lemma RestoredDecodes(raw: seq<byte>, pixels: seq<byte>, stride: nat, x: nat, y: nat, n: nat, nk: nat, filters: seq<byte>)
    requires x >= 1 && y >= 1 && SizesOk(x, y, n, n) && nk == Start(x, n)
    requires RowsFit(pixels, stride, nk, y)
    requires |filters| == y && forall j :: 0 <= j < y ==> filters[j] <= 4
    requires raw == FilteredRows(pixels, stride, nk, n, filters, y)
    ensures DataOk(raw, x, y, n, n)
    ensures ImageRows(raw, x, n, n, y) == PixelRows(pixels, stride, nk, y)
  {
    hide FilteredRows, ImageRows, PixelRows, Start, FiltersOk, SizesOk, RowsFit;
    ImageRestored(raw, pixels, stride, x, n, filters, y, y);
  }

  lemma LimitsPositive(x: nat, y: nat, n: nat)
    requires WithinLimits(x, y, n)
    ensures x >= 1 && y >= 1 && 1 <= n <= 4
  {
  }

  /** The limits on the header leave nothing for the later size checks to reject. */
  lemma SizesFollow(x: nat, y: nat, n: nat)
    requires WithinLimits(x, y, n)
    ensures SizesOk(x, y, n, n)
  {
    LimitProduct(x, y, n);
    MulValid(x, y, MAX_IDAT);
    assert x * y <= x * y * n;
    MulValid(x * y, n, MAX_IDAT);
    MulAtMost(n, 4, x);
    MulValid(n, x, 0x400_0000);
    MulValid(n * x, 8, 0x2000_0000);
    assert n * x * y == x * y * n;
    MulValid(n * x, y, MAX_IDAT);
    MulValid(n * x, 2, 0x800_0000);
  }

  lemma MulValid(a: nat, b: nat, bound: nat)
    requires a * b <= bound <= INT_MAX
    ensures Mul2Valid(a, b)
  {
    if b > 0 {
      var q := INT_MAX / b;
      if a > q {
        MulAtMost(q + 1, a, b);
      }
    }
  }
}
