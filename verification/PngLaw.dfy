/** What a decoded PNG image is by the standard (W3C PNG, Second Edition, sections 8.2, 9.2 and 9.4), byte by byte. */
module PngLaw {
  import opened Bits
  import opened Layout
  import opened InflateSpec
  import opened BitWriter
  import opened PngFilter
  import opened PngImage
  import opened Adam7
  import opened PngFile
  import opened PngLayout
  import opened PngRoundTrip
  import opened ZlibRoundTrip
  import opened Adler
  import S = Sender
  import InflateLaw

  // ---- Filters -----------------------------------------------------------------------------

  function Far(a: int, b: int, c: int, v: int): nat {
    if a + b - c > v then a + b - c - v else v - (a + b - c)
  }

  /** Of left, above and upper left the one nearest to `a + b - c`; in a tie the earlier of the three. */
  predicate IsPaeth(g: int, a: int, b: int, c: int) {
    && (g == a || g == b || g == c)
    && Far(a, b, c, g) <= Far(a, b, c, a) && Far(a, b, c, g) <= Far(a, b, c, b) && Far(a, b, c, g) <= Far(a, b, c, c)
    && (g != a ==> Far(a, b, c, g) < Far(a, b, c, a))
    && (g != a && g != b ==> Far(a, b, c, g) < Far(a, b, c, b))
  }

  /** What the five filter types make of the byte `f` and its neighbours. */
  predicate Restored(v: byte, f: byte, t: nat, left: byte, up: byte, corner: byte) {
    var r, x, a, b, c := v as int, f as int, left as int, up as int, corner as int;
    if t == 0 then r == x
    else if t == 1 then r == (x + a) % 256
    else if t == 2 then r == (x + b) % 256
    else if t == 3 then r == (x + (a + b) / 2) % 256
    else t == 4 && IsPaeth((r - x) % 256, a, b, c)
  }

  /** A place in rows of the given width. */
  function Slot(row: nat, width: nat, column: nat): nat {
    row * width + column
  }

  /** Byte `k` of row `j`: rows of `nk` bytes, pixels of `n` bytes, a filter byte before each raw row; left of the
      row and above the image there are zeros. */
  predicate RestoredAt(raw: seq<byte>, img: seq<byte>, nk: nat, n: nat, j: nat, k: nat) {
    && Slot(j, nk, k) < |img| && Slot(j, nk + 1, k + 1) < |raw|
    && Restored(ByteAt(img, Slot(j, nk, k)), ByteAt(raw, Slot(j, nk + 1, k + 1)), ByteAt(raw, Slot(j, nk + 1, 0)),
                if k < n then 0 else ByteAt(img, Slot(j, nk, k - n)),
                if j == 0 then 0 else ByteAt(img, Slot(j - 1, nk, k)),
                if j == 0 || k < n then 0 else ByteAt(img, Slot(j - 1, nk, k - n)))
  }

  /** The rows of `img` are what the `y` filtered rows at the beginning of `raw` stand for. */
  ghost predicate Restores(raw: seq<byte>, img: seq<byte>, nk: nat, n: nat, y: nat) {
    && |img| == y * nk
    && forall j: nat, k: nat :: j < y && k < nk ==> RestoredAt(raw, img, nk, n, j, k)
  }

  lemma PredictRestores(f: byte, t: nat, a: byte, b: byte, c: byte)
    requires t <= 4
    ensures Restored(UChar(f as int + Predict(t, a, b, c) as int), f, t, a, b, c)
  {
    if t == 4 {
      var g := Predict(t, a, b, c);
      Difference(f, g);
      PaethChosen(a, b, c);
    }
  }

  lemma Difference(f: byte, g: byte)
    ensures (UChar(f as int + g as int) as int - f as int) % 256 == g as int
  {
  }

  lemma PaethChosen(a: int, b: int, c: int)
    ensures IsPaeth(PaethByDistance(a, b, c), a, b, c)
  {
  }

  lemma {:induction false} UnfilteredAt(t: nat, bpp: nat, prior: seq<byte>, raw: seq<byte>, k: nat)
    requires |prior| >= |raw| && k < |raw|
    ensures var u := Unfiltered(t, bpp, prior, raw);
            u[k] == UChar(raw[k] as int + Predict(t, Left(u, k, bpp), prior[k], Left(prior, k, bpp)) as int)
    decreases |raw|
  {
    hide UChar, Predict;
    if k < |raw| - 1 {
      UnfilteredAt(t, bpp, prior, raw[..|raw| - 1], k);
    }
  }

  // ---- Rows --------------------------------------------------------------------------------

  /** Row `j` of the image is the reconstructed row, with alpha bytes if wanted. */
  lemma {:induction false} RowInImage(raw: seq<byte>, x: nat, n: nat, o: nat, y: nat, j: nat)
    requires Start(y, Start(x, n) + 1) <= |raw| && j < y && (o == n || o == n + 1)
    ensures Start(j + 1, Start(x, n) + 1) <= |raw|
    ensures Start(j, Start(x, o)) + Start(x, o) <= |ImageRows(raw, x, n, o, y)|
    ensures ImageRows(raw, x, n, o, y)[Start(j, Start(x, o))..Start(j, Start(x, o)) + Start(x, o)]
         == OutRow(ReconRow(raw, Start(x, n), n, j), x, n, o)
    decreases y
  {
    hide Start, ReconRow, Unfiltered, OutRow;
    RowsInside(j, y, Start(x, n) + 1);
    RowsInside(j, y, Start(x, o));
    RowsInside(y - 1, y, Start(x, n) + 1);
    ImageStep(raw, x, n, o, y);
    if j < y - 1 {
      RowInImage(raw, x, n, o, y - 1, j);
    }
  }

  lemma ImageStep(raw: seq<byte>, x: nat, n: nat, o: nat, y: nat)
    requires y > 0 && Start(y, Start(x, n) + 1) <= |raw| && Start(y - 1, Start(x, n) + 1) <= |raw| && (o == n || o == n + 1)
    ensures Start(y, Start(x, o)) == Start(y - 1, Start(x, o)) + Start(x, o)
    ensures ImageRows(raw, x, n, o, y) == ImageRows(raw, x, n, o, y - 1) + OutRow(ReconRow(raw, Start(x, n), n, y - 1), x, n, o)
  {
    hide ReconRow, OutRow;
  }

  lemma {:induction false} FilterSmall(raw: seq<byte>, nk: nat, y: nat, j: nat)
    requires Start(y, nk + 1) <= |raw| && FiltersOk(raw, nk, y) && j < y
    ensures Start(j + 1, nk + 1) <= |raw| && FilterOf(raw, nk, j) <= 4
    decreases y
  {
    if j < y - 1 {
      FilterSmall(raw, nk, y - 1, j);
    }
  }

  lemma {:induction false} FiltersSmall(raw: seq<byte>, nk: nat, y: nat)
    requires y * (nk + 1) <= |raw|
    requires forall j: nat :: j < y ==> FilterAt(raw, nk, j)
    ensures Start(y, nk + 1) <= |raw| && FiltersOk(raw, nk, y)
    decreases y
  {
    StartIsProduct(y, nk + 1);
    if y > 0 {
      MulAtMost(y - 1, y, nk + 1);
      FiltersSmall(raw, nk, y - 1);
      StartIsProduct(y - 1, nk + 1);
      assert FilterAt(raw, nk, y - 1);
    }
  }

  /** The filter byte of row `j` names a filter. */
  predicate FilterAt(raw: seq<byte>, nk: nat, j: nat) {
    j * (nk + 1) < |raw| && raw[j * (nk + 1)] <= 4
  }

  lemma RowPlace(raw: seq<byte>, x: nat, n: nat, o: nat, y: nat, j: nat, k: nat)
    requires Start(y, Start(x, n) + 1) <= |raw| && j < y && k < Start(x, o) && (o == n || o == n + 1)
    ensures var w, img := Start(x, o), ImageRows(raw, x, n, o, y);
            && Start(j + 1, Start(x, n) + 1) <= |raw| && Slot(j, w, k) < |img|
            && ByteAt(img, Slot(j, w, k)) == OutRow(ReconRow(raw, Start(x, n), n, j), x, n, o)[k]
  {
    hide Start, ReconRow, ImageRows, OutRow;
    var w, img := Start(x, o), ImageRows(raw, x, n, o, y);
    RowInImage(raw, x, n, o, y, j);
    StartIsProduct(j, w);
    assert img[Start(j, w)..Start(j, w) + w][k] == img[Start(j, w) + k];
  }

  lemma RawPlace(raw: seq<byte>, nk: nat, j: nat, k: nat)
    requires Start(j + 1, nk + 1) <= |raw| && k < nk
    ensures Slot(j, nk + 1, k + 1) < |raw|
    ensures ByteAt(raw, Slot(j, nk + 1, k + 1)) == RawRow(raw, nk, j)[k] && ByteAt(raw, Slot(j, nk + 1, 0)) == FilterOf(raw, nk, j)
  {
    hide Start;
    StartIsProduct(j, nk + 1);
    StartNext(j, nk + 1);
  }

  /** One byte of one row. */
  lemma ByteRestored(raw: seq<byte>, x: nat, n: nat, y: nat, j: nat, k: nat)
    requires n > 0 && Start(y, Start(x, n) + 1) <= |raw| && FiltersOk(raw, Start(x, n), y)
    requires j < y && k < Start(x, n)
    ensures RestoredAt(raw, ImageRows(raw, x, n, n, y), Start(x, n), n, j, k)
  {
    hide Start, ReconRow, Unfiltered, ImageRows, FiltersOk, UChar, Predict, Restored, Slot, ByteAt, RawRow, FilterOf;
    var nk := Start(x, n);
    RowPlace(raw, x, n, n, y, j, k);
    RawPlace(raw, nk, j, k);
    FilterSmall(raw, nk, y, j);
    if k >= n {
      RowPlace(raw, x, n, n, y, j, k - n);
    }
    if j > 0 {
      RowPlace(raw, x, n, n, y, j - 1, k);
      if k >= n {
        RowPlace(raw, x, n, n, y, j - 1, k - n);
      }
    }
    RowByte(raw, nk, n, j, k);
    var row := ReconRow(raw, nk, n, j);
    var prior := if j == 0 then Zeros(nk) else ReconRow(raw, nk, n, j - 1);
    PredictRestores(RawRow(raw, nk, j)[k], FilterOf(raw, nk, j), Left(row, k, n), prior[k], Left(prior, k, n));
  }

  lemma RowByte(raw: seq<byte>, nk: nat, n: nat, j: nat, k: nat)
    requires Start(j + 1, nk + 1) <= |raw| && k < nk
    ensures var row, t := ReconRow(raw, nk, n, j), FilterOf(raw, nk, j);
            var prior := if j == 0 then Zeros(nk) else assert Start(j, nk + 1) <= |raw|; ReconRow(raw, nk, n, j - 1);
            row[k] == UChar(RawRow(raw, nk, j)[k] as int + Predict(t, Left(row, k, n), prior[k], Left(prior, k, n)) as int)
  {
    hide Unfiltered, UChar, Predict, Left, RawRow, FilterOf, Zeros;
    var prior := if j == 0 then Zeros(nk) else ReconRow(raw, nk, n, j - 1);
    UnfilteredAt(FilterOf(raw, nk, j), n, prior, RawRow(raw, nk, j), k);
  }

  /** The image that the reader computes is the one the standard defines. */
  lemma ImageRestores(raw: seq<byte>, x: nat, n: nat, y: nat)
    requires n > 0 && Start(y, Start(x, n) + 1) <= |raw| && FiltersOk(raw, Start(x, n), y)
    ensures Restores(raw, ImageRows(raw, x, n, n, y), x * n, n, y)
  {
    hide Start, ImageRows, FiltersOk, RestoredAt;
    StartIsProduct(x, n);
    StartIsProduct(y, x * n);
    forall j: nat, k: nat | j < y && k < x * n
      ensures RestoredAt(raw, ImageRows(raw, x, n, n, y), x * n, n, j, k)
    {
      ByteRestored(raw, x, n, y, j, k);
    }
  }

  // ---- The filtered rows determine the image -----------------------------------------------

  lemma OneResult(v: byte, w: byte, f: byte, t: nat, a: byte, b: byte, c: byte)
    requires Restored(v, f, t, a, b, c) && Restored(w, f, t, a, b, c)
    ensures v == w
  {
    if t == 4 {
      OnePaeth((v as int - f as int) % 256, (w as int - f as int) % 256, a, b, c);
      SameDifference(v, w, f);
    }
  }

  lemma OnePaeth(g: int, h: int, a: int, b: int, c: int)
    requires IsPaeth(g, a, b, c) && IsPaeth(h, a, b, c)
    ensures g == h
  {
    hide Far;
  }

  lemma SameDifference(v: byte, w: byte, f: byte)
    requires (v as int - f as int) % 256 == (w as int - f as int) % 256
    ensures v == w
  {
  }

  lemma {:induction false} OneByte(raw: seq<byte>, img: seq<byte>, other: seq<byte>, nk: nat, n: nat, y: nat, j: nat, k: nat)
    requires n > 0 && Restores(raw, img, nk, n, y) && Restores(raw, other, nk, n, y) && j < y && k < nk
    ensures ByteAt(img, Slot(j, nk, k)) == ByteAt(other, Slot(j, nk, k))
    decreases j, k
  {
    hide Restored, Slot, ByteAt;
    assert RestoredAt(raw, img, nk, n, j, k) && RestoredAt(raw, other, nk, n, j, k);
    if k >= n {
      OneByte(raw, img, other, nk, n, y, j, k - n);
      if j > 0 {
        OneByte(raw, img, other, nk, n, y, j - 1, k - n);
      }
    }
    if j > 0 {
      OneByte(raw, img, other, nk, n, y, j - 1, k);
    }
    var at := Slot(j, nk, k);
    OneResult(ByteAt(img, at), ByteAt(other, at), ByteAt(raw, Slot(j, nk + 1, k + 1)), ByteAt(raw, Slot(j, nk + 1, 0)),
              if k < n then 0 else ByteAt(img, Slot(j, nk, k - n)),
              if j == 0 then 0 else ByteAt(img, Slot(j - 1, nk, k)),
              if j == 0 || k < n then 0 else ByteAt(img, Slot(j - 1, nk, k - n)));
  }

  lemma OneImage(raw: seq<byte>, img: seq<byte>, other: seq<byte>, nk: nat, n: nat, y: nat)
    requires n > 0 && Restores(raw, img, nk, n, y) && Restores(raw, other, nk, n, y)
    ensures img == other
  {
    hide RestoredAt;
    forall i | 0 <= i < |img|
      ensures img[i] == other[i]
    {
      RowAndColumn(i, nk, y);
      OneByte(raw, img, other, nk, n, y, i / nk, i % nk);
      assert Slot(i / nk, nk, i % nk) == i;
    }
  }

  lemma RowAndColumn(i: nat, nk: nat, y: nat)
    requires i < y * nk
    ensures nk > 0 && i / nk < y && i == (i / nk) * nk + i % nk
  {
    if i / nk >= y {
      MulAtMost(y, i / nk, nk);
    }
  }

  // ---- Files -------------------------------------------------------------------------------

  /** Exactly `y` filtered rows, and what they stand for. */
  ghost predicate RowsOf(raw: seq<byte>, img: seq<byte>, nk: nat, n: nat, y: nat) {
    && |raw| == y * (nk + 1) && (forall j: nat :: j < y ==> FilterAt(raw, nk, j))
    && Restores(raw, img, nk, n, y)
  }

  /** The file shows the image: header, data and end chunk; the data is a zlib stream of the filtered rows. */
  ghost predicate ShowsBy(f: seq<byte>, x: nat, y: nat, n: nat, img: seq<byte>, zlib: seq<byte>, raw: seq<byte>, tail: seq<byte>) {
    RowsOf(raw, img, x * n, n, y) && Laid(f, x, y, n, 0, zlib) && S.Sends(zlib, raw, tail)
  }

  ghost predicate Shows(f: seq<byte>, x: nat, y: nat, n: nat, img: seq<byte>) {
    exists zlib, raw, tail :: ShowsBy(f, x, y, n, img, zlib, raw, tail)
  }

  /** Sizes that the reader accepts. */
  predicate Small(f: seq<byte>, x: nat, y: nat, n: nat) {
    && 1 <= x <= 16777216 && 1 <= y <= 16777216 && 1 <= n <= 4 && x * y * n <= 1073741824
    && |f| <= 57 + 1073741824
  }

  lemma SmallLimits(x: nat, y: nat, n: nat, k: nat)
    requires x >= 1 && y >= 1 && 1 <= n <= 4 && x * y * n <= k
    ensures k / x / n >= y
  {
    var q := k / x;
    assert x * (y * n) == x * y * n;
    AtLeast(k, x, y * n);
    AtLeast(q, n, y);
  }

  lemma AtLeast(a: nat, d: nat, b: nat)
    requires d >= 1 && d * b <= a
    ensures a / d >= b
  {
    assert a == (a / d) * d + a % d;
    if a / d < b {
      MulAtMost(a / d + 1, b, d);
    }
  }

  lemma DataFits(raw: seq<byte>, x: nat, y: nat, n: nat)
    requires WithinLimits(x, y, n) && y * (x * n + 1) <= |raw| && forall j: nat :: j < y ==> FilterAt(raw, x * n, j)
    ensures DataOk(raw, x, y, n, n)
  {
    hide SizesOk, FiltersOk, Start, WithinLimits, FilterAt;
    LimitsPositive(x, y, n);
    SizesFollow(x, y, n);
    StartIsProduct(x, n);
    FiltersSmall(raw, x * n, y);
  }

  lemma RawSize(x: nat, y: nat, n: nat)
    requires 1 <= y <= 16777216 && x * y * n <= 1073741824
    ensures y * (x * n + 1) <= INT_MAX
  {
    assert y * (x * n + 1) == x * y * n + y;
  }

  /** The reader returns the image that the file shows. */
  method ReadShown(f: seq<byte>, ghost x: nat, ghost y: nat, ghost n: nat, ghost img: seq<byte>) returns (r: PngResult)
    requires Small(f, x, y, n) && Shows(f, x, y, n, img)
    ensures r == Image(x, y, n, n, img)
  {
    hide Laid, S.Sends, Restores, FilterAt, Inflated, Chunks, ImageRows, DataOk, Start;
    ghost var zlib, raw, tail :| ShowsBy(f, x, y, n, img, zlib, raw, tail);
    SmallLimits(x, y, n, 1073741824);
    RawSize(x, y, n);
    FileData(f, x, y, n, 0, zlib, raw, tail);
    RowsShow(raw, img, x, y, n);
    r := ReadPng(f, 0);
  }

  /** The reader finds header and data in the file. */
  lemma FileData(f: seq<byte>, x: nat, y: nat, n: nat, interlace: nat, zlib: seq<byte>, raw: seq<byte>, tail: seq<byte>)
    requires WithinLimits(x, y, n) && |f| <= 57 + 1073741824 && interlace <= 1 && |raw| <= INT_MAX
    requires Laid(f, x, y, n, interlace, zlib) && S.Sends(zlib, raw, tail)
    ensures SIGNATURE <= f && Chunks(f, 8, None, []) == Ready(Header(x, y, n, interlace == 1), zlib)
    ensures var z := Inflated(zlib, true); z.Done? && z.out == raw && z.pos <= 8 * |zlib|
  {
    hide Inflated, Chunks, S.IsStream;
    var blocks :| S.IsStream(zlib, blocks, raw, tail);
    InflateLaw.StreamMeans(zlib, blocks, raw, tail);
    StreamLong(zlib, blocks, raw, tail);
    LaidRead(f, x, y, n, interlace, zlib);
  }

  lemma RowsShow(raw: seq<byte>, img: seq<byte>, x: nat, y: nat, n: nat)
    requires WithinLimits(x, y, n) && RowsOf(raw, img, x * n, n, y)
    ensures DataOk(raw, x, y, n, n) && ImageRows(raw, x, n, n, y) == img
  {
    hide Restores, ImageRows, FilterAt, Start, SizesOk, FiltersOk, WithinLimits;
    LimitsPositive(x, y, n);
    DataFits(raw, x, y, n);
    ImageRestores(raw, x, n, y);
    OneImage(raw, ImageRows(raw, x, n, n, y), img, x * n, n, y);
  }

  lemma StreamLong(z: seq<byte>, blocks: seq<S.Block>, data: seq<byte>, tail: seq<byte>)
    requires S.IsStream(z, blocks, data, tail)
    ensures |z| > 0
  {
  }

  /** The pixels row by row. */
  lemma {:induction false} PixelRowsAt(pixels: seq<byte>, stride: nat, nk: nat, y: nat, j: nat, k: nat)
    requires RowsFit(pixels, stride, nk, y) && j < y && k < nk
    ensures Slot(j, nk, k) < |PixelRows(pixels, stride, nk, y)| && Slot(j, stride, k) < |pixels|
    ensures ByteAt(PixelRows(pixels, stride, nk, y), Slot(j, nk, k)) == ByteAt(pixels, Slot(j, stride, k))
    decreases y
  {
    hide Start, PixelRows;
    StartIsProduct(j, nk);
    StartNext(y - 1, nk);
    assert RowFits(pixels, stride, nk, y - 1) && RowFits(pixels, stride, nk, j);
    FewerRowsFit(pixels, stride, nk, y - 1, y);
    PixelRowsStep(pixels, stride, nk, y);
    if j < y - 1 {
      PixelRowsAt(pixels, stride, nk, y - 1, j, k);
    }
  }

  lemma PixelRowsStep(pixels: seq<byte>, stride: nat, nk: nat, y: nat)
    requires y > 0 && RowsFit(pixels, stride, nk, y) && RowsFit(pixels, stride, nk, y - 1) && RowFits(pixels, stride, nk, y - 1)
    ensures PixelRows(pixels, stride, nk, y) == PixelRows(pixels, stride, nk, y - 1) + Row(pixels, stride, nk, y - 1)
  {
    hide Row;
  }

  /** What the writer writes shows the image it was given. */
  lemma WrittenShows(out: seq<byte>, pixels: seq<byte>, stride: nat, x: nat, y: nat, n: nat, force: int)
    requires Writable(pixels, stride, x, y, n) && Wrote(out, pixels, stride, x, y, n, force)
    ensures Shows(out, x, y, n, PixelRows(pixels, RowStride(stride, x * n), x * n, y))
  {
    hide Laid, S.Sends, RowsOf, Inflated, FilteredRows, PixelRows, Start, RowStride, FileBytes, Stubborn, StoredSize, RowsFit,
      Checksum, Trailer;
    var st := RowStride(stride, x * n);
    var zlib, filters :| FileOf(out, pixels, st, x, y, n, force, zlib, filters);
    var raw := Inflated(zlib, true).out;
    RowsShown(raw, pixels, st, x, y, n, filters);
    assert ShowsBy(out, x, y, n, PixelRows(pixels, st, x * n, y), zlib, raw, zlib[|zlib| - 4..]);
  }

  lemma RowsShown(raw: seq<byte>, pixels: seq<byte>, stride: nat, x: nat, y: nat, n: nat, filters: seq<byte>)
    requires n > 0 && RowsFit(pixels, stride, x * n, y) && |filters| == y && forall j :: 0 <= j < y ==> filters[j] <= 4
    requires raw == FilteredRows(pixels, stride, x * n, n, filters, y)
    ensures RowsOf(raw, PixelRows(pixels, stride, x * n, y), x * n, n, y)
  {
    hide Restores, FilteredRows, PixelRows, Start, RowsFit, FiltersOk, ImageRows;
    StartIsProduct(x, n);
    StartIsProduct(y, x * n + 1);
    ImageRestored(raw, pixels, stride, x, n, filters, y, y);
    ImageRestores(raw, x, n, y);
    forall j: nat | j < y
      ensures FilterAt(raw, x * n, j)
    {
      FilterSmall(raw, x * n, y, j);
      StartIsProduct(j, x * n + 1);
      StartNext(j, x * n + 1);
    }
  }

  // ---- Opaque pixels -----------------------------------------------------------------------

  /** Byte `b` of pixel `i` when an alpha byte is added. */
  lemma {:induction false} AlphaAt(row: seq<byte>, n: nat, x: nat, i: nat, b: nat)
    requires |row| == Start(x, n) && i < x && b <= n
    ensures Slot(i, n + 1, b) < |WithAlpha(row, n, x)|
    ensures ByteAt(WithAlpha(row, n, x), Slot(i, n + 1, b)) == if b < n then ByteAt(row, Slot(i, n, b)) else 255
    decreases x
  {
    hide WithAlpha, Start;
    var less := Start(x - 1, n);
    StartNext(x - 1, n);
    StartNext(x - 1, n + 1);
    AlphaLast(row, n, x);
    StartIsProduct(i, n);
    StartIsProduct(i, n + 1);
    if i < x - 1 {
      AlphaAt(row[..less], n, x - 1, i, b);
      StartMonotone(i, x - 1, n);
    }
  }

  lemma AlphaLast(row: seq<byte>, n: nat, x: nat)
    requires x > 0 && |row| == Start(x, n)
    ensures Start(x - 1, n) <= |row|
    ensures WithAlpha(row, n, x) == WithAlpha(row[..Start(x - 1, n)], n, x - 1) + row[Start(x - 1, n)..] + [255]
  {
  }

  lemma SlotSlot(j: nat, x: nat, i: nat, n: nat, b: nat)
    ensures Slot(j, x * n, Slot(i, n, b)) == Slot(Slot(j, x, i), n, b)
  {
  }

  /** Asked for one channel more than the file has, the reader adds opaque alpha bytes and changes nothing else. */
  lemma AlphaImage(raw: seq<byte>, x: nat, n: nat, y: nat, j: nat, i: nat, b: nat)
    requires Start(y, Start(x, n) + 1) <= |raw| && j < y && i < x && b <= n
    ensures Slot(Slot(j, x, i), n + 1, b) < |ImageRows(raw, x, n, n + 1, y)|
    ensures ByteAt(ImageRows(raw, x, n, n + 1, y), Slot(Slot(j, x, i), n + 1, b))
         == if b < n then ByteAt(ImageRows(raw, x, n, n, y), Slot(Slot(j, x, i), n, b)) else 255
  {
    hide Start, ReconRow, ImageRows, WithAlpha, Slot, ByteAt;
    RowInImage(raw, x, n, n, y, j);
    SlotInside(i, x, n + 1, b);
    RowPlace(raw, x, n, n + 1, y, j, Slot(i, n + 1, b));
    AlphaAt(ReconRow(raw, Start(x, n), n, j), n, x, i, b);
    SlotSlot(j, x, i, n + 1, b);
    ByteIs(WithAlpha(ReconRow(raw, Start(x, n), n, j), n, x), Slot(i, n + 1, b));
    if b < n {
      SlotInside(i, x, n, b);
      RowPlace(raw, x, n, n, y, j, Slot(i, n, b));
      SlotSlot(j, x, i, n, b);
      ByteIs(ReconRow(raw, Start(x, n), n, j), Slot(i, n, b));
    }
  }

  lemma ByteIs(s: seq<byte>, i: nat)
    requires i < |s|
    ensures ByteAt(s, i) == s[i]
  {
  }

  lemma SlotInside(i: nat, x: nat, n: nat, b: nat)
    requires i < x && b < n
    ensures Slot(i, n, b) < Start(x, n) == x * n
  {
    hide Start;
    StartIsProduct(x, n);
    MulAtMost(i + 1, x, n);
  }

  // ---- Interlacing -------------------------------------------------------------------------

  /** The sizes of the seven reduced images. */
  function Wide(p: nat, w: nat): nat
    requires p < 7
  {
    [(w + 7) / 8, (w + 3) / 8, (w + 3) / 4, (w + 1) / 4, (w + 1) / 2, w / 2, w][p]
  }

  function High(p: nat, h: nat): nat
    requires p < 7
  {
    [(h + 7) / 8, (h + 7) / 8, (h + 3) / 8, (h + 3) / 4, (h + 1) / 4, (h + 1) / 2, h / 2][p]
  }

  /** The reduced image that holds a pixel: odd rows are in the last one; of the even rows, odd columns in the one
      before; and so on to every eighth pixel of every eighth row in the first. */
  function Holder(px: nat, py: nat): (p: nat)
    ensures p < 7
  {
    if py % 2 == 1 then 6
    else if px % 2 == 1 then 5
    else if py % 4 == 2 then 4
    else if px % 4 == 2 then 3
    else if py % 8 == 4 then 2
    else if px % 8 == 4 then 1
    else 0
  }

  /** The place of the pixel there. */
  function Place(px: nat, py: nat, w: nat): nat {
    if py % 2 == 1 then Slot(py / 2, w, px)
    else if px % 2 == 1 then Slot(py / 2, w / 2, px / 2)
    else if py % 4 == 2 then Slot(py / 4, (w + 1) / 2, px / 2)
    else if px % 4 == 2 then Slot(py / 4, (w + 1) / 4, px / 4)
    else if py % 8 == 4 then Slot(py / 8, (w + 3) / 4, px / 4)
    else if px % 8 == 4 then Slot(py / 8, (w + 3) / 8, px / 8)
    else Slot(py / 8, (w + 7) / 8, px / 8)
  }

  /** Byte `b` of the pixel is the byte of its reduced image. */
  predicate Woven(img: seq<byte>, imgs: seq<seq<byte>>, w: nat, ob: nat, px: nat, py: nat, b: nat) {
    && |imgs| == 7
    && var p, at := Holder(px, py), Place(px, py, w);
       var i, k := Slot(Slot(py, w, px), ob, b), Slot(at, ob, b);
       i < |img| && k < |imgs[p]| && img[i] == imgs[p][k]
  }

  /** The image is woven of the seven reduced images. */
  ghost predicate Weaves(img: seq<byte>, imgs: seq<seq<byte>>, w: nat, h: nat, ob: nat) {
    && |img| == w * h * ob
    && forall px: nat, py: nat, b: nat :: px < w && py < h && b < ob ==> Woven(img, imgs, w, ob, px, py, b)
  }

  lemma SizesPlain(p: nat, w: nat, h: nat)
    requires p < 7 && w >= 1 && h >= 1
    ensures PassW(p, w) == Wide(p, w) && PassH(p, h) == High(p, h)
  {
    if p == 6 {
      assert (w - 0 + 1 - 1) / 1 == w;
    }
  }

  lemma PlacePlain(px: nat, py: nat, w: nat)
    requires w >= 1
    ensures var p := PassOf(px, py);
            Holder(px, py) == p && Place(px, py, w) == Cell(px / XSpc(p), py / YSpc(p), PassW(p, w))
  {
    hide PassW, Wide;
    var p := PassOf(px, py);
    SizesPlain(p, w, 1);
    WidePlain(w);
    if p == 6 {
      assert px / 1 == px;
    }
  }

  lemma WidePlain(w: nat)
    ensures Wide(0, w) == (w + 7) / 8 && Wide(1, w) == (w + 3) / 8 && Wide(2, w) == (w + 3) / 4 && Wide(3, w) == (w + 1) / 4
    ensures Wide(4, w) == (w + 1) / 2 && Wide(5, w) == w / 2 && Wide(6, w) == w
  {
  }

  lemma PixelWoven(img: seq<byte>, imgs: seq<seq<byte>>, w: nat, h: nat, ob: nat, px: nat, py: nat, b: nat)
    requires w >= 1 && h >= 1 && px < w && py < h && b < ob && |imgs| == 7
    requires PixelFrom(img, imgs[PassOf(px, py)], PassOf(px, py), px, py, w, h, ob)
    ensures Woven(img, imgs, w, ob, px, py, b)
  {
    hide PassOf, PassW, XSpc, YSpc, Start, Holder, Place;
    var p := PassOf(px, py);
    PlacePlain(px, py, w);
    var k, m := Cell(px, py, w), Place(px, py, w);
    StartIsProduct(k, ob);
    StartIsProduct(m, ob);
    StartNext(k, ob);
    StartNext(m, ob);
    assert Pixel(img, k, ob)[b] == Pixel(imgs[p], m, ob)[b];
  }

  /** All passes in place: the image is woven of them. */
  lemma PassesWeave(img: seq<byte>, imgs: seq<seq<byte>>, w: nat, h: nat, ob: nat)
    requires w >= 1 && h >= 1 && |imgs| == 7 && |img| == w * h * ob && PassesPlaced(img, imgs, 7, w, h, ob)
    ensures Weaves(img, imgs, w, h, ob)
  {
    hide PassOf, PixelFrom, Woven;
    forall px: nat, py: nat, b: nat | px < w && py < h && b < ob
      ensures Woven(img, imgs, w, ob, px, py, b)
    {
      PixelWoven(img, imgs, w, h, ob, px, py, b);
    }
  }

  lemma OneWeave(img: seq<byte>, other: seq<byte>, imgs: seq<seq<byte>>, w: nat, h: nat, ob: nat)
    requires Weaves(img, imgs, w, h, ob) && Weaves(other, imgs, w, h, ob)
    ensures img == other
  {
    hide Woven;
    forall i | 0 <= i < |img|
      ensures img[i] == other[i]
    {
      assert w * h == h * w;
      RowAndColumn(i, ob, w * h);
      RowAndColumn(i / ob, w, h);
      var px, py, b := i / ob % w, i / ob / w, i % ob;
      assert Woven(img, imgs, w, ob, px, py, b) && Woven(other, imgs, w, ob, px, py, b);
      SameByte(img, other, imgs, w, ob, px, py, b);
      SlotIs(i, i / ob, ob, b);
      SlotIs(i / ob, py, w, px);
    }
  }

  lemma SlotIs(i: nat, q: nat, w: nat, k: nat)
    requires i == q * w + k
    ensures Slot(q, w, k) == i
  {
  }

  lemma SameByte(img: seq<byte>, other: seq<byte>, imgs: seq<seq<byte>>, w: nat, ob: nat, px: nat, py: nat, b: nat)
    requires Woven(img, imgs, w, ob, px, py, b) && Woven(other, imgs, w, ob, px, py, b)
    ensures var i := Slot(Slot(py, w, px), ob, b); i < |img| && i < |other| && img[i] == other[i]
  {
    hide Slot, Holder, Place;
  }

  // ---- Interlaced files --------------------------------------------------------------------

  function Joined(parts: seq<seq<byte>>): seq<byte> {
    if parts == [] then [] else Joined(parts[..|parts| - 1]) + parts[|parts| - 1]
  }

  /** A reduced image without pixels takes no data; any other is sent as rows like a whole image. */
  ghost predicate PartOf(part: seq<byte>, img: seq<byte>, w: nat, h: nat, n: nat) {
    if w == 0 || h == 0 then part == [] && img == [] else RowsOf(part, img, w * n, n, h)
  }

  ghost predicate PartsOf(parts: seq<seq<byte>>, imgs: seq<seq<byte>>, x: nat, y: nat, n: nat) {
    |parts| == 7 && |imgs| == 7 && forall p: nat :: p < 7 ==> PartOf(parts[p], imgs[p], Wide(p, x), High(p, y), n)
  }

  /** The file shows the image interlaced: the stream carries the rows of the seven reduced images. */
  ghost predicate ShowsWovenBy(f: seq<byte>, x: nat, y: nat, n: nat, img: seq<byte>, zlib: seq<byte>,
                               parts: seq<seq<byte>>, imgs: seq<seq<byte>>, tail: seq<byte>)
  {
    Laid(f, x, y, n, 1, zlib) && S.Sends(zlib, Joined(parts), tail) && PartsOf(parts, imgs, x, y, n) && Weaves(img, imgs, x, y, n)
  }

  ghost predicate ShowsWoven(f: seq<byte>, x: nat, y: nat, n: nat, img: seq<byte>) {
    exists zlib, parts, imgs, tail :: ShowsWovenBy(f, x, y, n, img, zlib, parts, imgs, tail)
  }

  lemma {:induction false} JoinedAt(parts: seq<seq<byte>>, p: nat)
    requires p < |parts|
    ensures Joined(parts[..p + 1]) == Joined(parts[..p]) + parts[p]
    ensures Joined(parts[..p + 1]) <= Joined(parts)
    decreases |parts| - p
  {
    assert parts[..p + 1][..p] == parts[..p];
    if p + 1 < |parts| {
      JoinedAt(parts, p + 1);
    } else {
      assert parts[..p + 1] == parts;
    }
  }

  lemma PassEnd(p: nat, w: nat, h: nat, n: nat)
    requires p < 7 && w >= 1 && h >= 1
    ensures PassOffset(p + 1, w, h, n) == PassOffset(p, w, h, n) + PassSize(p, w, h, n)
    ensures PassPixels(p + 1, w, h) == PassPixels(p, w, h) + Wide(p, w) * High(p, h)
    ensures PassSize(p, w, h, n)
         == if Wide(p, w) == 0 || High(p, h) == 0 then 0 else High(p, h) * (Wide(p, w) * n + 1)
  {
    hide Start, Wide, High, PassW, PassH;
    SizesPlain(p, w, h);
    StartIsProduct(PassW(p, w), n);
    StartIsProduct(PassH(p, h), Wide(p, w) * n + 1);
  }

  /** The data of each pass begins where the parts before it end. */
  lemma {:induction false} OffsetOf(parts: seq<seq<byte>>, imgs: seq<seq<byte>>, x: nat, y: nat, n: nat, p: nat)
    requires x >= 1 && y >= 1 && PartsOf(parts, imgs, x, y, n) && p <= 7
    ensures PassOffset(p, x, y, n) == |Joined(parts[..p])|
    decreases p
  {
    hide Wide, High, PassSize, Restores, FilterAt, Joined;
    if p > 0 {
      OffsetOf(parts, imgs, x, y, n, p - 1);
      JoinedAt(parts, p - 1);
      PassEnd(p - 1, x, y, n);
      assert PartOf(parts[p - 1], imgs[p - 1], Wide(p - 1, x), High(p - 1, y), n);
    } else {
      NothingJoined(parts);
    }
  }

  lemma NothingJoined(parts: seq<seq<byte>>)
    ensures Joined(parts[..0]) == []
  {
  }

  lemma Smaller(p: nat, x: nat, y: nat)
    requires p < 7
    ensures Wide(p, x) <= x && High(p, y) <= y
  {
  }

  lemma PartSize(part: seq<byte>, img: seq<byte>, w: nat, h: nat, n: nat)
    requires PartOf(part, img, w, h, n)
    ensures |part| <= n * (w * h) + h
  {
    hide Restores, FilterAt;
    assert h * (w * n + 1) == n * (w * h) + h;
  }

  lemma {:induction false} PartsSize(parts: seq<seq<byte>>, imgs: seq<seq<byte>>, x: nat, y: nat, n: nat, p: nat)
    requires x >= 1 && y >= 1 && PartsOf(parts, imgs, x, y, n) && p <= 7
    ensures |Joined(parts[..p])| <= n * PassPixels(p, x, y) + p * y
    decreases p
  {
    hide Wide, High, Restores, FilterAt, Joined, PassPixels, PartOf, PassSize, PassOffset;
    if p > 0 {
      PartsSize(parts, imgs, x, y, n, p - 1);
      JoinedAt(parts, p - 1);
      PassEnd(p - 1, x, y, n);
      assert PartOf(parts[p - 1], imgs[p - 1], Wide(p - 1, x), High(p - 1, y), n);
      PartSize(parts[p - 1], imgs[p - 1], Wide(p - 1, x), High(p - 1, y), n);
      Smaller(p - 1, x, y);
      Spread(n, PassPixels(p - 1, x, y), Wide(p - 1, x) * High(p - 1, y));
    } else {
      NothingJoined(parts);
      assert PassPixels(0, x, y) == 0 by { NoPixels(x, y); }
    }
  }

  lemma NoPixels(x: nat, y: nat)
    requires x >= 1 && y >= 1
    ensures PassPixels(0, x, y) == 0
  {
  }

  lemma Spread(n: nat, a: nat, b: nat)
    ensures n * (a + b) == n * a + n * b
  {
  }

  lemma PartsFit(parts: seq<seq<byte>>, imgs: seq<seq<byte>>, x: nat, y: nat, n: nat)
    requires 1 <= x && 1 <= y <= 16777216 && x * y * n <= 1073741824 && PartsOf(parts, imgs, x, y, n)
    ensures |Joined(parts)| <= INT_MAX
  {
    hide PartsOf, Joined, PassPixels;
    PartsSize(parts, imgs, x, y, n, 7);
    assert |parts| == 7 by { SevenParts(parts, imgs, x, y, n); }
    assert parts[..7] == parts;
    PixelsPartition(x, y);
    assert n * (x * y) == x * y * n;
  }

  lemma SevenParts(parts: seq<seq<byte>>, imgs: seq<seq<byte>>, x: nat, y: nat, n: nat)
    requires PartsOf(parts, imgs, x, y, n)
    ensures |parts| == 7 && |imgs| == 7
  {
  }

  /** Rows are read from longer data just as well. */
  lemma PartDecodes(data: seq<byte>, part: seq<byte>, img: seq<byte>, x: nat, y: nat, n: nat)
    requires part <= data && RowsOf(part, img, x * n, n, y) && WithinLimits(x, y, n)
    ensures DataOk(data, x, y, n, n) && ImageRows(data, x, n, n, y) == img
  {
    hide ImageRows, Start, SizesOk, FiltersOk, WithinLimits, RestoredAt, FilterAt;
    LimitsPositive(x, y, n);
    forall j: nat | j < y
      ensures FilterAt(data, x * n, j)
    {
      FilterKept(data, part, x * n, j);
    }
    DataFits(data, x, y, n);
    ImageRestores(data, x, n, y);
    var other := ImageRows(data, x, n, n, y);
    forall j: nat, k: nat | j < y && k < x * n
      ensures RestoredAt(part, other, x * n, n, j, k)
    {
      assert RestoredAt(data, other, x * n, n, j, k);
      RestoredKept(data, part, other, x * n, n, y, j, k);
    }
    OneImage(part, other, img, x * n, n, y);
  }

  lemma FilterKept(data: seq<byte>, part: seq<byte>, nk: nat, j: nat)
    requires part <= data && FilterAt(part, nk, j)
    ensures FilterAt(data, nk, j)
  {
    assert data[j * (nk + 1)] == part[j * (nk + 1)];
  }

  lemma RestoredKept(data: seq<byte>, part: seq<byte>, img: seq<byte>, nk: nat, n: nat, y: nat, j: nat, k: nat)
    requires part <= data && |part| == y * (nk + 1) && j < y && k < nk && RestoredAt(data, img, nk, n, j, k)
    ensures RestoredAt(part, img, nk, n, j, k)
  {
    hide Restored;
    MulAtMost(j + 1, y, nk + 1);
    assert part[Slot(j, nk + 1, k + 1)] == data[Slot(j, nk + 1, k + 1)];
    assert part[Slot(j, nk + 1, 0)] == data[Slot(j, nk + 1, 0)];
  }

  lemma ReducedLimits(w: nat, h: nat, x: nat, y: nat, n: nat)
    requires 1 <= w <= x <= 16777216 && 1 <= h <= y <= 16777216 && 1 <= n <= 4 && x * y * n <= 1073741824
    ensures WithinLimits(w, h, n)
  {
    MulAtMost(w, x, h);
    MulAtMost(h, y, x);
    MulAtMost(w * h, x * y, n);
    SmallLimits(w, h, n, 1073741824);
  }

  /** Pass `p` decodes to its reduced image. */
  lemma PassDecodes(parts: seq<seq<byte>>, imgs: seq<seq<byte>>, x: nat, y: nat, n: nat, p: nat)
    requires 1 <= x <= 16777216 && 1 <= y <= 16777216 && 1 <= n <= 4 && x * y * n <= 1073741824
    requires PartsOf(parts, imgs, x, y, n) && p < 7
    ensures var raw := Joined(parts); PassOk(raw, p, x, y, n, n) && PassImage(raw, p, x, y, n, n) == imgs[p]
  {
    hide Wide, High, RowsOf, Joined, PassSize, PassOffset, PassW, PassH, DataOk, ImageRows, WithinLimits;
    var raw, w, h := Joined(parts), Wide(p, x), High(p, y);
    OffsetOf(parts, imgs, x, y, n, p);
    JoinedAt(parts, p);
    SizesPlain(p, x, y);
    Smaller(p, x, y);
    assert PartOf(parts[p], imgs[p], w, h, n);
    var at := |Joined(parts[..p])|;
    StartsWith(raw, Joined(parts[..p]), parts[p]);
    if w > 0 && h > 0 {
      ReducedLimits(w, h, x, y, n);
      PartDecodes(raw[at..], parts[p], imgs[p], w, h, n);
    }
  }

  lemma StartsWith(s: seq<byte>, a: seq<byte>, b: seq<byte>)
    requires a + b <= s
    ensures |a| <= |s| && b <= s[|a|..]
  {
    assert (a + b)[|a|..] == b;
  }

  lemma AllPasses(parts: seq<seq<byte>>, imgs: seq<seq<byte>>, x: nat, y: nat, n: nat)
    requires 1 <= x <= 16777216 && 1 <= y <= 16777216 && 1 <= n <= 4 && x * y * n <= 1073741824
    requires PartsOf(parts, imgs, x, y, n)
    ensures Decodable(Header(x, y, n, true), Joined(parts), 0)
    ensures forall p :: 0 <= p < 7 ==> PassOk(Joined(parts), p, x, y, n, n) && PassImage(Joined(parts), p, x, y, n, n) == imgs[p]
  {
    hide PartsOf, Joined, PassOk, PassImage, Mad3Valid, WithinLimits;
    SevenParts(parts, imgs, x, y, n);
    ReducedLimits(x, y, x, y, n);
    CreationFits(x, y, n);
    forall p | 0 <= p < 7
      ensures PassOk(Joined(parts), p, x, y, n, n) && PassImage(Joined(parts), p, x, y, n, n) == imgs[p]
    {
      PassDecodes(parts, imgs, x, y, n, p);
    }
  }

  lemma CreationFits(x: nat, y: nat, n: nat)
    requires WithinLimits(x, y, n)
    ensures Mad3Valid(x, y, n, 0)
  {
    hide WithinLimits;
    SizesFollow(x, y, n);
  }

  /** The reader returns the image that an interlaced file shows. */
  method ReadWoven(f: seq<byte>, ghost x: nat, ghost y: nat, ghost n: nat, ghost img: seq<byte>) returns (r: PngResult)
    requires Small(f, x, y, n) && ShowsWoven(f, x, y, n, img)
    ensures r == Image(x, y, n, n, img)
  {
    hide Laid, S.Sends, PartsOf, Weaves, Inflated, Chunks, Joined, Decodable, PassImage, PassOk, PassesPlaced;
    ghost var zlib, parts, imgs, tail :| ShowsWovenBy(f, x, y, n, img, zlib, parts, imgs, tail);
    SmallLimits(x, y, n, 1073741824);
    SevenParts(parts, imgs, x, y, n);
    PartsFit(parts, imgs, x, y, n);
    FileData(f, x, y, n, 1, zlib, Joined(parts), tail);
    AllPasses(parts, imgs, x, y, n);
    r := ReadPng(f, 0);
    WovenOf(r, img, parts, imgs, x, y, n);
  }

  lemma WovenOf(r: PngResult, img: seq<byte>, parts: seq<seq<byte>>, imgs: seq<seq<byte>>, x: nat, y: nat, n: nat)
    requires x >= 1 && y >= 1 && RightImage(r, Header(x, y, n, true), Joined(parts), 0) && |imgs| == 7
    requires Weaves(img, imgs, x, y, n)
    requires forall p :: 0 <= p < 7 ==> PassOk(Joined(parts), p, x, y, n, n) && PassImage(Joined(parts), p, x, y, n, n) == imgs[p]
    ensures r == Image(x, y, n, n, img)
  {
    hide Joined, PassImage, PassOk, PassesPlaced, Weaves;
    var found :| PassImages(Joined(parts), found, 7, x, y, n, n) && PassesPlaced(r.pixels, found, 7, x, y, n) && |r.pixels| == x * y * n;
    assert found == imgs;
    PassesWeave(r.pixels, imgs, x, y, n);
    OneWeave(r.pixels, img, imgs, x, y, n);
  }
}
