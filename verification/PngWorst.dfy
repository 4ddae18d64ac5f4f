/** Which sizes of images always come back: exactly those that would fit the reader uncompressed. */
module PngWorst {
  import opened Bits
  import opened Layout
  import opened InflateSpec
  import opened WorstCase
  import opened WorstImage
  import opened ZlibRoundTrip
  import opened PngFilter
  import opened PngImage
  import opened PngFile
  import opened PngRoundTrip

  /** An unfiltered row is the row. */
  lemma NotFiltered(n: nat, prior: seq<byte>, row: seq<byte>)
    requires |prior| == |row|
    ensures Filtered(0, n, prior, row) == row
  {
  }

  lemma LettersFit(nk: nat, y: nat)
    ensures RowsFit(LetterPixels(y * nk), nk, nk, y)
  {
    forall j | 0 <= j < y
      ensures RowFits(LetterPixels(y * nk), nk, nk, j)
    {
      MulAtMost(j + 1, y, nk);
      assert (j + 1) * nk == j * nk + nk;
    }
  }

  lemma LetterLine(pixels: seq<byte>, nk: nat, n: nat, j: nat)
    requires RowsFit(pixels, nk, nk, j + 1)
    ensures j * nk + nk <= |pixels| && LineFor(pixels, nk, nk, n, j, 0) == pixels[j * nk..j * nk + nk]
  {
    hide Filtered;
    assert RowFits(pixels, nk, nk, j);
    assert j > 0 ==> RowFits(pixels, nk, nk, j - 1);
    NotFiltered(n, Above(pixels, nk, nk, j), Row(pixels, nk, nk, j));
  }

  lemma NoRows(pixels: seq<byte>, nk: nat, n: nat, filters: seq<byte>)
    ensures RowsFit(pixels, nk, nk, 0) && FilteredRows(pixels, nk, nk, n, filters, 0) == []
    ensures LetterRows([], nk) && LiteralCost([]) == 0
  {
  }

  /** Without filtering, the image of letters becomes rows of letters, whose bits can be counted. */
  lemma {:induction false} FilteredLetters(nk: nat, y: nat, n: nat, filters: seq<byte>, j: nat)
    requires j <= y && y <= |filters| && RowsFit(LetterPixels(y * nk), nk, nk, y)
    requires forall k :: 0 <= k < y ==> filters[k] == 0
    ensures var data := FilteredRows(LetterPixels(y * nk), nk, nk, n, filters, j);
            LetterRows(data, nk) && LiteralCost(data) >= 8 * |data| + Dear(j * nk)
    decreases j
  {
    hide FilteredRows, LetterRows, LiteralCost, Filtered, RowsFit, LetterPixels;
    var pixels := LetterPixels(y * nk);
    if j == 0 {
      FewerRowsFit(pixels, nk, nk, 0, y);
      NoRows(pixels, nk, n, filters);
    } else {
      FewerRowsFit(pixels, nk, nk, j - 1, y);
      FewerRowsFit(pixels, nk, nk, j, y);
      FilteredLetters(nk, y, n, filters, j - 1);
      FilteredStep(pixels, nk, nk, n, filters, j - 1);
      LetterLine(pixels, nk, n, j - 1);
      var data := FilteredRows(pixels, nk, nk, n, filters, j - 1);
      assert |data| == (j - 1) * (nk + 1) by { StartIsProduct(j - 1, nk + 1); }
      assert (j - 1) * nk + nk == j * nk;
      MulAtMost(j, y, nk);
      RowAdded(data, nk, y * nk, j - 1);
      assert |FilteredRows(pixels, nk, nk, n, filters, j)| == |data| + nk + 1;
    }
  }

  /** One letter in 251 takes nine bits, which is more than the overhead of stored blocks. */
  lemma Enough(size: nat, total: nat)
    requires 3 * size >= 2 * total && StoredSize(total) + 4 > MAX_IDAT
    ensures 8 * total + Dear(size) + 26 > 8 * StoredSize(total)
  {
    var blocks := (total + 32766) / 32767;
    assert 32767 * blocks <= total + 32766;
    assert 251 * Dear(size) >= size;
  }

  lemma StubbornLetters(nk: nat, y: nat, n: nat, filters: seq<byte>)
    requires nk >= 2 && y == |filters| && StoredSize(y * (nk + 1)) + 4 > MAX_IDAT
    requires RowsFit(LetterPixels(y * nk), nk, nk, y)
    requires forall k :: 0 <= k < y ==> filters[k] == 0
    ensures Stubborn(FilteredRows(LetterPixels(y * nk), nk, nk, n, filters, y))
    ensures |FilteredRows(LetterPixels(y * nk), nk, nk, n, filters, y)| == y * (nk + 1)
  {
    hide FilteredRows, LetterRows, LiteralCost, RowsFit, LetterPixels, NoRepeats, StoredSize, Dear;
    FilteredLetters(nk, y, n, filters, y);
    var data := FilteredRows(LetterPixels(y * nk), nk, nk, n, filters, y);
    LettersNeverRepeat(data, nk);
    StartIsProduct(y, nk + 1);
    MulAtMost(2, nk, y);
    assert y * (nk + 1) == y * nk + y;
    Enough(y * nk, y * (nk + 1));
  }

  /** With the writer's filter forced to none, the file of the image of letters has the size of stored data. */
  lemma LetterFile(out: seq<byte>, x: nat, y: nat, n: nat)
    requires 1 <= x && 1 <= y && 1 <= n <= 4 && x * n >= 2 && StoredImage(x, y, n) > MAX_IDAT
    requires Writable(LetterPixels(y * (x * n)), 0, x, y, n) && Wrote(out, LetterPixels(y * (x * n)), 0, x, y, n, 0)
    ensures |out| == StoredImage(x, y, n) + FILE_OVERHEAD
  {
    hide ToTheLetter, FilteredRows, RowsFit, LetterPixels, Stubborn, Inflated, FileBytes, StoredSize, Start, Cheapest, LineFor;
    var nk := x * n;
    var pixels := LetterPixels(y * nk);
    var zlib, filters :| FileOf(out, pixels, nk, x, y, n, 0, zlib, filters);
    StubbornLetters(nk, y, n, filters) by { assert (nk + 1) * y == y * (nk + 1); }
  }

  /** An image of one byte a row is small. */
  lemma ThinImage(x: nat, y: nat, n: nat)
    requires WithinLimits(x, y, n) && x * n < 2
    ensures StoredImage(x, y, n) <= MAX_IDAT
  {
    hide StoredSize;
    assert x == 1 && n == 1;
    assert (x * n + 1) * y == 2 * y;
    ThinSize(y);
  }

  lemma ThinSize(y: nat)
    requires y <= MAX_DIMENSIONS
    ensures StoredSize(2 * y) + 4 <= MAX_IDAT
  {
  }

  /** For every size within the reader's limits there is an image that comes back only if every image of that
      size does: exactly if the rows stored without compression fit the reader. */
  method WorstRoundTrip(x: nat, y: nat, n: nat, level: int, crc: seq<byte> -> uint32)
    returns (pixels: seq<byte>, file: seq<byte>, r: PngResult)
    requires WithinLimits(x, y, n)
    ensures Writable(pixels, 0, x, y, n)
    ensures r.Image? <==> StoredImage(x, y, n) <= MAX_IDAT
    ensures r.Image? || r.BadPng?
    ensures StoredImage(x, y, n) > MAX_IDAT ==> |file| == StoredImage(x, y, n) + FILE_OVERHEAD
  {
    hide WithinLimits, StoredImage, LetterPixels, RowsFit, Wrote, PixelRows;
    LimitsPositive(x, y, n);
    SizeFits(x, y, n);
    pixels := LetterPixels(y * (x * n));
    LettersFit(x * n, y);
    file, r := RoundTripPng(pixels, 0, x, y, n, 0, level, crc);
    if StoredImage(x, y, n) > MAX_IDAT {
      assert x * n >= 2 by {
        if x * n < 2 {
          ThinImage(x, y, n);
        }
      }
      LetterFile(file, x, y, n);
    }
  }

  /** The limits are met by an image that the reader refuses. */
  method RefusedImage(level: int, crc: seq<byte> -> uint32) returns (pixels: seq<byte>, file: seq<byte>, r: PngResult)
    ensures WithinLimits(0x100_0000, 16, 4) && Writable(pixels, 0, 0x100_0000, 16, 4)
    ensures r.BadPng? && |file| == 0x4000_0010 + 6 + 5 * 32770 + FILE_OVERHEAD
  {
    hide LetterPixels, RowsFit;
    pixels, file, r := WorstRoundTrip(0x100_0000, 16, 4, level, crc);
  }
}
