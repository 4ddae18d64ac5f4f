/** Whole images as filtered rows: `stbi__create_png_image_raw` for 8-bit samples, and the writer's
    row loop with its choice of filters. */
module PngImage {
  import opened Bits
  import opened Layout
  import opened PngFilter

  // ---- Size checks -------------------------------------------------------------------------

  /** `stbi__mul2sizes_valid` for non-negative factors. */
  predicate Mul2Valid(a: nat, b: nat) {
    b == 0 || a <= INT_MAX / b
  }

  predicate Mad2Valid(a: nat, b: nat, add: nat) {
    Mul2Valid(a, b) && a * b <= INT_MAX - add
  }

  predicate Mad3Valid(a: nat, b: nat, c: nat, add: nat) {
    Mul2Valid(a, b) && Mul2Valid(a * b, c) && a * b * c <= INT_MAX - add
  }

  /** All the checks an 8-bit image of this shape has to pass. */
  predicate SizesOk(x: nat, y: nat, n: nat, out_n: nat) {
    && Mad3Valid(x, y, out_n, 0)
    && Mad3Valid(n, x, 8, 7)
    && Mad2Valid(n * x, y, n * x)
    && Mad2Valid(n * x, 2, 0)
  }

  // ---- Reading -----------------------------------------------------------------------------

  /** The raw bytes of row `j`, without its filter byte. */
  function RawRow(raw: seq<byte>, nk: nat, j: nat): (r: seq<byte>)
    requires Start(j + 1, nk + 1) <= |raw|
    ensures |r| == nk
  {
    raw[Start(j, nk + 1) + 1..Start(j, nk + 1) + 1 + nk]
  }

  function FilterOf(raw: seq<byte>, nk: nat, j: nat): byte
    requires Start(j + 1, nk + 1) <= |raw|
  {
    raw[Start(j, nk + 1)]
  }

  /** Row `j` as the format defines it: each row is reconstructed from the one above. */
  function ReconRow(raw: seq<byte>, nk: nat, bpp: nat, j: nat): (r: seq<byte>)
    requires Start(j + 1, nk + 1) <= |raw|
    ensures |r| == nk
    decreases j
  {
    Unfiltered(FilterOf(raw, nk, j), bpp, if j == 0 then Zeros(nk) else ReconRow(raw, nk, bpp, j - 1), RawRow(raw, nk, j))
  }

  /** `x` pixels of `n` bytes with an opaque alpha byte after each (`stbi__create_png_alpha_expand8`). */
  function WithAlpha(row: seq<byte>, n: nat, x: nat): (r: seq<byte>)
    requires |row| == Start(x, n)
    ensures |r| == Start(x, n + 1)
    decreases x
  {
    if x == 0 then []
    else WithAlpha(row[..Start(x - 1, n)], n, x - 1) + row[Start(x - 1, n)..] + [255]
  }

  function OutRow(row: seq<byte>, x: nat, n: nat, out_n: nat): (r: seq<byte>)
    requires |row| == Start(x, n) && (out_n == n || out_n == n + 1)
    ensures |r| == Start(x, out_n)
  {
    if out_n == n then row else WithAlpha(row, n, x)
  }

  /** Every filter byte of the first `y` rows is a filter type. */
  predicate FiltersOk(raw: seq<byte>, nk: nat, y: nat)
    requires Start(y, nk + 1) <= |raw|
  {
    y == 0 || (FiltersOk(raw, nk, y - 1) && FilterOf(raw, nk, y - 1) <= 4)
  }

  lemma RowsInside(j: nat, y: nat, w: nat)
    requires j < y
    ensures Start(j + 1, w) == Start(j, w) + w <= Start(y, w)
  {
    StartMonotone(j, y, w);
  }

  /** The image: the rows one after the other. */
  function ImageRows(raw: seq<byte>, x: nat, n: nat, out_n: nat, j: nat): (r: seq<byte>)
    requires Start(j, Start(x, n) + 1) <= |raw| && (out_n == n || out_n == n + 1)
    ensures |r| == Start(j, Start(x, out_n))
    decreases j
  {
    if j == 0 then []
    else ImageRows(raw, x, n, out_n, j - 1) + OutRow(ReconRow(raw, Start(x, n), n, j - 1), x, n, out_n)
  }

  /** Copies a row into place, with alpha if wanted. */
  method ExpandRow(row: seq<byte>, x: nat, n: nat, out_n: nat, out: array<byte>, dest: nat)
    requires |row| == Start(x, n) && (out_n == n || out_n == n + 1)
    requires dest + Start(x, out_n) <= out.Length
    modifies out
    ensures out[..dest] == old(out[..dest])
    ensures out[dest..dest + Start(x, out_n)] == OutRow(row, x, n, out_n)
  {
    if out_n == n {
      forall k | 0 <= k < |row| {
        out[dest + k] := row[k];
      }
      assert out[..dest] == old(out[..dest]);
    } else {
      AlphaExpand(row, x, n, out, dest);
    }
  }

  /** `stbi__create_png_alpha_expand8`, from the last pixel to the first. */
  method AlphaExpand(row: seq<byte>, x: nat, n: nat, out: array<byte>, dest: nat)
    requires |row| == Start(x, n) && dest + Start(x, n + 1) <= out.Length
    modifies out
    ensures out[..dest] == old(out[..dest])
    ensures out[dest..dest + Start(x, n + 1)] == WithAlpha(row, n, x)
  {
    hide WithAlpha, Start;
    var i := x;
    AlphaTail(row, n, x);
    StartMono(x, n);
    ghost var total := Start(x, n + 1);
    while i > 0
      invariant 0 <= i <= x && Start(i, n) <= |row| && Start(i, n + 1) <= total
      invariant out[..dest] == old(out[..dest])
      invariant WithAlpha(row[..Start(i, n)], n, i) + out[dest + Start(i, n + 1)..dest + total] == WithAlpha(row, n, x)
      decreases i
    {
      i := i - 1;
      AlphaStep(row, n, i);
      var from, at := Start(i, n), dest + Start(i, n + 1);
      ExpandPixel(row, from, n, out, at, dest, dest + total);
    }
    AlphaNone(row[..Start(0, n)], n);
  }

  /** One pixel, with its new alpha byte. */
  method ExpandPixel(row: seq<byte>, from: nat, n: nat, out: array<byte>, at: nat, ghost lo: nat, ghost hi: nat)
    requires from + n <= |row| && lo <= at && at + n + 1 <= hi <= out.Length
    modifies out
    ensures out[..lo] == old(out[..lo])
    ensures out[at..hi] == row[from..from + n] + [255] + old(out[at + n + 1..hi])
  {
    out[at + n] := 255;
    forall k | 0 <= k < n {
      out[at + k] := row[from + k];
    }
  }

  lemma AlphaTail(row: seq<byte>, n: nat, x: nat)
    requires |row| == Start(x, n)
    ensures row[..Start(x, n)] == row
  {
  }

  lemma StartMono(x: nat, n: nat)
    ensures Start(0, n) == 0
  {
  }

  lemma AlphaStep(row: seq<byte>, n: nat, i: nat)
    requires Start(i + 1, n) <= |row|
    ensures Start(i + 1, n) == Start(i, n) + n && Start(i + 1, n + 1) == Start(i, n + 1) + n + 1
    ensures WithAlpha(row[..Start(i + 1, n)], n, i + 1)
         == WithAlpha(row[..Start(i, n)], n, i) + row[Start(i, n)..Start(i, n) + n] + [255]
  {
    assert row[..Start(i + 1, n)][..Start(i, n)] == row[..Start(i, n)];
  }

  lemma AlphaNone(row: seq<byte>, n: nat)
    requires |row| == Start(0, n)
    ensures WithAlpha(row, n, 0) == [] && Start(0, n + 1) == 0
  {
  }

  /** `stbi__create_png_image_raw` for 8-bit samples: two rows of workspace used in turn. */
  method CreateRaw(raw: seq<byte>, x: nat, y: nat, n: nat, out_n: nat) returns (ok: bool, out: array<byte>)
    requires n > 0 && (out_n == n || out_n == n + 1)
    ensures ok <==> SizesOk(x, y, n, out_n) && Start(y, Start(x, n) + 1) <= |raw| && FiltersOk(raw, Start(x, n), y)
    ensures ok ==> out[..] == ImageRows(raw, x, n, out_n, y)
    ensures fresh(out)
  {
    out := new byte[0];
    if !Mad3Valid(x, y, out_n, 0) || !Mad3Valid(n, x, 8, 7) {
      return false, out;
    }
    WidthBytes(x, n);
    var img_width_bytes := (n * x * 8 + 7) / 8;
    if !Mad2Valid(img_width_bytes, y, img_width_bytes) {
      return false, out;
    }
    var img_len := (img_width_bytes + 1) * y;
    ImageLength(x, y, n, out_n);
    if |raw| < img_len {
      return false, out;
    }
    if !Mad2Valid(img_width_bytes, 2, 0) {
      return false, out;
    }
    out := new byte[x * y * out_n];
    ok := DecodeRows(raw, x, y, n, out_n, img_width_bytes, out);
  }

  lemma Reorder(x: nat, y: nat, n: nat)
    ensures x * y * n == y * (x * n)
  {
  }

  lemma WidthBytes(x: nat, n: nat)
    ensures (n * x * 8 + 7) / 8 == n * x == x * n == Start(x, n)
  {
    StartIsProduct(x, n);
  }

  lemma ImageLength(x: nat, y: nat, n: nat, out_n: nat)
    ensures (Start(x, n) + 1) * y == Start(y, Start(x, n) + 1)
    ensures x * y * out_n == Start(y, Start(x, out_n))
  {
    hide Start;
    StartIsProduct(y, Start(x, n) + 1);
    StartIsProduct(x, out_n);
    StartIsProduct(y, Start(x, out_n));
    Reorder(x, y, out_n);
  }

  /** Where row `j` is reconstructed; the other half holds the row above. */
  function Half(j: nat, nk: nat): nat {
    if j % 2 == 0 then 0 else nk
  }

  /** One turn of the row loop. */
  method DecodeRow(raw: seq<byte>, x: nat, j: nat, n: nat, out_n: nat, nk: nat, filter_buf: array<byte>,
                   out: array<byte>, r: nat, dest: nat)
    returns (ok: bool)
    requires n > 0 && (out_n == n || out_n == n + 1) && nk == Start(x, n)
    requires r == Start(j, nk + 1) && r + nk + 1 == Start(j + 1, nk + 1) <= |raw|
    requires dest + Start(x, out_n) <= out.Length && filter_buf.Length == 2 * nk && filter_buf != out
    requires j > 0 ==> filter_buf[Half(j + 1, nk)..Half(j + 1, nk) + nk] == ReconRow(raw, nk, n, j - 1)
    modifies out, filter_buf
    ensures ok <==> FilterOf(raw, nk, j) <= 4
    ensures ok ==> filter_buf[Half(j, nk)..Half(j, nk) + nk] == ReconRow(raw, nk, n, j)
    ensures ok ==> out[..dest + Start(x, out_n)] == old(out[..dest]) + OutRow(ReconRow(raw, nk, n, j), x, n, out_n)
  {
    hide Start, Unfiltered, OutRow;
    var cur, prior := Half(j, nk), Half(j + 1, nk);
    var filter := raw[r];
    if filter > 4 {
      return false;
    }
    DecodeLine(raw[r + 1..r + 1 + nk], filter, j, n, nk, filter_buf, cur, prior);
    ExpandRow(filter_buf[cur..cur + nk], x, n, out_n, out, dest);
    assert out[..dest + Start(x, out_n)] == out[..dest] + out[dest..dest + Start(x, out_n)];
    ok := true;
  }

  /** The row loop. */
  method DecodeRows(raw: seq<byte>, x: nat, y: nat, n: nat, out_n: nat, nk: nat, out: array<byte>) returns (ok: bool)
    requires n > 0 && (out_n == n || out_n == n + 1) && nk == Start(x, n)
    requires Start(y, nk + 1) <= |raw| && out.Length == Start(y, Start(x, out_n))
    modifies out
    ensures ok <==> FiltersOk(raw, nk, y)
    ensures ok ==> out[..] == ImageRows(raw, x, n, out_n, y)
  {
    hide Start, OutRow, FiltersOk, ImageRows, ReconRow, FilterOf, Half;
    RowsStart(raw, x, n, out_n);
    var filter_buf := new byte[2 * nk];
    var r, dest, stride := 0, 0, Start(x, out_n);
    HalfTurns(1, nk);
    for j := 0 to y
      invariant r == Start(j, nk + 1) <= |raw| && dest == Start(j, stride) <= out.Length
      invariant FiltersOk(raw, nk, j)
      invariant out[..dest] == ImageRows(raw, x, n, out_n, j)
      invariant HalfInside(j + 1, nk)
      invariant j > 0 ==> filter_buf[Half(j + 1, nk)..Half(j + 1, nk) + nk] == ReconRow(raw, nk, n, j - 1)
    {
      RowStep(raw, x, n, out_n, y, j);
      ok := DecodeRow(raw, x, j, n, out_n, nk, filter_buf, out, r, dest);
      if !ok {
        FiltersBad(raw, nk, y, j);
        return;
      }
      r := r + nk + 1;
      dest := dest + stride;
      HalfTurns(j, nk);
    }
    assert out[..dest] == out[..];
    ok := true;
  }

  predicate HalfInside(j: nat, nk: nat) {
    Half(j, nk) + nk <= 2 * nk
  }

  lemma HalfTurns(j: nat, nk: nat)
    ensures Half(j + 2, nk) == Half(j, nk) && HalfInside(j, nk)
  {
  }

  lemma RowsStart(raw: seq<byte>, x: nat, n: nat, out_n: nat)
    requires out_n == n || out_n == n + 1
    ensures Start(0, Start(x, n) + 1) == 0 && Start(0, Start(x, out_n)) == 0
    ensures FiltersOk(raw, Start(x, n), 0) && ImageRows(raw, x, n, out_n, 0) == []
  {
  }

  lemma RowStep(raw: seq<byte>, x: nat, n: nat, out_n: nat, y: nat, j: nat)
    requires n > 0 && (out_n == n || out_n == n + 1) && j < y
    requires Start(y, Start(x, n) + 1) <= |raw|
    ensures var nk := Start(x, n); var r := Start(j, nk + 1);
            && Start(j + 1, nk + 1) == r + nk + 1 <= |raw|
            && Start(j + 1, Start(x, out_n)) == Start(j, Start(x, out_n)) + Start(x, out_n) <= Start(y, Start(x, out_n))
            && (FiltersOk(raw, nk, j + 1) <==> FiltersOk(raw, nk, j) && FilterOf(raw, nk, j) <= 4)
            && ImageRows(raw, x, n, out_n, j + 1)
               == ImageRows(raw, x, n, out_n, j) + OutRow(ReconRow(raw, nk, n, j), x, n, out_n)
  {
    hide Unfiltered, OutRow, ReconRow;
    RowsInside(j, y, Start(x, n) + 1);
    RowsInside(j, y, Start(x, out_n));
  }

  lemma {:induction false} FiltersBad(raw: seq<byte>, nk: nat, y: nat, j: nat)
    requires j < y && Start(y, nk + 1) <= |raw|
    requires Start(j + 1, nk + 1) <= |raw| && FilterOf(raw, nk, j) > 4
    ensures !FiltersOk(raw, nk, y)
    decreases y
  {
    if j + 1 < y {
      FiltersBad(raw, nk, y - 1, j);
    }
  }

  // ---- Writing -----------------------------------------------------------------------------

  /** All rows of the image lie in the pixel memory. */
  ghost predicate RowsFit(pixels: seq<byte>, stride: nat, nk: nat, y: nat) {
    forall j :: 0 <= j < y ==> RowFits(pixels, stride, nk, j)
  }

  predicate RowFits(pixels: seq<byte>, stride: nat, nk: nat, j: nat) {
    j * stride + nk <= |pixels|
  }

  /** The filter byte and the filtered bytes of the first `j` rows. */
  ghost function FilteredRows(pixels: seq<byte>, stride: nat, nk: nat, n: nat, filters: seq<byte>, j: nat): (r: seq<byte>)
    requires RowsFit(pixels, stride, nk, j) && j <= |filters|
    ensures |r| == Start(j, nk + 1)
    decreases j
  {
    if j == 0 then []
    else
      assert RowFits(pixels, stride, nk, j - 1);
      assert j > 1 ==> RowFits(pixels, stride, nk, j - 2);
      FilteredRows(pixels, stride, nk, n, filters, j - 1) + [filters[j - 1]]
      + Filtered(filters[j - 1], n, Above(pixels, stride, nk, j - 1), Row(pixels, stride, nk, j - 1))
  }

  /** The pixels without the gaps between rows. */
  ghost function PixelRows(pixels: seq<byte>, stride: nat, nk: nat, j: nat): (r: seq<byte>)
    requires RowsFit(pixels, stride, nk, j)
    ensures |r| == Start(j, nk)
    decreases j
  {
    if j == 0 then []
    else
      assert RowFits(pixels, stride, nk, j - 1);
      PixelRows(pixels, stride, nk, j - 1) + Row(pixels, stride, nk, j - 1)
  }

  /** The absolute value of a byte read as signed. */
  function Magnitude(b: byte): nat {
    if b < 128 then b else 256 - b
  }

  /** It is the absolute value of the number between -128 and 127 that the byte stands for. */
  lemma MagnitudeIsAbs(b: byte, v: int)
    requires -128 <= v <= 127 && v % 256 == b as int
    ensures Magnitude(b) == if v < 0 then -v else v
  {
    if v < 0 {
      assert v + 256 == b as int;
    }
  }

  /** The estimate the writer minimises. */
  function Cost(line: seq<byte>): nat {
    if line == [] then 0 else Cost(line[..|line| - 1]) + Magnitude(line[|line| - 1])
  }

  /** The estimate of a row that costs most. */
  lemma {:induction false} DearestLine(line: seq<byte>)
    ensures Cost(line) <= 128 * |line|
    ensures (forall i :: 0 <= i < |line| ==> line[i] == 128) ==> Cost(line) == 128 * |line|
    decreases |line|
  {
    if line != [] {
      DearestLine(line[..|line| - 1]);
    }
  }

  /** The estimates of all rows of a width fit in `int` exactly if the row is shorter than 2^24 bytes. */
  lemma EstimateFits(nk: nat)
    ensures (forall line: seq<byte> :: |line| == nk ==> Cost(line) <= INT_MAX) <==> nk < 0x100_0000
  {
    forall line: seq<byte> | |line| == nk
      ensures Cost(line) <= 128 * nk
    {
      DearestLine(line);
    }
    DearestLine(seq(nk, _ => 128));
  }

  method Estimate(line: array<byte>) returns (est: nat)
    ensures est == Cost(line[..])
  {
    est := 0;
    for i := 0 to line.Length
      invariant est == Cost(line[..i])
    {
      assert line[..i + 1][..i] == line[..i];
      est := est + Magnitude(line[i]);
    }
    assert line[..line.Length] == line[..];
  }

  ghost function LineFor(pixels: seq<byte>, stride: nat, nk: nat, n: nat, j: nat, t: nat): seq<byte>
    requires RowsFit(pixels, stride, nk, j + 1)
  {
    assert RowFits(pixels, stride, nk, j);
    assert j > 0 ==> RowFits(pixels, stride, nk, j - 1);
    Filtered(t, n, Above(pixels, stride, nk, j), Row(pixels, stride, nk, j))
  }

  /** No filter has a smaller estimate for row `j` than `t`, and no earlier one an equal estimate. */
  ghost predicate Cheapest(pixels: seq<byte>, stride: nat, nk: nat, n: nat, j: nat, t: nat)
    requires RowsFit(pixels, stride, nk, j + 1)
  {
    && (forall u :: 0 <= u <= 4 && Cost(LineFor(pixels, stride, nk, n, j, u)) < INT_MAX ==>
          Cost(LineFor(pixels, stride, nk, n, j, t)) <= Cost(LineFor(pixels, stride, nk, n, j, u)))
    && (forall u :: 0 <= u < t ==>
          Cost(LineFor(pixels, stride, nk, n, j, t)) < Cost(LineFor(pixels, stride, nk, n, j, u)))
  }

  /** Filter `t` is the forced one, if there is one; otherwise the cheapest. */
  ghost predicate Chosen(pixels: seq<byte>, stride: nat, nk: nat, n: nat, j: nat, t: nat, force: int)
    requires RowsFit(pixels, stride, nk, j + 1)
  {
    if 0 <= force <= 4 then t == force else Cheapest(pixels, stride, nk, n, j, t)
  }

  ghost predicate FiltersChosen(pixels: seq<byte>, stride: nat, nk: nat, n: nat, filters: seq<byte>, force: int)
    requires RowsFit(pixels, stride, nk, |filters|)
  {
    forall j :: 0 <= j < |filters| ==> filters[j] <= 4 && Chosen(pixels, stride, nk, n, j, filters[j], force)
  }

  /** The image in filtered rows, each with its chosen filter. */
  ghost predicate FilteredAs(filt: seq<byte>, pixels: seq<byte>, stride: nat, nk: nat, n: nat, y: nat, force: int, filters: seq<byte>)
    requires RowsFit(pixels, stride, nk, y)
  {
    && |filters| == y && FiltersChosen(pixels, stride, nk, n, filters, force)
    && filt == FilteredRows(pixels, stride, nk, n, filters, y)
  }

  /** Tries all five filters on row `j`; the first one with the smallest estimate wins. */
  method ChooseFilter(pixels: seq<byte>, stride: nat, x: nat, j: nat, n: nat, line: array<byte>) returns (best: byte)
    requires x > 0 && n > 0 && line.Length == x * n && RowsFit(pixels, stride, x * n, j + 1)
    modifies line
    ensures best <= 4 && Cheapest(pixels, stride, x * n, n, j, best)
  {
    hide Filtered, Cost;
    assert RowFits(pixels, stride, x * n, j);
    assert j > 0 ==> RowFits(pixels, stride, x * n, j - 1);
    best := 0;
    var best_val := INT_MAX;
    for filter_type: byte := 0 to 5
      invariant best <= 4
      invariant best_val < INT_MAX ==> best_val == Cost(LineFor(pixels, stride, x * n, n, j, best))
      invariant best_val <= INT_MAX
      invariant forall t :: 0 <= t < filter_type && Cost(LineFor(pixels, stride, x * n, n, j, t)) < INT_MAX ==>
                  best_val <= Cost(LineFor(pixels, stride, x * n, n, j, t))
      invariant forall t :: 0 <= t < best ==>
                  Cost(LineFor(pixels, stride, x * n, n, j, best)) < Cost(LineFor(pixels, stride, x * n, n, j, t))
    {
      EncodeLine(pixels, stride, x, j, n, filter_type, line);
      var est := Estimate(line);
      if est < best_val {
        best_val, best := est, filter_type;
      }
    }
  }

  /** One turn of the row loop: chooses the filter of row `j` and appends the filtered row. */
  method AddRow(pixels: seq<byte>, stride: nat, x: nat, j: nat, n: nat, force: int, line: array<byte>,
                buffer: array<byte>, at: nat, ghost filters: seq<byte>) returns (ghost chosen: seq<byte>)
    requires x > 0 && n > 0 && line.Length == x * n && buffer != line && at + 1 + x * n <= buffer.Length
    requires RowsFit(pixels, stride, x * n, j + 1) && RowsFit(pixels, stride, x * n, j)
    requires |filters| == j && FiltersChosen(pixels, stride, x * n, n, filters, force)
    requires buffer[..at] == FilteredRows(pixels, stride, x * n, n, filters, j)
    modifies line, buffer
    ensures |chosen| == j + 1 && FiltersChosen(pixels, stride, x * n, n, chosen, force)
    ensures buffer[..at + 1 + x * n] == FilteredRows(pixels, stride, x * n, n, chosen, j + 1)
  {
    hide RowsFit, FilteredRows, FiltersChosen, Chosen, LineFor;
    var filter_type := FilterRow(pixels, stride, x, j, n, force, line);
    PutRow(buffer, at, filter_type, line);
    NextRow(pixels, stride, x * n, n, filters, filter_type, force);
    chosen := filters + [filter_type];
  }

  /** The row loop of `stbi_write_png_to_mem`: with a forced filter, or the best one for each row. */
  method FilterImage(pixels: seq<byte>, stride: nat, x: nat, y: nat, n: nat, force: int)
    returns (filt: seq<byte>)
    requires x > 0 && n > 0 && RowsFit(pixels, stride, x * n, y)
    ensures exists filters :: FilteredAs(filt, pixels, stride, x * n, n, y, force, filters)
  {
    hide RowsFit, FilteredRows, Start, FiltersChosen;
    var nk := x * n;
    var buffer := new byte[(nk + 1) * y];
    var line := new byte[nk];
    ghost var filters: seq<byte> := [];
    var at := 0;
    StartIsProduct(y, nk + 1);
    FirstRow(pixels, stride, nk, n, y, force);
    assert buffer[..at] == [];
    for j := 0 to y
      invariant |filters| == j && RowsFit(pixels, stride, nk, j) && FiltersChosen(pixels, stride, nk, n, filters, force)
      invariant at == Start(j, nk + 1) <= buffer.Length
      invariant buffer[..at] == FilteredRows(pixels, stride, nk, n, filters, j)
    {
      RowsInside(j, y, nk + 1);
      FewerRowsFit(pixels, stride, nk, j + 1, y);
      filters := AddRow(pixels, stride, x, j, n, force, line, buffer, at, filters);
      at := at + 1 + nk;
    }
    filt := buffer[..];
    assert buffer[..at] == buffer[..];
    assert FilteredAs(filt, pixels, stride, nk, n, y, force, filters);
  }

  lemma FewerRowsFit(pixels: seq<byte>, stride: nat, nk: nat, i: nat, j: nat)
    requires i <= j && RowsFit(pixels, stride, nk, j)
    ensures RowsFit(pixels, stride, nk, i)
  {
    hide RowFits;
  }

  lemma FirstRow(pixels: seq<byte>, stride: nat, nk: nat, n: nat, y: nat, force: int)
    ensures RowsFit(pixels, stride, nk, 0) && FiltersChosen(pixels, stride, nk, n, [], force)
    ensures FilteredRows(pixels, stride, nk, n, [], 0) == [] && Start(0, nk + 1) == 0
  {
    hide RowFits, Chosen;
  }

  /** One more row with its filter chosen. */
  lemma NextRow(pixels: seq<byte>, stride: nat, nk: nat, n: nat, filters: seq<byte>, t: byte, force: int)
    requires RowsFit(pixels, stride, nk, |filters| + 1) && RowsFit(pixels, stride, nk, |filters|)
    requires FiltersChosen(pixels, stride, nk, n, filters, force)
    requires t <= 4 && Chosen(pixels, stride, nk, n, |filters|, t, force)
    ensures FiltersChosen(pixels, stride, nk, n, filters + [t], force)
    ensures FilteredRows(pixels, stride, nk, n, filters + [t], |filters| + 1)
         == FilteredRows(pixels, stride, nk, n, filters, |filters|) + [t] + LineFor(pixels, stride, nk, n, |filters|, t)
  {
    hide RowFits, FilteredRows, LineFor, Chosen;
    FilteredPrefix(pixels, stride, nk, n, filters, filters + [t], |filters|);
    FilteredStep(pixels, stride, nk, n, filters + [t], |filters|);
  }

  /** The filter byte and the line moved into the image buffer. */
  method PutRow(buffer: array<byte>, at: nat, t: byte, line: array<byte>)
    requires buffer != line && at + 1 + line.Length <= buffer.Length
    modifies buffer
    ensures buffer[..at + 1 + line.Length] == old(buffer[..at]) + [t] + line[..]
  {
    buffer[at] := t;
    forall k | 0 <= k < line.Length {
      buffer[at + 1 + k] := line[k];
    }
  }

  /** Filters one row into the line buffer. */
  method FilterRow(pixels: seq<byte>, stride: nat, x: nat, j: nat, n: nat, force: int, line: array<byte>) returns (t: byte)
    requires x > 0 && n > 0 && line.Length == x * n && RowsFit(pixels, stride, x * n, j + 1)
    modifies line
    ensures t <= 4 && Chosen(pixels, stride, x * n, n, j, t, force)
    ensures line[..] == LineFor(pixels, stride, x * n, n, j, t)
  {
    hide Filtered, Cost, Cheapest;
    assert RowFits(pixels, stride, x * n, j);
    assert j > 0 ==> RowFits(pixels, stride, x * n, j - 1);
    if 0 <= force <= 4 {
      t := force;
    } else {
      t := ChooseFilter(pixels, stride, x, j, n, line);
    }
    EncodeLine(pixels, stride, x, j, n, t, line);
  }

  lemma FilteredStep(pixels: seq<byte>, stride: nat, nk: nat, n: nat, filters: seq<byte>, j: nat)
    requires RowsFit(pixels, stride, nk, j + 1) && j < |filters|
    ensures FilteredRows(pixels, stride, nk, n, filters, j + 1)
         == FilteredRows(pixels, stride, nk, n, filters, j) + [filters[j]] + LineFor(pixels, stride, nk, n, j, filters[j])
  {
  }

  lemma {:induction false} FilteredPrefix(pixels: seq<byte>, stride: nat, nk: nat, n: nat, f: seq<byte>, g: seq<byte>, j: nat)
    requires RowsFit(pixels, stride, nk, j) && j <= |f| && f <= g
    ensures FilteredRows(pixels, stride, nk, n, f, j) == FilteredRows(pixels, stride, nk, n, g, j)
    decreases j
  {
    if j > 0 {
      FilteredPrefix(pixels, stride, nk, n, f, g, j - 1);
    }
  }

  // ---- Reading what was written ------------------------------------------------------------

  lemma {:induction false} FilteredGrows(pixels: seq<byte>, stride: nat, nk: nat, n: nat, filters: seq<byte>, i: nat, j: nat)
    requires RowsFit(pixels, stride, nk, j) && i <= j <= |filters|
    ensures FilteredRows(pixels, stride, nk, n, filters, i) <= FilteredRows(pixels, stride, nk, n, filters, j)
    decreases j
  {
    hide FilteredRows, LineFor;
    if i < j {
      FilteredGrows(pixels, stride, nk, n, filters, i, j - 1);
      FilteredStep(pixels, stride, nk, n, filters, j - 1);
    }
  }

  /** Row `j` of the filtered image, wherever it is read from. */
  lemma RowOfFiltered(raw: seq<byte>, pixels: seq<byte>, stride: nat, nk: nat, n: nat, filters: seq<byte>, y: nat, j: nat)
    requires RowsFit(pixels, stride, nk, y) && y <= |filters| && j < y
    requires FilteredRows(pixels, stride, nk, n, filters, y) <= raw
    ensures Start(j + 1, nk + 1) <= |raw|
    ensures FilterOf(raw, nk, j) == filters[j]
    ensures RawRow(raw, nk, j) == LineFor(pixels, stride, nk, n, j, filters[j])
  {
    hide Filtered, FilteredRows, LineFor, Start;
    FewerRowsFit(pixels, stride, nk, j + 1, y);
    FilteredGrows(pixels, stride, nk, n, filters, j + 1, y);
    FilteredStep(pixels, stride, nk, n, filters, j);
    RowsInside(j, y, nk + 1);
    var s, f := Start(j, nk + 1), FilteredRows(pixels, stride, nk, n, filters, j + 1);
    assert f[s] == filters[j];
    assert f[s + 1..s + 1 + nk] == raw[s + 1..s + 1 + nk];
  }

  lemma {:induction false} RowsRestored(raw: seq<byte>, pixels: seq<byte>, stride: nat, nk: nat, n: nat, filters: seq<byte>, y: nat, j: nat)
    requires RowsFit(pixels, stride, nk, y) && y <= |filters| && j < y
    requires FilteredRows(pixels, stride, nk, n, filters, y) <= raw
    ensures Start(j + 1, nk + 1) <= |raw| && RowFits(pixels, stride, nk, j)
    ensures ReconRow(raw, nk, n, j) == Row(pixels, stride, nk, j)
    decreases j
  {
    hide Filtered, Unfiltered, FilteredRows;
    assert RowFits(pixels, stride, nk, j);
    RowOfFiltered(raw, pixels, stride, nk, n, filters, y, j);
    if j > 0 {
      assert RowFits(pixels, stride, nk, j - 1);
      RowsRestored(raw, pixels, stride, nk, n, filters, y, j - 1);
    }
    var above, row := Above(pixels, stride, nk, j), Row(pixels, stride, nk, j);
    FilterInverts(filters[j], n, above, row, nk);
    assert Filtered(filters[j], n, above, row)[..nk] == Filtered(filters[j], n, above, row);
    assert row[..nk] == row;
  }

  /** The image reconstructed from filtered rows is the image that was filtered. */
  lemma {:induction false} ImageRestored(raw: seq<byte>, pixels: seq<byte>, stride: nat, x: nat, n: nat, filters: seq<byte>, y: nat, j: nat)
    requires RowsFit(pixels, stride, Start(x, n), y) && y <= |filters| && j <= y
    requires forall k :: 0 <= k < y ==> filters[k] <= 4
    requires FilteredRows(pixels, stride, Start(x, n), n, filters, y) <= raw
    ensures Start(j, Start(x, n) + 1) <= |raw| && FiltersOk(raw, Start(x, n), j)
    ensures ImageRows(raw, x, n, n, j) == PixelRows(pixels, stride, Start(x, n), j)
    decreases j
  {
    hide ReconRow, FilteredRows;
    if j > 0 {
      ImageRestored(raw, pixels, stride, x, n, filters, y, j - 1);
      RowOfFiltered(raw, pixels, stride, Start(x, n), n, filters, y, j - 1);
      RowsRestored(raw, pixels, stride, Start(x, n), n, filters, y, j - 1);
    }
  }
}
