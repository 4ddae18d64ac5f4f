/** The row filters of PNG (W3C PNG, Second Edition, sections 9.2 to 9.4): the definition, the
    writer's line encoder, the reader's line decoder, and that they undo each other. */
module PngFilter {
  import opened Bits
  import opened BitWriter

  function Abs(x: int): nat {
    if x < 0 then -x else x
  }

  /** `stbiw__paeth`: the one of left, above and upper left nearest to `a + b - c`. */
  function PaethByDistance(a: int, b: int, c: int): int {
    var p := a + b - c;
    var pa, pb, pc := Abs(p - a), Abs(p - b), Abs(p - c);
    if pa <= pb && pa <= pc then a else if pb <= pc then b else c
  }

  /** `stbi__paeth`: the same without distances. */
  function PaethByThreshold(a: int, b: int, c: int): int {
    var thresh := c * 3 - (a + b);
    var lo := if a < b then a else b;
    var hi := if a < b then b else a;
    var t0 := if hi <= thresh then lo else c;
    if thresh <= lo then hi else t0
  }

  /** The two formulas agree on all integers. */
  lemma PaethAgree(a: int, b: int, c: int)
    ensures PaethByThreshold(a, b, c) == PaethByDistance(a, b, c)
  {
    var p := a + b - c;
    assert p - a == b - c && p - b == a - c;
    if a < b {
      if c <= a {
      } else if c >= b {
      } else {
      }
    }
  }

  /** What a filter type predicts from the bytes to the left, above and above left. */
  function Predict(t: nat, a: byte, b: byte, c: byte): (r: byte)
  {
    if t == 1 then a
    else if t == 2 then b
    else if t == 3 then Average(a, b)
    else if t == 4 then PaethByDistance(a, b, c)
    else 0
  }

  function Average(a: byte, b: byte): byte {
    (a as int + b as int) / 2
  }

  function Left(row: seq<byte>, i: nat, bpp: nat): byte
    requires i <= |row|
  {
    if i < bpp || bpp == 0 then 0 else row[i - bpp]
  }

  function PredictAt(t: nat, bpp: nat, prior: seq<byte>, row: seq<byte>, i: nat): byte
    requires i < |prior| && i <= |row|
  {
    Predict(t, Left(row, i, bpp), prior[i], Left(prior, i, bpp))
  }

  /** A row filtered against the row above it. */
  function Filtered(t: nat, bpp: nat, prior: seq<byte>, row: seq<byte>): (r: seq<byte>)
    requires |prior| == |row|
    ensures |r| == |row|
  {
    seq(|row|, i requires 0 <= i < |row| => UChar(row[i] as int - PredictAt(t, bpp, prior, row, i) as int))
  }

  /** A row reconstructed from its filtered bytes, left to right. */
  function Unfiltered(t: nat, bpp: nat, prior: seq<byte>, raw: seq<byte>): (r: seq<byte>)
    requires |prior| >= |raw|
    ensures |r| == |raw|
    decreases |raw|
  {
    if raw == [] then []
    else
      var k := |raw| - 1;
      var done := Unfiltered(t, bpp, prior, raw[..k]);
      done + [UChar(raw[k] as int + PredictAt(t, bpp, prior, done, k) as int)]
  }

  /** Filtering and reconstructing gives the row back. */
  lemma {:induction false} FilterInverts(t: nat, bpp: nat, prior: seq<byte>, row: seq<byte>, k: nat)
    requires |prior| == |row| && k <= |row|
    ensures Unfiltered(t, bpp, prior, Filtered(t, bpp, prior, row)[..k]) == row[..k]
  {
    if k > 0 {
      var f := Filtered(t, bpp, prior, row);
      FilterInverts(t, bpp, prior, row, k - 1);
      assert f[..k][..k - 1] == f[..k - 1];
      assert Left(row[..k - 1], k - 1, bpp) == Left(row, k - 1, bpp);
      assert row[..k] == row[..k - 1] + [row[k - 1]];
    }
  }

  function Zeros(n: nat): (r: seq<byte>)
    ensures |r| == n && forall i :: 0 <= i < n ==> r[i] == 0
  {
    seq(n, _ => 0)
  }

  // ---- Writer ------------------------------------------------------------------------------

  /** Row `y` of the pixel memory. */
  function Row(pixels: seq<byte>, stride: nat, nk: nat, y: nat): (r: seq<byte>)
    requires y * stride + nk <= |pixels|
    ensures |r| == nk
  {
    pixels[y * stride..y * stride + nk]
  }

  /** The row above row `y`; the first row has zeros above it. */
  function Above(pixels: seq<byte>, stride: nat, nk: nat, y: nat): (r: seq<byte>)
    requires y > 0 ==> (y - 1) * stride + nk <= |pixels|
    ensures |r| == nk
  {
    if y == 0 then Zeros(nk) else Row(pixels, stride, nk, y - 1)
  }

  /** The byte `stbiw__encode_png_line` writes at `i` for its internal type. */
  function LineByte(kind: nat, n: nat, z: seq<byte>, up: seq<byte>, i: nat): byte
    requires i < |z| && |up| == |z| && n > 0
  {
    if i < n then
      if kind == 2 then UChar(z[i] as int - up[i] as int)
      else if kind == 3 then UChar(z[i] as int - up[i] as int / 2)
      else if kind == 4 then UChar(z[i] as int - PaethByDistance(0, up[i], 0))
      else z[i]
    else
      if kind == 1 then UChar(z[i] as int - z[i - n] as int)
      else if kind == 2 then UChar(z[i] as int - up[i] as int)
      else if kind == 3 then UChar(z[i] as int - (z[i - n] as int + up[i] as int) / 2)
      else if kind == 4 then UChar(z[i] as int - PaethByDistance(z[i - n], up[i], up[i - n]))
      else if kind == 5 then UChar(z[i] as int - z[i - n] as int / 2)
      else if kind == 6 then UChar(z[i] as int - PaethByDistance(z[i - n], 0, 0))
      else z[i]
  }

  /** The types 5 and 6, and type 0 for the filter "up", stand in for the first row. */
  function LineKind(filter: nat, y: nat): nat {
    if y != 0 then filter else if filter == 2 then 0 else if filter == 3 then 5 else if filter == 4 then 6 else filter
  }

  lemma LineByteIsFiltered(filter: nat, n: nat, z: seq<byte>, up: seq<byte>, y: nat, i: nat)
    requires i < |z| && |up| == |z| && n > 0 && filter <= 4
    requires y == 0 ==> up == Zeros(|z|)
    ensures LineByte(LineKind(filter, y), n, z, up, i)
         == UChar(z[i] as int - PredictAt(filter, n, up, z, i) as int)
  {
    hide UChar, PaethByDistance;
    UCharByte(z[i]);
    PaethZero();
    if filter == 0 {
    } else if filter == 1 {
    } else if filter == 2 {
    } else if filter == 3 {
    } else {
    }
  }

  lemma UCharByte(b: byte)
    ensures UChar(b) == b && UChar(b as int - 0) == b
  {
  }

  lemma PaethZero()
    ensures PaethByDistance(0, 0, 0) == 0
  {
  }

  /** `stbiw__encode_png_line` (not flipped): one row filtered into the line buffer. */
  method EncodeLine(pixels: seq<byte>, stride: nat, width: nat, y: nat, n: nat, filter: nat, line: array<byte>)
    requires width > 0 && n > 0 && filter <= 4 && line.Length == width * n
    requires y * stride + width * n <= |pixels|
    requires y > 0 ==> (y - 1) * stride + width * n <= |pixels|
    modifies line
    ensures line[..] == Filtered(filter, n, Above(pixels, stride, width * n, y), Row(pixels, stride, width * n, y))
  {
    hide LineByte, PredictAt;
    var kind := LineKind(filter, y);
    var z := Row(pixels, stride, width * n, y);
    var up := Above(pixels, stride, width * n, y);
    for i := 0 to width * n
      invariant forall k :: 0 <= k < i ==> line[k] == Filtered(filter, n, up, z)[k]
    {
      LineByteIsFiltered(filter, n, z, up, y, i);
      line[i] := LineByte(kind, n, z, up, i);
    }
  }

  // ---- Reader ------------------------------------------------------------------------------

  /** What the reader adds to the raw byte `k` of a row: `kind` is the filter type of the row, or
      5 for "average" in the first row (`first_row_filter`). */
  function ReadKind(filter: nat, y: nat): nat {
    if y != 0 then filter else if filter == 2 then 0 else if filter == 3 then 5 else if filter == 4 then 1 else filter
  }

  function Add(kind: nat, bpp: nat, prior: seq<byte>, cur: seq<byte>, k: nat): int
    requires k <= |cur| && k < |prior| && bpp > 0
  {
    if k < bpp then
      if kind == 2 || kind == 4 then prior[k]
      else if kind == 3 then prior[k] as int / 2
      else 0
    else
      if kind == 1 then cur[k - bpp]
      else if kind == 2 then prior[k]
      else if kind == 3 then (prior[k] as int + cur[k - bpp] as int) / 2
      else if kind == 4 then PaethByThreshold(cur[k - bpp], prior[k], prior[k - bpp])
      else if kind == 5 then cur[k - bpp] as int / 2
      else 0
  }

  lemma AddIsPredict(filter: nat, y: nat, bpp: nat, prior: seq<byte>, cur: seq<byte>, k: nat)
    requires k <= |cur| && k < |prior| && bpp > 0 && filter <= 4
    requires y == 0 ==> prior[k] == 0 && (k >= bpp ==> prior[k - bpp] == 0)
    ensures Add(ReadKind(filter, y), bpp, prior, cur, k) == PredictAt(filter, bpp, prior, cur, k)
  {
    hide PaethByDistance, PaethByThreshold;
    if k >= bpp {
      PaethAgree(cur[k - bpp], prior[k], prior[k - bpp]);
      PaethLeft(cur[k - bpp]);
    }
    PaethUp(prior[k]);
    if filter == 0 {
    } else if filter == 1 {
    } else if filter == 2 {
    } else if filter == 3 {
    } else {
    }
  }

  /** With nothing above, "Paeth" is "sub"; with nothing to the left, it is "up". */
  lemma PaethLeft(a: byte)
    ensures PaethByDistance(a, 0, 0) == a
  {
  }

  lemma PaethUp(b: byte)
    ensures PaethByDistance(0, b, 0) == b
  {
  }

  /** In the first row nothing is read from the other half of the buffer. */
  lemma FirstRowAdd(filter: nat, bpp: nat, p1: seq<byte>, p2: seq<byte>, cur: seq<byte>, k: nat)
    requires k <= |cur| && k < |p1| && k < |p2| && bpp > 0 && filter <= 4
    ensures Add(ReadKind(filter, 0), bpp, p1, cur, k) == Add(ReadKind(filter, 0), bpp, p2, cur, k)
  {
  }

  lemma UnfilteredNone(t: nat, bpp: nat, prior: seq<byte>)
    ensures Unfiltered(t, bpp, prior, []) == []
  {
  }

  lemma UnfilteredNext(t: nat, bpp: nat, prior: seq<byte>, raw: seq<byte>, done: seq<byte>, k: nat)
    requires k < |raw| <= |prior| && done == Unfiltered(t, bpp, prior, raw[..k])
    ensures Unfiltered(t, bpp, prior, raw[..k + 1])
         == done + [UChar(raw[k] as int + PredictAt(t, bpp, prior, done, k) as int)]
  {
    assert raw[..k + 1][..k] == raw[..k];
  }

  /** One row of `stbi__create_png_image_raw`: reconstructed in half `cur` of the two-row buffer
      from the raw bytes and the other half. */
  method DecodeLine(raw: seq<byte>, filter: nat, y: nat, bpp: nat, nk: nat, buf: array<byte>, cur: nat, prior: nat)
    requires filter <= 4 && bpp > 0 && |raw| == nk && buf.Length == 2 * nk
    requires (cur == 0 && prior == nk) || (cur == nk && prior == 0)
    modifies buf
    ensures buf[prior..prior + nk] == old(buf[prior..prior + nk])
    ensures buf[cur..cur + nk]
         == Unfiltered(filter, bpp, if y == 0 then Zeros(nk) else old(buf[prior..prior + nk]), raw)
  {
    hide Add, PredictAt, UChar, Unfiltered;
    UnfilteredNone(filter, bpp, if y == 0 then Zeros(nk) else buf[prior..prior + nk]);
    var kind := ReadKind(filter, y);
    ghost var above := if y == 0 then Zeros(nk) else buf[prior..prior + nk];
    for k := 0 to nk
      invariant buf[prior..prior + nk] == old(buf[prior..prior + nk])
      invariant buf[cur..cur + k] == Unfiltered(filter, bpp, above, raw[..k])
    {
      var done, up := buf[cur..cur + k], buf[prior..prior + nk];
      var b := raw[k] as int + Add(kind, bpp, up, done, k);
      AddIsPredict(filter, y, bpp, above, done, k);
      if y == 0 {
        FirstRowAdd(filter, bpp, up, above, done, k);
      }
      UnfilteredNext(filter, bpp, above, raw, done, k);
      buf[cur + k] := UChar(b);
      assert buf[cur..cur + k + 1] == done + [UChar(b)];
    }
    assert raw[..nk] == raw;
  }
}
