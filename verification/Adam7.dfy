/** Interlaced images (W3C PNG, Second Edition, section 8.2): the seven passes of
    `stbi__create_png_image` partition the pixels of the image. */
module Adam7 {
  import opened Bits
  import opened Layout
  import opened PngImage

  /** The tables `xorig`, `yorig`, `xspc` and `yspc`. */
  function XOrig(p: nat): nat {
    if p == 1 then 4 else if p == 3 then 2 else if p == 5 then 1 else 0
  }

  function YOrig(p: nat): nat {
    if p == 2 then 4 else if p == 4 then 2 else if p == 6 then 1 else 0
  }

  function XSpc(p: nat): (r: nat)
    ensures r > XOrig(p)
  {
    if p <= 1 then 8 else if p <= 3 then 4 else if p <= 5 then 2 else 1
  }

  function YSpc(p: nat): (r: nat)
    ensures r > YOrig(p)
  {
    if p <= 2 then 8 else if p <= 4 then 4 else 2
  }

  /** How many positions `orig`, `orig + spc`, ... lie below `size`, as the program computes it. */
  function PassCount(size: nat, orig: nat, spc: nat): nat
    requires size >= 1 && orig < spc
  {
    (size - orig + spc - 1) / spc
  }

  function PassW(p: nat, w: nat): nat
    requires p < 7 && w >= 1
  {
    PassCount(w, XOrig(p), XSpc(p))
  }

  function PassH(p: nat, h: nat): nat
    requires p < 7 && h >= 1
  {
    PassCount(h, YOrig(p), YSpc(p))
  }

  predicate InPass(p: nat, px: nat, py: nat)
    requires p < 7
  {
    px % XSpc(p) == XOrig(p) && py % YSpc(p) == YOrig(p)
  }

  /** The pass that writes pixel `(px, py)`. */
  function PassOf(px: nat, py: nat): (p: nat)
    ensures p < 7
  {
    if py % 2 == 1 then 6
    else if px % 2 == 1 then 5
    else if py % 4 == 2 then 4
    else if px % 4 == 2 then 3
    else if py % 8 == 4 then 2
    else if px % 8 == 4 then 1
    else 0
  }

  lemma SomePass(px: nat, py: nat)
    ensures InPass(PassOf(px, py), px, py)
  {
    Parity(px);
    Parity(py);
  }

  lemma Parity(v: nat)
    ensures v % 2 == 0 ==> v % 4 == 0 || v % 4 == 2
    ensures v % 4 == 0 ==> v % 8 == 0 || v % 8 == 4
    ensures v % 1 == 0
  {
    var q, r := v / 8, v % 8;
    assert v == 8 * q + r;
    if r == 0 {
    } else if r == 2 {
    } else if r == 4 {
    } else if r == 6 {
    }
  }

  lemma OnlyOnePass(p: nat, px: nat, py: nat)
    requires p < 7 && InPass(p, px, py)
    ensures p == PassOf(px, py)
  {
    if p == 0 {
    } else if p == 1 {
    } else if p == 2 {
    } else if p == 3 {
    } else if p == 4 {
    } else if p == 5 {
    } else {
    }
  }

  /** A position counted by a pass is a position of the image, and the other way round. */
  lemma CountedExactly(size: nat, orig: nat, spc: nat, i: nat)
    requires size >= 1 && orig < spc
    ensures i < PassCount(size, orig, spc) <==> i * spc + orig < size
    ensures (i * spc + orig) % spc == orig && (i * spc + orig) / spc == i
  {
    var t := size - orig + spc - 1;
    var q, r := t / spc, t % spc;
    assert t == q * spc + r;
    if i < q {
      MulAtMost(i + 1, q, spc);
    } else {
      MulAtMost(q, i, spc);
    }
    DivModOf(i, spc, orig);
  }

  // ---- Counting ----------------------------------------------------------------------------

  function PassPixels(p: nat, w: nat, h: nat): nat
    requires p <= 7 && w >= 1 && h >= 1
  {
    if p == 0 then 0 else PassPixels(p - 1, w, h) + Area(PassW(p - 1, w), PassH(p - 1, h))
  }

  function Area(a: nat, b: nat): nat {
    a * b
  }

  lemma TotalPixels(w: nat, h: nat)
    requires w >= 1 && h >= 1
    ensures PassPixels(7, w, h)
         == PassW(0, w) * PassH(0, h) + PassW(1, w) * PassH(1, h) + PassW(2, w) * PassH(2, h)
            + PassW(3, w) * PassH(3, h) + PassW(4, w) * PassH(4, h) + PassW(5, w) * PassH(5, h)
            + PassW(6, w) * PassH(6, h)
  {
    hide PassW, PassH;
    assert PassPixels(1, w, h) == PassW(0, w) * PassH(0, h);
    assert PassPixels(2, w, h) == PassPixels(1, w, h) + PassW(1, w) * PassH(1, h);
    assert PassPixels(3, w, h) == PassPixels(2, w, h) + PassW(2, w) * PassH(2, h);
    assert PassPixels(4, w, h) == PassPixels(3, w, h) + PassW(3, w) * PassH(3, h);
    assert PassPixels(5, w, h) == PassPixels(4, w, h) + PassW(4, w) * PassH(4, h);
    assert PassPixels(6, w, h) == PassPixels(5, w, h) + PassW(5, w) * PassH(5, h);
  }

  /** One more row of the image is one more row of the passes that reach it. */
  lemma OneMoreRow(p: nat, h: nat)
    requires p < 7 && h >= 1
    ensures PassH(p, h + 1) == PassH(p, h) + (if h % YSpc(p) == YOrig(p) then 1 else 0)
  {
    if p <= 2 {
      EveryEight(h, YOrig(p));
    } else if p <= 4 {
      EveryFour(h, YOrig(p));
    } else {
      EveryTwo(h, YOrig(p));
    }
  }

  lemma EveryEight(h: nat, o: nat)
    requires h >= 1 && (o == 0 || o == 4)
    ensures PassCount(h + 1, o, 8) == PassCount(h, o, 8) + (if h % 8 == o then 1 else 0)
  {
    if o == 0 {
      assert (h + 8) / 8 == (h + 7) / 8 + (if h % 8 == 0 then 1 else 0);
    } else {
      assert (h + 4) / 8 == (h + 3) / 8 + (if h % 8 == 4 then 1 else 0);
    }
  }

  lemma EveryFour(h: nat, o: nat)
    requires h >= 1 && (o == 0 || o == 2)
    ensures PassCount(h + 1, o, 4) == PassCount(h, o, 4) + (if h % 4 == o then 1 else 0)
  {
    if o == 0 {
      assert (h + 4) / 4 == (h + 3) / 4 + (if h % 4 == 0 then 1 else 0);
    } else {
      assert (h + 2) / 4 == (h + 1) / 4 + (if h % 4 == 2 then 1 else 0);
    }
  }

  lemma EveryTwo(h: nat, o: nat)
    requires h >= 1 && o <= 1
    ensures PassCount(h + 1, o, 2) == PassCount(h, o, 2) + (if h % 2 == o then 1 else 0)
  {
  }

  /** The passes that reach row `y` cover it. */
  lemma RowCovered(w: nat, y: nat)
    requires w >= 1
    ensures w == (if y % 8 == 0 then PassW(0, w) + PassW(1, w) else 0)
                 + (if y % 8 == 4 then PassW(2, w) else 0)
                 + (if y % 4 == 0 then PassW(3, w) else 0)
                 + (if y % 4 == 2 then PassW(4, w) else 0)
                 + (if y % 2 == 0 then PassW(5, w) else 0)
                 + (if y % 2 == 1 then PassW(6, w) else 0)
  {
    hide PassW;
    Parity(y);
    RowWidths(w);
    if y % 2 == 1 {
      OddRow(y);
    }
  }

  lemma OddRow(y: nat)
    requires y % 2 == 1
    ensures y % 4 != 0 && y % 4 != 2 && y % 8 != 0 && y % 8 != 4
  {
  }

  /** How the passes share a row: of a multiple of eight, of four, an even one, and an odd one. */
  lemma RowWidths(w: nat)
    requires w >= 1
    ensures w == PassW(0, w) + PassW(1, w) + PassW(3, w) + PassW(5, w)
    ensures w == PassW(2, w) + PassW(3, w) + PassW(5, w)
    ensures w == PassW(4, w) + PassW(5, w) && w == PassW(6, w)
  {
    assert PassW(0, w) == (w + 7) / 8 && PassW(1, w) == (w + 3) / 8 && PassW(2, w) == (w + 3) / 4;
    assert PassW(3, w) == (w + 1) / 4 && PassW(4, w) == (w + 1) / 2 && PassW(5, w) == w / 2;
    Halves(w);
    Quarters(w);
    Eighths(w);
  }

  lemma Halves(w: nat)
    ensures (w + 1) / 2 + w / 2 == w
  {
  }

  lemma Quarters(w: nat)
    ensures (w + 3) / 4 + (w + 1) / 4 == (w + 1) / 2
  {
  }

  lemma Eighths(w: nat)
    ensures (w + 7) / 8 + (w + 3) / 8 == (w + 3) / 4
  {
  }

  lemma TimesNext(a: nat, b: nat)
    ensures a * (b + 1) == a * b + a
  {
  }

  /** The passes hold as many pixels as the image. */
  lemma {:induction false} PixelsPartition(w: nat, h: nat)
    requires w >= 1 && h >= 1
    ensures PassPixels(7, w, h) == w * h
    decreases h
  {
    hide PassW, PassH, PassPixels;
    TotalPixels(w, h);
    if h == 1 {
      FirstRowHeight(0);
      FirstRowHeight(1);
      FirstRowHeight(2);
      FirstRowHeight(3);
      FirstRowHeight(4);
      FirstRowHeight(5);
      FirstRowHeight(6);
      RowCovered(w, 0);
    } else {
      PixelsPartition(w, h - 1);
      TotalPixels(w, h - 1);
      RowCovered(w, h - 1);
      RowGrows(0, w, h - 1);
      RowGrows(1, w, h - 1);
      RowGrows(2, w, h - 1);
      RowGrows(3, w, h - 1);
      RowGrows(4, w, h - 1);
      RowGrows(5, w, h - 1);
      RowGrows(6, w, h - 1);
      TimesNext(w, h - 1);
    }
  }

  lemma FirstRowHeight(p: nat)
    requires p < 7
    ensures PassH(p, 1) == if YOrig(p) == 0 then 1 else 0
  {
    var spc, orig := YSpc(p), YOrig(p);
    if orig == 0 {
      assert spc / spc == 1;
    } else {
      assert spc - orig < spc;
    }
  }

  lemma RowGrows(p: nat, w: nat, h: nat)
    requires p < 7 && w >= 1 && h >= 1
    ensures PassW(p, w) * PassH(p, h + 1) == PassW(p, w) * PassH(p, h) + (if h % YSpc(p) == YOrig(p) then PassW(p, w) else 0)
  {
    hide PassW, PassH;
    OneMoreRow(p, h);
    TimesNext(PassW(p, w), PassH(p, h));
  }

  // ---- De-interlacing ----------------------------------------------------------------------

  function Cell(px: nat, py: nat, w: nat): nat {
    py * w + px
  }

  /** Pixel number `k` of an image with `ob` bytes for each pixel. */
  function Pixel(img: seq<byte>, k: nat, ob: nat): (r: seq<byte>)
    requires Start(k + 1, ob) <= |img|
    ensures |r| == ob
  {
    img[Start(k, ob)..Start(k, ob) + ob]
  }

  lemma CellInside(px: nat, py: nat, w: nat, h: nat, ob: nat)
    requires px < w && py < h
    ensures Cell(px, py, w) < w * h && Start(Cell(px, py, w) + 1, ob) <= Start(w * h, ob)
  {
    MulAtMost(py + 1, h, w);
    assert (py + 1) * w == py * w + w;
    StartMonotone(Cell(px, py, w), w * h, ob);
  }

  lemma CellsDiffer(px: nat, py: nat, qx: nat, qy: nat, w: nat)
    requires px < w && qx < w && Cell(px, py, w) == Cell(qx, qy, w)
    ensures px == qx && py == qy
  {
    DivModOf(py, w, px);
    DivModOf(qy, w, qx);
  }

  /** Writing one pixel leaves every other pixel as it was. */
  method PutPixel(img: array<byte>, k: nat, ob: nat, src: seq<byte>)
    requires Start(k + 1, ob) <= img.Length && |src| == ob
    modifies img
    ensures Pixel(img[..], k, ob) == src
    ensures forall m: nat :: m != k && Start(m + 1, ob) <= img.Length ==> Pixel(img[..], m, ob) == old(Pixel(img[..], m, ob))
  {
    var at := Start(k, ob);
    StartNext(k, ob);
    hide Start;
    forall b | 0 <= b < ob {
      img[at + b] := src[b];
    }
    forall m: nat | m != k && Start(m + 1, ob) <= img.Length
      ensures Pixel(img[..], m, ob) == old(Pixel(img[..], m, ob))
    {
      if m < k {
        StartMonotone(m, k, ob);
      } else {
        StartMonotone(k, m, ob);
      }
      StartNext(m, ob);
    }
  }

  /** Pixel `(px, py)` comes before entry `(i, j)` of pass `p` in the order of writing. */
  predicate Before(p: nat, i: nat, j: nat, px: nat, py: nat)
    requires p < 7
  {
    var q := PassOf(px, py);
    q < p || (q == p && (py / YSpc(p) < j || (py / YSpc(p) == j && px / XSpc(p) < i)))
  }

  ghost function Written(p: nat, i: nat, j: nat, w: nat, h: nat): set<(nat, nat)>
    requires p < 7
  {
    set px: nat, py: nat | px < w && py < h && Before(p, i, j, px, py) :: (px, py)
  }

  /** What a pass has put at the pixels it has reached. */
  ghost predicate Placed(final: seq<byte>, p: nat, i: nat, j: nat, img: seq<byte>, w: nat, h: nat, ob: nat)
    requires p < 7 && w >= 1 && h >= 1
  {
    forall px: nat, py: nat :: px < w && py < h && PassOf(px, py) == p && Before(p, i, j, px, py) ==>
      PixelFrom(final, img, p, px, py, w, h, ob)
  }

  ghost predicate PixelFrom(final: seq<byte>, img: seq<byte>, p: nat, px: nat, py: nat, w: nat, h: nat, ob: nat)
    requires p < 7 && w >= 1 && h >= 1
  {
    var i, j := px / XSpc(p), py / YSpc(p);
    && Start(Cell(px, py, w) + 1, ob) <= |final| && Start(Cell(i, j, PassW(p, w)) + 1, ob) <= |img|
    && Pixel(final, Cell(px, py, w), ob) == Pixel(img, Cell(i, j, PassW(p, w)), ob)
  }

  /** The pixel that entry `(i, j)` of pass `p` goes to. */
  lemma Target(p: nat, i: nat, j: nat, w: nat, h: nat) returns (px: nat, py: nat)
    requires p < 7 && w >= 1 && h >= 1 && i < PassW(p, w) && j < PassH(p, h)
    ensures px == i * XSpc(p) + XOrig(p) && py == j * YSpc(p) + YOrig(p)
    ensures px < w && py < h && PassOf(px, py) == p && px / XSpc(p) == i && py / YSpc(p) == j
  {
    hide PassOf;
    px, py := i * XSpc(p) + XOrig(p), j * YSpc(p) + YOrig(p);
    CountedExactly(w, XOrig(p), XSpc(p), i);
    CountedExactly(h, YOrig(p), YSpc(p), j);
    OnlyOnePass(p, px, py);
  }

  /** A pixel of pass `p` is the target of its own entry. */
  lemma Origin(p: nat, px: nat, py: nat, w: nat, h: nat)
    requires w >= 1 && h >= 1 && px < w && py < h && p == PassOf(px, py)
    ensures px == (px / XSpc(p)) * XSpc(p) + XOrig(p) && py == (py / YSpc(p)) * YSpc(p) + YOrig(p)
    ensures px / XSpc(p) < PassW(p, w) && py / YSpc(p) < PassH(p, h)
  {
    hide PassOf;
    SomePass(px, py);
    CountedExactly(w, XOrig(p), XSpc(p), px / XSpc(p));
    CountedExactly(h, YOrig(p), YSpc(p), py / YSpc(p));
  }

  /** One pixel of a pass copied to its place.  It has not been written before. */
  method CopyEntry(final: array<byte>, img: seq<byte>, p: nat, i: nat, j: nat, w: nat, h: nat, ob: nat)
    requires p < 7 && w >= 1 && h >= 1 && i < PassW(p, w) && j < PassH(p, h)
    requires final.Length == Start(w * h, ob) && |img| == Start(PassW(p, w) * PassH(p, h), ob)
    requires Placed(final[..], p, i, j, img, w, h, ob)
    modifies final
    ensures Placed(final[..], p, i + 1, j, img, w, h, ob)
    ensures Elsewhere(final[..], old(final[..]), p, w, h, ob)
    ensures (i * XSpc(p) + XOrig(p), j * YSpc(p) + YOrig(p)) !in Written(p, i, j, w, h)
    ensures Written(p, i + 1, j, w, h) == Written(p, i, j, w, h) + {(i * XSpc(p) + XOrig(p), j * YSpc(p) + YOrig(p))}
  {
    hide PassOf, PassW, PassH, XSpc, YSpc, XOrig, YOrig, Start, Cell;
    var out_y := j * YSpc(p) + YOrig(p);
    var out_x := i * XSpc(p) + XOrig(p);
    ghost var px, py := Target(p, i, j, w, h);
    CellInside(out_x, out_y, w, h, ob);
    CellInside(i, j, PassW(p, w), PassH(p, h), ob);
    ghost var before := final[..];
    var src := Pixel(img, Cell(i, j, PassW(p, w)), ob);
    PutPixel(final, Cell(out_x, out_y, w), ob, src);
    forall qx: nat, qy: nat | qx < w && qy < h && (qx, qy) != (px, py)
      ensures Start(Cell(qx, qy, w) + 1, ob) <= final.Length
      ensures Pixel(final[..], Cell(qx, qy, w), ob) == Pixel(before, Cell(qx, qy, w), ob)
    {
      CellInside(qx, qy, w, h, ob);
      if Cell(qx, qy, w) == Cell(px, py, w) {
        CellsDiffer(px, py, qx, qy, w);
      }
    }
    forall qx: nat, qy: nat | qx < w && qy < h && PassOf(qx, qy) == p
      ensures Before(p, i + 1, j, qx, qy) <==> Before(p, i, j, qx, qy) || (qx, qy) == (px, py)
    {
      Origin(p, qx, qy, w, h);
    }
    PlacedNext(final[..], before, p, i, j, img, w, h, ob, px, py);
  }

  /** Pixels of other passes are as they were. */
  ghost predicate Elsewhere(after: seq<byte>, before: seq<byte>, p: nat, w: nat, h: nat, ob: nat) {
    |after| == |before| && forall px: nat, py: nat :: px < w && py < h && PassOf(px, py) != p ==> SamePixel(after, before, px, py, w, ob)
  }

  ghost predicate SamePixel(after: seq<byte>, before: seq<byte>, px: nat, py: nat, w: nat, ob: nat)
  {
    && Start(Cell(px, py, w) + 1, ob) <= |after| && Start(Cell(px, py, w) + 1, ob) <= |before|
    && Pixel(after, Cell(px, py, w), ob) == Pixel(before, Cell(px, py, w), ob)
  }

  lemma PlacedNext(after: seq<byte>, before: seq<byte>, p: nat, i: nat, j: nat, img: seq<byte>, w: nat, h: nat, ob: nat, px: nat, py: nat)
    requires p < 7 && w >= 1 && h >= 1 && px < w && py < h && PassOf(px, py) == p
    requires Placed(before, p, i, j, img, w, h, ob)
    requires PixelFrom(after, img, p, px, py, w, h, ob)
    requires forall qx: nat, qy: nat :: qx < w && qy < h && (qx, qy) != (px, py) ==> SamePixel(after, before, qx, qy, w, ob)
    requires forall qx: nat, qy: nat :: qx < w && qy < h && PassOf(qx, qy) == p ==>
               (Before(p, i + 1, j, qx, qy) <==> Before(p, i, j, qx, qy) || (qx, qy) == (px, py))
    ensures Placed(after, p, i + 1, j, img, w, h, ob)
  {
    hide PassOf, PassW, PassH, XSpc, YSpc, Start, Cell, Before;
    forall qx: nat, qy: nat | qx < w && qy < h && PassOf(qx, qy) == p && Before(p, i + 1, j, qx, qy)
      ensures PixelFrom(after, img, p, qx, qy, w, h, ob)
    {
      if (qx, qy) != (px, py) {
        assert SamePixel(after, before, qx, qy, w, ob);
        assert PixelFrom(before, img, p, qx, qy, w, h, ob);
      }
    }
  }

  /** The end of a row of a pass is the beginning of its next row. */
  lemma NextRow(final: seq<byte>, p: nat, j: nat, img: seq<byte>, w: nat, h: nat, ob: nat)
    requires p < 7 && w >= 1 && h >= 1
    requires Placed(final, p, PassW(p, w), j, img, w, h, ob)
    ensures Placed(final, p, 0, j + 1, img, w, h, ob)
    ensures Written(p, PassW(p, w), j, w, h) == Written(p, 0, j + 1, w, h)
  {
    hide PassOf, PassW, PassH, XSpc, YSpc, XOrig, YOrig, PixelFrom;
    forall px: nat, py: nat | px < w && py < h
      ensures Before(p, PassW(p, w), j, px, py) <==> Before(p, 0, j + 1, px, py)
    {
      if PassOf(px, py) == p {
        Origin(p, px, py, w, h);
      }
    }
  }

  /** The whole of pass `p`. */
  method CopyPass(final: array<byte>, img: seq<byte>, p: nat, w: nat, h: nat, ob: nat) returns (ghost writes: nat)
    requires p < 7 && w >= 1 && h >= 1
    requires final.Length == Start(w * h, ob) && |img| == Start(PassW(p, w) * PassH(p, h), ob)
    modifies final
    ensures Placed(final[..], p, 0, PassH(p, h), img, w, h, ob)
    ensures Elsewhere(final[..], old(final[..]), p, w, h, ob)
    ensures writes == PassW(p, w) * PassH(p, h)
    ensures |Written(p, 0, PassH(p, h), w, h)| == |Written(p, 0, 0, w, h)| + writes
  {
    hide PassOf, PassW, PassH, XSpc, YSpc, XOrig, YOrig, Start, Cell, Written, Placed;
    var x, y := PassW(p, w), PassH(p, h);
    writes := 0;
    NothingPlaced(final[..], p, img, w, h, ob);
    for j := 0 to y
      invariant Placed(final[..], p, 0, j, img, w, h, ob)
      invariant Elsewhere(final[..], old(final[..]), p, w, h, ob)
      invariant writes == j * x && |Written(p, 0, j, w, h)| == |Written(p, 0, 0, w, h)| + writes
    {
      for i := 0 to x
        invariant Placed(final[..], p, i, j, img, w, h, ob)
        invariant Elsewhere(final[..], old(final[..]), p, w, h, ob)
        invariant writes == j * x + i && |Written(p, i, j, w, h)| == |Written(p, 0, 0, w, h)| + writes
      {
        ghost var before := final[..];
        CopyEntry(final, img, p, i, j, w, h, ob);
        ElsewhereTwice(final[..], before, old(final[..]), p, w, h, ob);
        writes := writes + 1;
      }
      NextRow(final[..], p, j, img, w, h, ob);
    }
  }

  lemma NothingPlaced(final: seq<byte>, p: nat, img: seq<byte>, w: nat, h: nat, ob: nat)
    requires p < 7 && w >= 1 && h >= 1 && |final| == Start(w * h, ob)
    ensures Placed(final, p, 0, 0, img, w, h, ob)
    ensures Elsewhere(final, final, p, w, h, ob)
  {
    hide PassOf, Cell, Start;
    forall px: nat, py: nat | px < w && py < h ensures SamePixel(final, final, px, py, w, ob) {
      CellInside(px, py, w, h, ob);
    }
  }

  lemma ElsewhereTwice(c: seq<byte>, b: seq<byte>, a: seq<byte>, p: nat, w: nat, h: nat, ob: nat)
    requires Elsewhere(c, b, p, w, h, ob) && Elsewhere(b, a, p, w, h, ob)
    ensures Elsewhere(c, a, p, w, h, ob)
  {
    hide PassOf, Cell, Start;
    forall px: nat, py: nat | px < w && py < h && PassOf(px, py) != p ensures SamePixel(c, a, px, py, w, ob) {
      assert SamePixel(c, b, px, py, w, ob) && SamePixel(b, a, px, py, w, ob);
    }
  }

  /** The first `p` passes are in place. */
  ghost predicate PassesPlaced(final: seq<byte>, imgs: seq<seq<byte>>, p: nat, w: nat, h: nat, ob: nat)
    requires w >= 1 && h >= 1
  {
    && p <= 7 && |imgs| >= p
    && forall px: nat, py: nat :: px < w && py < h && PassOf(px, py) < p ==>
         PixelFrom(final, imgs[PassOf(px, py)], PassOf(px, py), px, py, w, h, ob)
  }

  lemma OnePassMore(after: seq<byte>, before: seq<byte>, imgs: seq<seq<byte>>, p: nat, img: seq<byte>, w: nat, h: nat, ob: nat)
    requires w >= 1 && h >= 1 && p < 7 && |imgs| == p
    requires PassesPlaced(before, imgs, p, w, h, ob) && Elsewhere(after, before, p, w, h, ob)
    requires Placed(after, p, 0, PassH(p, h), img, w, h, ob)
    ensures PassesPlaced(after, imgs + [img], p + 1, w, h, ob)
  {
    hide PassOf, PassW, PassH, XSpc, YSpc, XOrig, YOrig, Start, Cell;
    forall px: nat, py: nat | px < w && py < h && PassOf(px, py) < p + 1
      ensures PixelFrom(after, (imgs + [img])[PassOf(px, py)], PassOf(px, py), px, py, w, h, ob)
    {
      var q := PassOf(px, py);
      if q == p {
        Origin(p, px, py, w, h);
      } else {
        assert SamePixel(after, before, px, py, w, ob);
        assert PixelFrom(before, imgs[q], q, px, py, w, h, ob);
      }
    }
  }

  lemma NextPass(p: nat, w: nat, h: nat)
    requires p < 6 && w >= 1 && h >= 1
    ensures Written(p, 0, PassH(p, h), w, h) == Written(p + 1, 0, 0, w, h)
  {
    hide PassOf, PassW, PassH, XSpc, YSpc, XOrig, YOrig;
    forall px: nat, py: nat | px < w && py < h
      ensures Before(p, 0, PassH(p, h), px, py) <==> Before(p + 1, 0, 0, px, py)
    {
      if PassOf(px, py) == p {
        Origin(p, px, py, w, h);
      }
    }
  }

  /** When all passes are done, every pixel of the image has been written. */
  lemma AllWritten(w: nat, h: nat)
    requires w >= 1 && h >= 1
    ensures Written(6, 0, PassH(6, h), w, h) == AllPixels(w, h)
  {
    hide PassOf, PassW, PassH, XSpc, YSpc, XOrig, YOrig;
    forall px: nat, py: nat | px < w && py < h
      ensures Before(6, 0, PassH(6, h), px, py)
    {
      if PassOf(px, py) == 6 {
        Origin(6, px, py, w, h);
      }
    }
  }

  ghost function AllPixels(w: nat, h: nat): set<(nat, nat)> {
    set px: nat, py: nat | px < w && py < h :: (px, py)
  }

  // ---- The interlaced image from its data --------------------------------------------------

  predicate PassEmpty(p: nat, w: nat, h: nat)
    requires p < 7 && w >= 1 && h >= 1
  {
    PassW(p, w) == 0 || PassH(p, h) == 0
  }

  /** How many bytes of image data pass `p` takes. */
  function PassSize(p: nat, w: nat, h: nat, n: nat): nat
    requires p < 7 && w >= 1 && h >= 1
  {
    if PassEmpty(p, w, h) then 0 else Start(PassH(p, h), Start(PassW(p, w), n) + 1)
  }

  /** Where the data of pass `p` begins. */
  function PassOffset(p: nat, w: nat, h: nat, n: nat): nat
    requires p <= 7 && w >= 1 && h >= 1
  {
    if p == 0 then 0 else PassOffset(p - 1, w, h, n) + PassSize(p - 1, w, h, n)
  }

  /** The data of pass `p` is there and can be decoded. */
  predicate PassOk(raw: seq<byte>, p: nat, w: nat, h: nat, n: nat, out_n: nat)
    requires p < 7 && w >= 1 && h >= 1
  {
    PassOffset(p, w, h, n) <= |raw|
    && (PassEmpty(p, w, h) || DataOk(raw[PassOffset(p, w, h, n)..], PassW(p, w), PassH(p, h), n, out_n))
  }

  /** Image data of the given shape can be decoded. */
  predicate DataOk(data: seq<byte>, x: nat, y: nat, n: nat, out_n: nat) {
    SizesOk(x, y, n, out_n) && Start(y, Start(x, n) + 1) <= |data| && FiltersOk(data, Start(x, n), y)
  }

  /** The picture of pass `p`, decoded on its own. */
  function PassImage(raw: seq<byte>, p: nat, w: nat, h: nat, n: nat, out_n: nat): seq<byte>
    requires p < 7 && w >= 1 && h >= 1 && (out_n == n || out_n == n + 1)
    requires PassOk(raw, p, w, h, n, out_n)
  {
    if PassEmpty(p, w, h) then []
    else ImageRows(raw[PassOffset(p, w, h, n)..], PassW(p, w), n, out_n, PassH(p, h))
  }

  /** The first `p` passes decode to `imgs`. */
  ghost predicate PassImages(raw: seq<byte>, imgs: seq<seq<byte>>, p: nat, w: nat, h: nat, n: nat, out_n: nat)
    requires w >= 1 && h >= 1 && (out_n == n || out_n == n + 1)
  {
    && p <= 7 && |imgs| == p
    && forall q :: 0 <= q < p ==> PassOk(raw, q, w, h, n, out_n) && imgs[q] == PassImage(raw, q, w, h, n, out_n)
  }

  lemma ImageBytes(w: nat, h: nat, n: nat)
    ensures Start(h, Start(w, n)) == Start(w * h, n)
  {
    hide Start;
    StartIsProduct(w, n);
    StartIsProduct(h, Start(w, n));
    StartIsProduct(w * h, n);
    Reorder(w, h, n);
  }

  lemma EmptyPassPlaced(final: seq<byte>, imgs: seq<seq<byte>>, p: nat, w: nat, h: nat, ob: nat)
    requires w >= 1 && h >= 1 && p < 7 && |imgs| == p && PassEmpty(p, w, h)
    requires PassesPlaced(final, imgs, p, w, h, ob)
    ensures PassesPlaced(final, imgs + [[]], p + 1, w, h, ob)
    ensures Written(p, 0, 0, w, h) == Written(p, 0, PassH(p, h), w, h)
    ensures PassW(p, w) * PassH(p, h) == 0
  {
    hide PassOf, PassW, PassH, XSpc, YSpc, XOrig, YOrig, Start, Cell, PixelFrom;
    forall px: nat, py: nat | px < w && py < h ensures PassOf(px, py) != p {
      if PassOf(px, py) == p {
        Origin(p, px, py, w, h);
      }
    }
  }

  /** One turn of the pass loop in `stbi__create_png_image`. */
  method CreatePass(final: array<byte>, raw: seq<byte>, p: nat, w: nat, h: nat, n: nat, out_n: nat, ghost imgs: seq<seq<byte>>)
    returns (ok: bool, rest: seq<byte>, ghost img: seq<byte>, ghost writes: nat)
    requires p < 7 && w >= 1 && h >= 1 && n > 0 && (out_n == n || out_n == n + 1)
    requires final.Length == Start(w * h, out_n) && |imgs| == p && PassesPlaced(final[..], imgs, p, w, h, out_n)
    modifies final
    ensures ok <==> PassEmpty(p, w, h) || DataOk(raw, PassW(p, w), PassH(p, h), n, out_n)
    ensures ok ==> PassSize(p, w, h, n) <= |raw| && rest == raw[PassSize(p, w, h, n)..]
    ensures ok ==> img == if PassEmpty(p, w, h) then [] else ImageRows(raw, PassW(p, w), n, out_n, PassH(p, h))
    ensures ok ==> PassesPlaced(final[..], imgs + [img], p + 1, w, h, out_n)
    ensures ok ==> writes == PassW(p, w) * PassH(p, h)
    ensures ok ==> |Written(p, 0, PassH(p, h), w, h)| == |Written(p, 0, 0, w, h)| + writes
  {
    hide PassOf, PassW, PassH, Start, SizesOk, FiltersOk, ImageRows, PassesPlaced, Placed, Elsewhere, Written;
    var x, y := PassW(p, w), PassH(p, h);
    img, writes, rest := [], 0, raw;
    if x != 0 && y != 0 {
      var out;
      ok, out := CreateRaw(raw, x, y, n, out_n);
      if !ok {
        return;
      }
      img := out[..];
      ImageBytes(x, y, out_n);
      ghost var before := final[..];
      writes := CopyPass(final, out[..], p, w, h, out_n);
      OnePassMore(final[..], before, imgs, p, img, w, h, out_n);
      PassLength(x, y, n);
      rest := raw[((n * x * 8 + 7) / 8 + 1) * y..];
    } else {
      EmptyPassPlaced(final[..], imgs, p, w, h, out_n);
      ok := true;
    }
  }

  lemma PassLength(x: nat, y: nat, n: nat)
    ensures ((n * x * 8 + 7) / 8 + 1) * y == Start(y, Start(x, n) + 1)
  {
    hide Start;
    WidthBytes(x, n);
    ImageLength(x, y, n, n);
  }

  /** `stbi__create_png_image` for 8-bit samples.  With interlacing, all seven passes are decoded
      one after the other; every pixel is written exactly once, from the pass it belongs to. */
  method CreateImage(raw: seq<byte>, w: nat, h: nat, n: nat, out_n: nat, interlaced: bool)
    returns (ok: bool, out: array<byte>, ghost imgs: seq<seq<byte>>, ghost writes: nat)
    requires w >= 1 && h >= 1 && n > 0 && (out_n == n || out_n == n + 1)
    ensures !interlaced ==>
              (ok <==> DataOk(raw, w, h, n, out_n))
    ensures !interlaced && ok ==> out[..] == ImageRows(raw, w, n, out_n, h)
    ensures interlaced ==>
              (ok <==> Mad3Valid(w, h, out_n, 0) && forall p :: 0 <= p < 7 ==> PassOk(raw, p, w, h, n, out_n))
    ensures interlaced && ok ==> PassImages(raw, imgs, 7, w, h, n, out_n) && PassesPlaced(out[..], imgs, 7, w, h, out_n)
    ensures interlaced && ok ==> writes == w * h == |AllPixels(w, h)| && out.Length == w * h * out_n
  {
    hide PassOf, PassW, PassH, Start, SizesOk, FiltersOk, ImageRows, PassesPlaced, Written, PassOffset, PassSize, PassEmpty, PassPixels;
    imgs, writes := [], 0;
    if !interlaced {
      ok, out := CreateRaw(raw, w, h, n, out_n);
      return;
    }
    if !Mad3Valid(w, h, out_n, 0) {
      ok, out := false, new byte[0];
      return;
    }
    StartIsProduct(w * h, out_n);
    out := new byte[w * h * out_n];
    var data := raw;
    PassesStart(out[..], w, h, n, out_n);
    assert raw[0..] == raw;
    for p := 0 to 7
      invariant PassOffset(p, w, h, n) <= |raw| && data == raw[PassOffset(p, w, h, n)..]
      invariant PassImages(raw, imgs, p, w, h, n, out_n)
      invariant PassesPlaced(out[..], imgs, p, w, h, out_n)
      invariant writes == PassPixels(p, w, h)
      invariant p < 7 ==> |Written(p, 0, 0, w, h)| == writes
      invariant p == 7 ==> |AllPixels(w, h)| == writes
    {
      ghost var img, count;
      ghost var before := data;
      ok, data, img, count := CreatePass(out, data, p, w, h, n, out_n, imgs);
      PassStep(raw, p, w, h, n, out_n);
      if !ok {
        return;
      }
      imgs := imgs + [img];
      writes := writes + count;
      if p < 6 {
        NextPass(p, w, h);
      } else {
        AllWritten(w, h);
      }
    }
    PixelsPartition(w, h);
    ok := true;
  }

  lemma PassesStart(final: seq<byte>, w: nat, h: nat, n: nat, ob: nat)
    requires w >= 1 && h >= 1
    ensures PassesPlaced(final, [], 0, w, h, ob) && PassOffset(0, w, h, n) == 0 && PassPixels(0, w, h) == 0
    ensures Written(0, 0, 0, w, h) == {}
  {
  }

  lemma PassStep(raw: seq<byte>, p: nat, w: nat, h: nat, n: nat, out_n: nat)
    requires p < 7 && w >= 1 && h >= 1 && (out_n == n || out_n == n + 1) && PassOffset(p, w, h, n) <= |raw|
    ensures PassOffset(p + 1, w, h, n) == PassOffset(p, w, h, n) + PassSize(p, w, h, n)
    ensures PassPixels(p + 1, w, h) == PassPixels(p, w, h) + PassW(p, w) * PassH(p, h)
    ensures var data := raw[PassOffset(p, w, h, n)..];
            && (PassSize(p, w, h, n) <= |data| ==>
                  data[PassSize(p, w, h, n)..] == raw[PassOffset(p, w, h, n) + PassSize(p, w, h, n)..])
            && (PassOk(raw, p, w, h, n, out_n) <==>
                  PassEmpty(p, w, h) || DataOk(data, PassW(p, w), PassH(p, h), n, out_n))
            && (PassOk(raw, p, w, h, n, out_n) ==>
                  PassImage(raw, p, w, h, n, out_n)
                  == if PassEmpty(p, w, h) then [] else ImageRows(data, PassW(p, w), n, out_n, PassH(p, h)))
  {
    hide PassOf, PassW, PassH, SizesOk, FiltersOk, ImageRows, Start;
  }
}
