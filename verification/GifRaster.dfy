/** Where the indices of a GIF frame go: the cursor of `stbi__out_gif_code` and the interlaced order
    of GIF89a Appendix E. */
module GifRaster {
  import opened Bits
  import opened Layout
  import opened PngImage

  /** The four bytes of a palette entry (blue, green, red, alpha) or of an output pixel. */
  datatype Pixel = Pixel(c0: byte, c1: byte, c2: byte, c3: byte)

  // ---- The order of the rows ---------------------------------------------------------------

  /** Rows `from`, `from + step`, ... */
  function Every(from: nat, step: nat, h: nat): (r: seq<nat>)
    requires step > 0
    ensures forall y :: y in r ==> y < h
    decreases if from < h then h - from else 0
  {
    if from >= h then [] else [from] + Every(from + step, step, h)
  }

  /** Plain frames go downwards; interlaced ones in four passes. */
  function RowOrder(h: nat, interlaced: bool): seq<nat> {
    if interlaced then Every(0, 8, h) + Every(4, 8, h) + Every(2, 4, h) + Every(1, 2, h) else Every(0, 1, h)
  }

  lemma {:induction false} EveryHas(from: nat, step: nat, h: nat, y: nat)
    requires step in {1, 2, 4, 8} && y < h
    ensures y in Every(from, step, h) <==> from <= y && y % step == from % step
    decreases if from < h then h - from else 0
  {
    if from < h {
      EveryHas(from + step, step, h, y);
      OneStep(from, step, y);
    }
  }

  /** Nothing between two neighbours of a pass has their remainder. */
  lemma OneStep(from: nat, step: nat, y: nat)
    requires step > 0
    ensures (from + step) % step == from % step
    ensures from < y < from + step ==> y % step != from % step
  {
    var q, r := from / step, from % step;
    assert from == q * step + r;
    assert (q + 1) * step == q * step + step;
    DivModOf(q + 1, step, r);
    if from < y < from + step {
      var k := r + (y - from);
      if k < step {
        DivModOf(q, step, k);
      } else {
        DivModOf(q + 1, step, k - step);
      }
    }
  }

  lemma {:induction false} EveryOnce(from: nat, step: nat, h: nat)
    requires step in {1, 2, 4, 8}
    ensures Distinct(Every(from, step, h))
    decreases if from < h then h - from else 0
  {
    if from < h {
      EveryOnce(from + step, step, h);
      EveryHas(from + step, step, h, from);
    }
  }

  lemma DistinctJoin(a: seq<nat>, b: seq<nat>)
    requires Distinct(a) && Distinct(b)
    requires forall y :: y in a ==> y !in b
    ensures Distinct(a + b)
  {
    var s := a + b;
    forall i, j | 0 <= i < j < |s|
      ensures s[i] != s[j]
    {
      assert i < |a| <= j ==> s[i] in a && s[j] in b;
    }
  }

  /** Every row comes exactly once, interlaced or not. */
  lemma EveryRowOnce(h: nat, interlaced: bool)
    ensures Distinct(RowOrder(h, interlaced))
    ensures forall y :: y in RowOrder(h, interlaced) <==> 0 <= y < h
  {
    hide Every;
    EveryOnce(0, 1, h);
    EveryOnce(0, 8, h);
    EveryOnce(4, 8, h);
    EveryOnce(2, 4, h);
    EveryOnce(1, 2, h);
    forall y: nat | y < h
      ensures y in RowOrder(h, interlaced)
      ensures y in Every(0, 8, h) <==> y % 8 == 0
      ensures y in Every(4, 8, h) <==> y % 8 == 4
      ensures y in Every(2, 4, h) <==> y % 4 == 2
      ensures y in Every(1, 2, h) <==> y % 2 == 1
    {
      EveryHas(0, 1, h, y);
      EveryHas(0, 8, h, y);
      EveryHas(4, 8, h, y);
      EveryHas(2, 4, h, y);
      EveryHas(1, 2, h, y);
      Residue(y);
    }
    var a, b, c, d := Every(0, 8, h), Every(4, 8, h), Every(2, 4, h), Every(1, 2, h);
    forall y: nat | y < h
      ensures !(y in a && y in b) && !(y in a && y in c) && !(y in b && y in c)
      ensures !(y in a && y in d) && !(y in b && y in d) && !(y in c && y in d)
    {
      Residue(y);
    }
    DistinctJoin(a, b);
    DistinctJoin(a + b, c);
    DistinctJoin(a + b + c, d);
  }

  lemma Residue(y: nat)
    ensures y % 8 == 0 || y % 8 == 4 || y % 4 == 2 || y % 2 == 1
    ensures y % 8 == 0 || y % 8 == 4 ==> y % 4 == 0 && y % 2 == 0
    ensures y % 4 == 2 ==> y % 2 == 0
    ensures 0 <= y < 8 || y >= 4
    ensures y % 8 == 4 ==> y >= 4
    ensures y % 4 == 2 ==> y >= 2
    ensures y % 2 == 1 ==> y >= 1
  {
  }

  /** How many of the numbers `from`, `from + step`, ... are below `h`. */
  function CountFrom(from: nat, step: nat, h: nat): nat
    requires step > 0
  {
    if h <= from then 0 else (h - from - 1) / step + 1
  }

  /** As which row of the frame row `r` is sent (GIF89a, Appendix E): every eighth row, every eighth from the
      fourth, every fourth from the second, every second from the first. */
  function WhenSent(r: nat, h: nat, interlaced: bool): nat {
    if !interlaced then r
    else if r % 8 == 0 then r / 8
    else if r % 8 == 4 then CountFrom(0, 8, h) + r / 8
    else if r % 4 == 2 then CountFrom(0, 8, h) + CountFrom(4, 8, h) + r / 4
    else CountFrom(0, 8, h) + CountFrom(4, 8, h) + CountFrom(2, 4, h) + r / 2
  }

  lemma {:induction false} EveryAt(from: nat, step: nat, h: nat, i: nat)
    requires step in {1, 2, 4, 8}
    ensures |Every(from, step, h)| == CountFrom(from, step, h)
    ensures from + i * step < h ==> i < |Every(from, step, h)| && Every(from, step, h)[i] == from + i * step
    decreases if from < h then h - from else 0
  {
    if from < h {
      EveryAt(from + step, step, h, if i > 0 then i - 1 else 0);
      CountNext(from, step, h);
      assert i > 0 ==> (i - 1) * step + step == i * step;
    }
  }

  lemma CountNext(from: nat, step: nat, h: nat)
    requires step in {1, 2, 4, 8} && from < h
    ensures CountFrom(from, step, h) == 1 + CountFrom(from + step, step, h)
  {
    var n := h - from - 1;
    if n >= step {
      assert n == n / step * step + n % step;
      assert (n / step - 1) * step + n % step == n - step by { assert (n / step - 1) * step == n / step * step - step; }
      assert n / step >= 1;
      DivModOf(n / step - 1, step, n % step);
    } else {
      DivModOf(0, step, n);
    }
  }

  lemma RowSent(r: nat, h: nat, interlaced: bool)
    requires r < h
    ensures WhenSent(r, h, interlaced) < |RowOrder(h, interlaced)| && RowOrder(h, interlaced)[WhenSent(r, h, interlaced)] == r
  {
    hide Every, CountFrom;
    if !interlaced {
      EveryAt(0, 1, h, r);
    } else {
      EveryAt(0, 8, h, r / 8);
      EveryAt(4, 8, h, r / 8);
      EveryAt(2, 4, h, r / 4);
      EveryAt(1, 2, h, r / 2);
      Remainders(r);
    }
  }

  lemma Remainders(r: nat)
    ensures r % 8 == 0 ==> r == 8 * (r / 8)
    ensures r % 8 == 4 ==> r == 4 + 8 * (r / 8)
    ensures r % 4 == 2 ==> r == 2 + 4 * (r / 4)
    ensures r % 8 != 0 && r % 8 != 4 && r % 4 != 2 ==> r == 1 + 2 * (r / 2)
  {
  }

  /** The rows the cursor is still to visit. */
  function Rows(y: nat, step: nat, parse: nat, h: nat): seq<nat>
    requires step > 0
    decreases parse, if y < h then h - y else 0
  {
    if y < h then [y] + Rows(y + step, step, parse, h)
    else if parse > 0 then Rows(Pow2(parse) / 2, Pow2(parse), parse - 1, h)
    else []
  }

  lemma {:induction false} RowsAreOnePass(y: nat, step: nat, parse: nat, h: nat)
    requires step > 0
    ensures Rows(y, step, parse, h)
         == Every(y, step, h) + if parse == 0 then [] else Rows(Pow2(parse) / 2, Pow2(parse), parse - 1, h)
    decreases if y < h then h - y else 0
  {
    hide Pow2;
    if y < h {
      RowsAreOnePass(y + step, step, parse, h);
    }
  }

  /** The cursor visits the rows in the order of the standard. */
  lemma RowsInOrder(h: nat)
    ensures Rows(0, 8, 3, h) == RowOrder(h, true) && Rows(0, 1, 0, h) == RowOrder(h, false)
  {
    hide Rows, Every;
    RowsAreOnePass(0, 1, 0, h);
    RowsAreOnePass(0, 8, 3, h);
    RowsAreOnePass(4, 8, 2, h);
    RowsAreOnePass(2, 4, 1, h);
    RowsAreOnePass(1, 2, 0, h);
    assert Pow2(3) == 8 && Pow2(2) == 4 && Pow2(1) == 2;
  }

  // ---- Painting ----------------------------------------------------------------------------

  /** The raster part of `stbi__gif`: the frame at (`left`, `top`) of the canvas, and the cursor.
      Positions count pixels and rows. */
  class Raster {
    const out: array2<Pixel>
    const history: array2<bool>
    const table: seq<Pixel>
    /** The canvas before this frame. */
    const before: (nat, nat) -> Pixel
    const left: nat
    const top: nat
    const width: nat
    const height: nat
    const interlaced: bool
    var cur_x: nat
    var cur_y: nat
    var step: nat
    var parse: nat

    /** Every index received so far, and how many rows they filled. */
    ghost var emitted: seq<byte>
    ghost var done: nat

    ghost function Order(): seq<nat> {
      RowOrder(height, interlaced)
    }

    predicate Shape() {
      && |table| == 256
      && history.Length0 == out.Length0 && history.Length1 == out.Length1
      && left + width <= out.Length1 && top + height <= out.Length0
    }

    /** Where the cursor is. */
    ghost predicate Cursor()
      reads this
    {
      && step > 0 && cur_y >= top && done <= |Order()|
      && (width == 0 ==> cur_y == top + height)
      && (width > 0 ==>
            && left <= cur_x < left + width
            && Order()[done..] == Rows(cur_y - top, step, parse, height)
            && (cur_y < top + height <==> done < |Order()|)
            && (done < |Order()| ==> |emitted| == Start(done, width) + (cur_x - left))
            && (done == |Order()| ==> |emitted| >= Start(done, width)))
    }

    /** What a pixel becomes under an index: transparent entries leave it alone. */
    function Shade(index: byte, old_pixel: Pixel): Pixel
      requires |table| == 256
    {
      var c := table[index];
      if c.c3 > 128 then Pixel(c.c2, c.c1, c.c0, c.c3) else old_pixel
    }

    /** Pixel `c` of the `i`-th row visited is index number `i * width + c`. */
    ghost predicate CellRight(i: nat, c: nat)
      requires Shape() && i < |Order()| && c < width && Order()[i] < height
      reads this`emitted, out, history
    {
      var y, x, k := top + Order()[i], left + c, Start(i, width) + c;
      if k < |emitted| then history[y, x] && out[y, x] == Shade(emitted[k], before(y, x))
      else Untouched(y, x)
    }

    ghost predicate Untouched(y: nat, x: nat)
      requires Shape() && y < out.Length0 && x < out.Length1
      reads out, history
    {
      !history[y, x] && out[y, x] == before(y, x)
    }

    predicate Inside(y: nat, x: nat) {
      top <= y < top + height && left <= x < left + width
    }

    ghost predicate Painted()
      requires Shape()
      reads this`emitted, out, history
    {
      && (forall i :: 0 <= i < |Order()| ==> Order()[i] < height)
      && (forall i: nat, c: nat :: i < |Order()| && c < width ==> CellRight(i, c))
      && (forall y: nat, x: nat :: y < out.Length0 && x < out.Length1 && !Inside(y, x) ==> Untouched(y, x))
    }

    ghost predicate Valid()
      reads this, out, history
    {
      Shape() && Cursor() && Painted()
    }

    /** The image descriptor: the frame, and the cursor at its first pixel. */
    constructor (w: nat, h: nat, canvas: (nat, nat) -> Pixel, table: seq<Pixel>, left: nat, top: nat, width: nat, height: nat, interlaced: bool)
      requires |table| == 256 && left + width <= w && top + height <= h
      ensures Valid() && fresh(out) && fresh(history) && emitted == []
      ensures out.Length0 == h && out.Length1 == w && before == canvas && this.table == table
      ensures this.left == left && this.top == top && this.width == width && this.height == height && this.interlaced == interlaced
    {
      this.table, before := table, canvas;
      this.left, this.top, this.width, this.height, this.interlaced := left, top, width, height, interlaced;
      out := new Pixel[h, w];
      history := new bool[h, w];
      cur_x := left;
      cur_y := if width == 0 then top + height else top;
      step := if interlaced then 8 else 1;
      parse := if interlaced then 3 else 0;
      emitted, done := [], 0;
      new;
      forall y, x | 0 <= y < h && 0 <= x < w {
        out[y, x] := canvas(y, x);
      }
      forall y, x | 0 <= y < h && 0 <= x < w {
        history[y, x] := false;
      }
      StartCursor();
      StartBegins();
    }

    lemma StartCursor()
      requires Shape() && emitted == [] && done == 0 && cur_x == left
      requires cur_y == if width == 0 then top + height else top
      requires step == (if interlaced then 8 else 1) && parse == if interlaced then 3 else 0
      ensures Cursor() && forall i :: 0 <= i < |Order()| ==> Order()[i] < height
    {
      hide Distinct;
      RowsInOrder(height);
      EveryRowOnce(height, interlaced);
      assert forall i :: 0 <= i < |Order()| ==> Order()[i] in Order();
    }

    lemma StartBegins()
      requires Shape() && emitted == [] && done == 0
      requires forall y, x :: 0 <= y < out.Length0 && 0 <= x < out.Length1 ==> out[y, x] == before(y, x) && !history[y, x]
      requires forall i :: 0 <= i < |Order()| ==> Order()[i] < height
      ensures Painted()
    {
      hide RowOrder;
    }

    /** `stbi__out_gif_code` after its recursive call: one index at the cursor. */
    method Emit(index: byte)
      requires Valid()
      modifies `cur_x, `cur_y, `step, `parse, `emitted, `done, out, history
      ensures Valid() && emitted == old(emitted) + [index]
    {
      hide RowOrder, Rows, Start, CellRight, Pow2;
      if cur_y >= top + height {
        Drop(index);
        return;
      }
      RowsNow(cur_y - top, step, parse, height);
      assert Order()[done] == Order()[done..][0];
      Paint(index);
      AfterPixel();
    }

    /** The frame is full: the index goes nowhere. */
    ghost method Drop(index: byte)
      requires Valid() && cur_y >= top + height
      modifies `emitted
      ensures Valid() && emitted == old(emitted) + [index]
    {
      hide RowOrder, Rows, Start;
      ghost var was := emitted;
      emitted := emitted + [index];
      forall i: nat, c: nat | i < |Order()| && c < width
        ensures CellRight(i, c)
      {
        assert old(CellRight(i, c));
        StartAtMost(i + 1, |Order()|, width);
        StartNext(i, width);
        assert Start(i, width) + c < |was|;
      }
      assert Painted();
    }

    /** Writes the pixel under the cursor. */
    method Paint(index: byte)
      requires Valid() && cur_y < top + height && done < |Order()|
      requires Order()[done] == cur_y - top && left <= cur_x < left + width
      requires |emitted| == Start(done, width) + (cur_x - left)
      modifies `emitted, out, history
      ensures Painted() && emitted == old(emitted) + [index]
    {
      hide RowOrder, Rows, Start;
      ghost var was := emitted;
      var c := table[index];
      history[cur_y, cur_x] := true;
      if c.c3 > 128 {
        out[cur_y, cur_x] := Pixel(c.c2, c.c1, c.c0, c.c3);
      }
      emitted := emitted + [index];
      EveryRowOnce(height, interlaced);
      forall i: nat, c: nat | i < |Order()| && c < width
        ensures CellRight(i, c)
      {
        assert old(CellRight(i, c));
        CellsApart(i, c, done, cur_x - left);
      }
    }

    /** The pixel of the canvas in row `r` and column `c` of the frame, once its index has come: the colour of
        the index with red and blue exchanged, or what was there before if the entry is transparent. */
    lemma PixelPainted(r: nat, c: nat)
      requires Valid() && r < height && c < width && WhenSent(r, height, interlaced) * width + c < |emitted|
      ensures var e := table[emitted[WhenSent(r, height, interlaced) * width + c]];
              out[top + r, left + c] == if e.c3 > 128 then Pixel(e.c2, e.c1, e.c0, e.c3) else before(top + r, left + c)
    {
      hide RowOrder, Cursor, WhenSent, Start;
      var i := WhenSent(r, height, interlaced);
      RowSent(r, height, interlaced);
      StartIsProduct(i, width);
      assert Order()[i] == r;
      assert CellRight(i, c);
      assert Start(i, width) + c == i * width + c < |emitted|;
    }

    /** Different pixels of the frame have different numbers. */
    lemma CellsApart(i: nat, c: nat, j: nat, d: nat)
      requires c < width && d < width
      ensures i != j || c != d ==> Start(i, width) + c != Start(j, width) + d
    {
      hide Start;
      if i < j {
        StartMonotone(i, j, width);
      } else if j < i {
        StartMonotone(j, i, width);
      }
    }

    /** Moves the cursor on. */
    method AfterPixel()
      requires Shape() && Painted() && width > 0 && step > 0 && top <= cur_y < top + height && left <= cur_x < left + width
      requires done < |Order()| && Order()[done..] == Rows(cur_y - top, step, parse, height)
      requires |emitted| == Start(done, width) + (cur_x - left) + 1
      modifies `cur_x, `cur_y, `step, `parse, `done
      ensures Valid()
    {
      hide RowOrder, Start, CellRight, Pow2, Shape, Painted;
      RowsNow(cur_y - top, step, parse, height);
      cur_x := cur_x + 1;
      if cur_x >= left + width {
        StartNext(done, width);
        cur_x := left;
        cur_y := cur_y + step;
        assert Order()[done..][1..] == Order()[done + 1..];
        done := done + 1;
        while cur_y >= top + height && parse > 0
          invariant step > 0 && cur_y >= top && cur_x == left
          invariant done <= |Order()| && |emitted| == Start(done, width)
          invariant Order()[done..] == Rows(cur_y - top, step, parse, height)
          decreases parse
        {
          step := Pow2(parse);
          cur_y := top + step / 2;
          parse := parse - 1;
        }
        if cur_y < top + height {
          RowsNow(cur_y - top, step, parse, height);
        }
      }
    }
  }

  lemma RowsNow(y: nat, step: nat, parse: nat, h: nat)
    requires step > 0 && y < h
    ensures Rows(y, step, parse, h) == [y] + Rows(y + step, step, parse, h)
  {
  }
}
