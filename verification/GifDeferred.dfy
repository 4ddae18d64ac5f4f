/** The decoder of the GIF standard for streams that put off the clear code: a full table of 4096 strings
    stays as it is.  The program goes on adding entries that no code can name, until it runs out of room. */
module GifDeferred {
  import opened Bits
  import opened InflateSpec
  import opened GifLzw

  const FULL := 4096
  const ROOM := 8192

  /** One code, with a table that is frozen when it is full. */
  function FrozenTurn(f: Dictionary, clear: nat, code: nat): (r: Turn)
    ensures r.Emit? ==> r.next.width >= f.width
  {
    if |f.strings| >= FULL && code < |f.strings| && code != clear && code != clear + 1 && f.cleared && f.last.Some?
    then Emit(f.strings[code], f.(last := Some(f.strings[code])))
    else Decoded(f, clear, code)
  }

  function FrozenLzw(p: seq<byte>, cs: nat, at: nat, f: Dictionary, out: seq<byte>): Raw
    requires f.width > 0
    decreases 8 * |p| - at
  {
    if at + f.width > 8 * |p| then Indices(out)
    else match FrozenTurn(f, Pow2(cs), Peek(p, at, f.width))
      case Clear => FrozenLzw(p, cs, at + f.width, Fresh(cs, true), out)
      case Stop => Indices(out)
      case Bad => BadRaster
      case Emit(text, next) => FrozenLzw(p, cs, at + f.width, next, out + text)
  }

  /** Too many codes come without a clear code between them: `age` counts the entries the program has made. */
  predicate Overrun(p: seq<byte>, cs: nat, at: nat, f: Dictionary, age: nat)
    requires f.width > 0
    decreases 8 * |p| - at
  {
    at + f.width <= 8 * |p|
    && match FrozenTurn(f, Pow2(cs), Peek(p, at, f.width))
       case Clear => Overrun(p, cs, at + f.width, Fresh(cs, true), |Fresh(cs, true).strings|)
       case Stop => false
       case Bad => false
       case Emit(_, next) =>
         if f.last.None? then Overrun(p, cs, at + f.width, next, age)
         else age >= ROOM || Overrun(p, cs, at + f.width, next, age + 1)
  }

  /** What of the program's table codes can name. */
  function Named(d: Dictionary): (f: Dictionary)
    ensures f.width == d.width && f.last == d.last && f.cleared == d.cleared
  {
    d.(strings := d.strings[..AtMost(|d.strings|, FULL)])
  }

  lemma WidthCapped(width: nat, n: nat)
    requires 0 < width <= 12 && n > 0
    ensures Grow(width, n) <= 12
    ensures n >= FULL ==> Grow(width, n) == width
  {
    hide Low;
    if width == 12 {
      Pow2Values();
      assert Pow2(12) == 4096;
      LowSmall(n, 12);
    }
  }

  lemma LowSmall(n: nat, k: nat)
    ensures n < Pow2(k) ==> Low(n, k) == n
  {
  }

  /** One code, in the program and in the frozen table. */
  lemma SameTurn(d: Dictionary, clear: nat, code: nat)
    requires 0 < d.width <= 12 && code < FULL && |d.strings| > 0
    ensures var r, t := Decoded(d, clear, code), FrozenTurn(Named(d), clear, code);
            if t.Emit? && d.last.Some? && |d.strings| >= ROOM then r.Bad?
            else match t
              case Emit(text, next) =>
                && r.Emit? && r.text == text && Named(r.next) == next && 0 < next.width <= 12 && next.last.Some?
                && |r.next.strings| == |d.strings| + if d.last.Some? then 1 else 0
              case _ => r == t
  {
    hide Grow;
    WidthCapped(d.width, |d.strings|);
    WidthCapped(d.width, |d.strings| + 1);
    WidthCapped(d.width, FULL);
    var f := Named(d);
    if |d.strings| < FULL {
      assert f.strings == d.strings;
    }
    var r := Decoded(d, clear, code);
    if r.Emit? && d.last.Some? && |d.strings| < FULL {
      assert r.next.strings[..|r.next.strings|] == r.next.strings;
    }
  }

  /** The program decodes a raster as the standard does, except that it rejects exactly those in which too
      many codes follow each other without a clear code. */
  lemma {:induction false} DeferredClear(p: seq<byte>, cs: nat, at: nat, d: Dictionary, out: seq<byte>)
    requires cs <= 11 && 0 < d.width <= 12 && |d.strings| > 0
    ensures Lzw(p, cs, at, d, out)
         == if Overrun(p, cs, at, Named(d), |d.strings|) then BadRaster else FrozenLzw(p, cs, at, Named(d), out)
    decreases 8 * |p| - at
  {
    hide Decoded, FrozenTurn, Peek, Fresh, Pow2;
    if at + d.width <= 8 * |p| {
      var code := Peek(p, at, d.width);
      CodeBelow(p, at, d.width);
      SameTurn(d, Pow2(cs), code);
      match Decoded(d, Pow2(cs), code) {
        case Clear =>
          FreshNamed(cs, true);
          DeferredClear(p, cs, at + d.width, Fresh(cs, true), out);
        case Stop =>
        case Bad =>
        case Emit(text, next) =>
          DeferredClear(p, cs, at + d.width, next, out + text);
      }
    }
  }

  lemma CodeBelow(p: seq<byte>, at: nat, w: nat)
    requires w <= 12
    ensures Peek(p, at, w) < FULL
  {
    hide Peek;
    Pow2Monotone(w, 12);
    assert Pow2(12) == 4096 by { Pow2Values(); }
  }

  lemma FreshNamed(cs: nat, cleared: bool)
    requires cs <= 11
    ensures var d := Fresh(cs, cleared); Named(d) == d && 0 < d.width <= 12 && 0 < |d.strings|
  {
    Pow2Monotone(cs, 11);
    Twelve();
    var strings := Fresh(cs, cleared).strings;
    assert strings[..|strings|] == strings;
  }

  /** The same for a whole raster. */
  lemma DeferredRaster(s: seq<byte>, pos: nat)
    requires ByteAt(s, pos) <= 11
    ensures var cs, p := ByteAt(s, pos), Payload(s, Next(s, pos), 0);
            var f := Fresh(cs, false);
            RasterIndices(s, pos) == if Overrun(p, cs, 0, f, |f.strings|) then BadRaster else FrozenLzw(p, cs, 0, f, [])
  {
    hide Payload, Fresh, Lzw, FrozenLzw, Overrun;
    var cs := ByteAt(s, pos);
    FreshNamed(cs, false);
    DeferredClear(Payload(s, Next(s, pos), 0), cs, 0, Fresh(cs, false), []);
  }
}
