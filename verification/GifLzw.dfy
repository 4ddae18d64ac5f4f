/** `stbi__process_gif_raster`: LZW with prefix-linked table entries, against the dictionary-of-strings
    decoder of GIF89a Appendix F. */
module GifLzw {
  import opened Bits
  import opened InflateSpec
  import opened PngFile
  import opened GifRaster

  // ---- The reference decoder ---------------------------------------------------------------

  /** The position after reading one byte, which at the end of the input stays put. */
  function Next(s: seq<byte>, pos: nat): nat {
    if pos < |s| then pos + 1 else pos
  }

  /** The data bytes of the sub-blocks from `pos` on, `len` of them left in the current one. */
  function Payload(s: seq<byte>, pos: nat, len: nat): seq<byte>
    decreases if pos < |s| then |s| - pos else 0, len
  {
    if len > 0 then [ByteAt(s, pos)] + Payload(s, Next(s, pos), len - 1)
    else if ByteAt(s, pos) == 0 then []
    else Payload(s, Next(s, pos), ByteAt(s, pos))
  }

  /** Where the sub-blocks end: past their empty terminator. */
  function BlocksEnd(s: seq<byte>, pos: nat, len: nat): nat
    decreases if pos < |s| then |s| - pos else 0, len
  {
    if len > 0 then BlocksEnd(s, Next(s, pos), len - 1)
    else if ByteAt(s, pos) == 0 then Next(s, pos)
    else BlocksEnd(s, Next(s, pos), ByteAt(s, pos))
  }

  /** The decoder's dictionary: `strings[code]`, the width of the next code, the string of the last
      code, and whether a clear code has been seen. */
  datatype Dictionary = Dictionary(width: nat, strings: seq<seq<byte>>, last: Option<seq<byte>>, cleared: bool)

  datatype Turn = Clear | Stop | Bad | Emit(text: seq<byte>, next: Dictionary)

  datatype Raw = Indices(indices: seq<byte>) | BadRaster

  /** One string for every index; the two control codes have none. */
  function Fresh(cs: nat, cleared: bool): (d: Dictionary) {
    Dictionary(cs + 1, seq(Pow2(cs) + 2, (i: nat) => if i < Pow2(cs) then [i % 256] else []), None, cleared)
  }

  /** Codes get one bit longer when the next free code no longer fits, up to twelve bits. */
  function Grow(width: nat, n: nat): nat {
    if Low(n, width) == 0 && n <= 0x0FFF then width + 1 else width
  }

  function Head(text: seq<byte>): seq<byte> {
    if text == [] then [] else [text[0]]
  }

  /** The string that a code stands for after `last`: the code being defined is `last` and its own
      first index. */
  function Text(strings: seq<seq<byte>>, last: seq<byte>, code: nat): seq<byte>
    requires code <= |strings|
  {
    if code < |strings| then strings[code] else last + Head(last)
  }

  /** What the decoder does with one code. */
  function Decoded(d: Dictionary, clear: nat, code: nat): (r: Turn)
    ensures r.Emit? ==> r.next.width >= d.width
  {
    if code == clear then Clear
    else if code == clear + 1 then Stop
    else if !d.cleared || code > |d.strings| then Bad
    else match d.last
      case None =>
        if code == |d.strings| then Bad
        else Emit(d.strings[code], d.(width := Grow(d.width, |d.strings|), last := Some(d.strings[code])))
      case Some(last) =>
        var text := Text(d.strings, last, code);
        if |d.strings| >= 8192 then Bad
        else
          Emit(text, d.(width := Grow(d.width, |d.strings| + 1), strings := d.strings + [last + Head(text)], last := Some(text)))
  }

  /** The indices of the code stream `p` from bit `at` on, after `out`. */
  function Lzw(p: seq<byte>, cs: nat, at: nat, d: Dictionary, out: seq<byte>): Raw
    requires d.width > 0
    decreases 8 * |p| - at
  {
    if at + d.width > 8 * |p| then Indices(out)
    else match Decoded(d, Pow2(cs), Peek(p, at, d.width))
      case Clear => Lzw(p, cs, at + d.width, Fresh(cs, true), out)
      case Stop => Indices(out)
      case Bad => BadRaster
      case Emit(text, next) => Lzw(p, cs, at + d.width, next, out + text)
  }

  /** A whole raster: the code size, then the sub-blocks. */
  function RasterIndices(s: seq<byte>, pos: nat): Raw {
    var cs := ByteAt(s, pos);
    if cs > 12 then BadRaster else Lzw(Payload(s, Next(s, pos), 0), cs, 0, Fresh(cs, false), [])
  }

  function AtMost(a: nat, bound: nat): nat {
    if a <= bound then a else bound
  }

  /** The width of the standard: just enough bits for the next free code, but at most twelve. */
  ghost predicate WidthFits(d: Dictionary) {
    && 0 < d.width <= 12 && Pow2(d.width - 1) <= |d.strings|
    && (d.width < 12 ==> |d.strings| < Pow2(d.width))
  }

  /** With at least two bits per index, every dictionary reached has that width: a new one has it, and
      each code keeps it. */
  lemma WidthKept(cs: nat, cleared: bool, d: Dictionary, clear: nat, code: nat)
    ensures 2 <= cs <= 11 ==> WidthFits(Fresh(cs, cleared))
    ensures WidthFits(d) ==> var r := Decoded(d, clear, code); r.Emit? ==> WidthFits(r.next)
  {
    hide Low;
    if 2 <= cs <= 11 {
      Pow2Monotone(2, cs);
      assert Pow2(2) == 4 && Pow2(cs + 1) == 2 * Pow2(cs);
    }
    if WidthFits(d) && Decoded(d, clear, code).Emit? {
      GrowFits(d.width, |d.strings|, |Decoded(d, clear, code).next.strings|);
    }
  }

  lemma GrowFits(width: nat, n: nat, n': nat)
    requires 0 < width <= 12 && Pow2(width - 1) <= n && (width < 12 ==> n < Pow2(width)) && n <= n' <= n + 1
    ensures var w := Grow(width, n'); 0 < w <= 12 && Pow2(w - 1) <= n' && (w < 12 ==> n' < Pow2(w))
  {
    hide Low;
    Twelve();
    assert Pow2(width + 1) == 2 * Pow2(width);
    Recompose(n', width);
    if n' < Pow2(width) {
      ShrSmall(n', width);
      ShlZero(width);
    } else if width < 12 {
      Pow2Monotone(width, 11);
      assert Pow2(11) == 2048 by { assert Pow2(12) == 2 * Pow2(11); }
      LowPow2(width);
    }
  }

  lemma LowPow2(k: nat)
    ensures Low(Pow2(k), k) == 0
  {
    hide Low, Shl;
    ShlPow2(0, k);
    assert Pow2(0) == 1;
    SplitAt(1, 0, k);
  }

  // ---- Reading the sub-blocks --------------------------------------------------------------

  lemma OpenBlock(s: seq<byte>, pos: nat)
    ensures ByteAt(s, pos) == 0 ==> Payload(s, pos, 0) == [] && BlocksEnd(s, pos, 0) == Next(s, pos)
    ensures ByteAt(s, pos) > 0 ==> pos < |s|
    ensures ByteAt(s, pos) > 0 ==> Payload(s, pos, 0) == Payload(s, Next(s, pos), ByteAt(s, pos))
    ensures ByteAt(s, pos) > 0 ==> BlocksEnd(s, pos, 0) == BlocksEnd(s, Next(s, pos), ByteAt(s, pos))
  {
  }

  lemma DataByte(s: seq<byte>, pos: nat, len: nat)
    requires len > 0
    ensures Payload(s, pos, len) == [ByteAt(s, pos)] + Payload(s, Next(s, pos), len - 1)
    ensures BlocksEnd(s, pos, len) == BlocksEnd(s, Next(s, pos), len - 1)
  {
  }

  /** Skipping the rest of a block ends up where reading it byte by byte does. */
  lemma {:induction false} SkipBlock(s: seq<byte>, pos: nat, len: nat)
    ensures AtMost(BlocksEnd(s, pos, len), |s|) == AtMost(BlocksEnd(s, pos + len, 0), |s|)
    decreases len
  {
    if len > 0 {
      SkipBlock(s, Next(s, pos), len - 1);
      if pos >= |s| {
        assert BlocksEnd(s, pos + len, 0) == pos + len && BlocksEnd(s, pos + len - 1, 0) == pos + len - 1;
      }
    }
  }

  /** `fed` bytes of the payload have been read; `valid` bits of them are still to be used. */
  ghost predicate Fed(p: seq<byte>, s: seq<byte>, pos: nat, len: nat, at: nat, fed: nat, bits: nat, valid: nat) {
    && fed <= |p| && p[fed..] == Payload(s, pos, len)
    && at + valid == 8 * fed && bits == Peek(p, at, valid)
  }

  /** One more byte: a new block is started when the current one is used up. */
  method Refill(s: Context, len: nat, bits: nat, valid: nat, ghost p: seq<byte>, ghost at: nat, ghost fed: nat)
    returns (len': nat, bits': nat, more: bool)
    requires Fed(p, s.buffer, s.pos, len, at, fed, bits, valid)
    modifies s
    ensures len < 256 ==> len' < 256
    ensures more ==> Fed(p, s.buffer, s.pos, len', at, fed + 1, bits', valid + 8)
    ensures more ==> BlocksEnd(s.buffer, s.pos, len') == BlocksEnd(s.buffer, old(s.pos), len)
    ensures more ==> (old(s.pos) < s.pos <= |s.buffer|) || (old(s.pos) == s.pos >= |s.buffer| && len' < len)
    ensures !more ==> at + valid == 8 * |p| && s.pos == BlocksEnd(s.buffer, old(s.pos), len)
  {
    hide Payload, BlocksEnd, Peek, Or, Shl;
    len', bits' := len, bits;
    if len' == 0 {
      OpenBlock(s.buffer, s.pos);
      len' := s.Get8();
      if len' == 0 {
        return len', bits', false;
      }
    }
    DataByte(s.buffer, s.pos, len');
    len' := len' - 1;
    var b := s.Get8();
    assert p[fed] == b && p[fed + 1..] == p[fed..][1..];
    PeekSplit(p, at, valid, 8);
    PeekByte(p, fed);
    OrShifted(bits, b, valid);
    bits' := Or(bits, Shl(b, valid));
    more := true;
  }

  /** After the end code: the rest of the blocks. */
  method SkipBlocks(s: Context, len: nat)
    requires len < 256
    modifies s
    ensures AtMost(s.pos, |s.buffer|) == AtMost(BlocksEnd(s.buffer, old(s.pos), len), |s.buffer|)
  {
    hide BlocksEnd, Payload;
    SkipBlock(s.buffer, s.pos, len);
    s.Skip(len);
    while true
      invariant AtMost(BlocksEnd(s.buffer, s.pos, 0), |s.buffer|) == AtMost(BlocksEnd(s.buffer, old(s.pos), len), |s.buffer|)
      decreases |s.buffer| - s.pos
    {
      OpenBlock(s.buffer, s.pos);
      var n := s.Get8();
      if n == 0 {
        break;
      }
      SkipBlock(s.buffer, s.pos, n);
      s.Skip(n);
    }
  }

  // ---- The table of prefix links -----------------------------------------------------------

  /** `stbi__gif_lzw`. */
  datatype Entry = Entry(prefix: int, first: byte, suffix: byte)

  /** The table of `stbi__gif` with its frame. */
  class Gif {
    const codes: array<Entry>
    const raster: GifRaster.Raster

    constructor (raster: GifRaster.Raster)
      ensures codes.Length == 8192 && fresh(codes) && this.raster == raster
    {
      codes := new Entry[8192];
      this.raster := raster;
    }

    /** The control codes are not entries. */
    predicate Live(i: int, n: nat, clear: nat) {
      0 <= i < n && i != clear && i != clear + 1
    }

    /** Entry `i` spells `strings[i]`; its prefix is an earlier entry. */
    ghost predicate Spells(i: nat, strings: seq<seq<byte>>, clear: nat)
      requires i < |strings| <= codes.Length
      reads codes
    {
      var e := codes[i];
      && strings[i] != [] && e.first == strings[i][0]
      && (e.prefix < 0 ==> strings[i] == [e.suffix])
      && (e.prefix >= 0 ==> e.prefix < i && Live(e.prefix, i, clear) && strings[i] == strings[e.prefix] + [e.suffix])
    }

    ghost predicate Holds(strings: seq<seq<byte>>, clear: nat)
      reads codes
    {
      && |strings| <= codes.Length
      && forall i: nat :: Live(i, |strings|, clear) ==> Spells(i, strings, clear)
    }

    /** `stbi__out_gif_code`: the string of a code, prefix first. */
    method OutGifCode(code: nat, ghost strings: seq<seq<byte>>, clear: nat)
      requires Holds(strings, clear) && Live(code, |strings|, clear) && raster.Valid()
      modifies raster`cur_x, raster`cur_y, raster`step, raster`parse, raster`emitted, raster`done, raster.out, raster.history
      ensures raster.Valid() && raster.emitted == old(raster.emitted) + strings[code]
      ensures Holds(strings, clear)
      decreases code
    {
      hide GifRaster.Raster.Valid;
      assert Spells(code, strings, clear);
      if codes[code].prefix >= 0 {
        OutGifCode(codes[code].prefix, strings, clear);
      }
      raster.Emit(codes[code].suffix);
    }

    /** `init_code` loop: one entry for every index. */
    method InitTable(cs: nat)
      requires cs <= 12 && codes.Length == 8192
      modifies codes
      ensures Holds(Fresh(cs, false).strings, Pow2(cs))
    {
      hide Pow2;
      ClearBound(cs);
      var clear := Pow2(cs);
      for i := 0 to clear
        invariant forall k :: 0 <= k < i ==> codes[k] == Entry(-1, k % 256, k % 256)
      {
        codes[i] := Entry(-1, i % 256, i % 256);
      }
    }

    /** The variables of the loop against the state of the reference decoder. */
    ghost predicate Linked(d: Dictionary, cs: nat, codesize: nat, avail: nat, oldcode: int, first: bool)
      reads codes
    {
      && codes.Length == 8192 && cs <= 12 && cs < codesize <= 13
      && d.width == codesize && |d.strings| == avail && d.cleared == !first
      && Fresh(cs, false).strings <= d.strings && Holds(d.strings, Pow2(cs))
      && (oldcode < 0 <==> d.last.None?)
      && (oldcode >= 0 ==> Live(oldcode, avail, Pow2(cs)) && d.last == Some(d.strings[oldcode]))
    }

    lemma HoldsPrefix(shorter: seq<seq<byte>>, strings: seq<seq<byte>>, clear: nat)
      requires shorter <= strings && Holds(strings, clear)
      ensures Holds(shorter, clear)
    {
      forall i: nat | Live(i, |shorter|, clear)
        ensures Spells(i, shorter, clear)
      {
        assert Spells(i, strings, clear);
      }
    }

    /** The table after a clear code: nothing needs to be written. */
    lemma Cleared(d: Dictionary, cs: nat, codesize: nat, avail: nat, oldcode: int, first: bool)
      requires Linked(d, cs, codesize, avail, oldcode, first)
      ensures Linked(Fresh(cs, true), cs, cs + 1, Pow2(cs) + 2, -1, false)
    {
      hide Pow2, Holds;
      HoldsPrefix(Fresh(cs, false).strings, d.strings, Pow2(cs));
    }

    /** A new entry at `avail`: the last code's string and the first index of this one's. */
    method AddEntry(avail: nat, oldcode: nat, code: nat, ghost strings: seq<seq<byte>>, ghost clear: nat)
      requires avail < codes.Length && |strings| == avail && Holds(strings, clear) && clear + 2 <= avail
      requires Live(oldcode, avail, clear) && Live(code, avail + 1, clear)
      modifies codes
      ensures Holds(strings + [strings[oldcode] + Head(Text(strings, strings[oldcode], code))], clear)
    {
      assert Spells(oldcode, strings, clear);
      assert code < avail ==> Spells(code, strings, clear);
      ghost var longer := strings + [strings[oldcode] + Head(Text(strings, strings[oldcode], code))];
      codes[avail] := codes[avail].(prefix := oldcode);
      codes[avail] := codes[avail].(first := codes[oldcode].first);
      // the counter has already moved past the new entry, so the comparison never succeeds; the new
      // entry's own first index is in place when it is asked for
      var source := if code == avail + 1 then avail else code;
      codes[avail] := codes[avail].(suffix := codes[source].first);
      forall i: nat | Live(i, |longer|, clear)
        ensures Spells(i, longer, clear)
      {
        assert i < avail ==> old(Spells(i, strings, clear));
      }
    }

    /** One code: the branches of the loop. */
    method TakeCode(code: nat, cs: nat, codesize: nat, avail: nat, oldcode: int, first: bool, ghost d: Dictionary)
      returns (status: Status, codesize': nat, avail': nat, oldcode': int, first': bool, ghost d': Dictionary)
      requires Linked(d, cs, codesize, avail, oldcode, first) && raster.Valid()
      modifies codes, raster`cur_x, raster`cur_y, raster`step, raster`parse, raster`emitted, raster`done, raster.out, raster.history
      ensures raster.Valid() && (status == Going ==> d'.width == codesize' > 0)
      ensures match Decoded(d, Pow2(cs), code)
              case Bad => status == Failed
              case Stop => status == Ended && raster.emitted == old(raster.emitted)
              case Clear => status == Going && raster.emitted == old(raster.emitted) && d' == Fresh(cs, true)
                            && Linked(d', cs, codesize', avail', oldcode', first')
              case Emit(text, next) => status == Going && raster.emitted == old(raster.emitted) + text && d' == next
                                       && Linked(d', cs, codesize', avail', oldcode', first')
    {
      hide Pow2, Low, And, Holds, GifRaster.Raster.Valid;
      status, codesize', avail', oldcode', first', d' := Going, codesize, avail, oldcode, first, d;
      var clear := Pow2(cs);
      if code == clear {
        Cleared(d, cs, codesize, avail, oldcode, first);
        codesize', avail', oldcode', first' := cs + 1, clear + 2, -1, false;
        d' := Fresh(cs, true);
      } else if code == clear + 1 {
        status := Ended;
      } else if code <= avail {
        if first {
          return Failed, codesize, avail, oldcode, first, d;
        }
        ghost var strings := d.strings;
        if oldcode >= 0 {
          avail' := avail + 1;
          if avail' > 8192 {
            return Failed, codesize, avail', oldcode, first, d;
          }
          strings := strings + [strings[oldcode] + Head(Text(strings, strings[oldcode], code))];
          AddEntry(avail, oldcode, code, d.strings, clear);
        } else if code == avail {
          return Failed, codesize, avail, oldcode, first, d;
        }
        OutGifCode(code, strings, clear);
        AndMask(avail', codesize);
        GrowBound(codesize, avail');
        if And(avail', Pow2(codesize) - 1) == 0 && avail' <= 0x0FFF {
          codesize' := codesize + 1;
        }
        oldcode' := code;
        d' := Decoded(d, clear, code).next;
      } else {
        status := Failed;
      }
    }

    /** `stbi__process_gif_raster`: success and failure are those of the reference decoder, and so are
        the indices sent to the frame. */
    method ProcessRaster(s: Context) returns (ok: bool)
      requires codes.Length == 8192 && raster.Valid() && raster.emitted == []
      modifies s, codes, raster`cur_x, raster`cur_y, raster`step, raster`parse, raster`emitted, raster`done, raster.out, raster.history
      ensures raster.Valid()
      ensures RasterIndices(s.buffer, old(s.pos)) == if ok then Indices(raster.emitted) else BadRaster
      ensures ok ==> AtMost(s.pos, |s.buffer|) == AtMost(BlocksEnd(s.buffer, Next(s.buffer, old(s.pos)), 0), |s.buffer|)
    {
      hide Pow2, Low, And, Payload, BlocksEnd, Lzw, Linked, Holds, Fed, Decoded, GifRaster.Raster.Valid;
      var lzw_cs := s.Get8();
      if lzw_cs > 12 {
        return false;
      }
      ghost var p, end := Payload(s.buffer, s.pos, 0), BlocksEnd(s.buffer, s.pos, 0);
      InitTable(lzw_cs);
      FreshLinked(lzw_cs);
      var codesize: nat, avail: nat, oldcode, first := lzw_cs + 1, Pow2(lzw_cs) + 2, -1, true;
      var len: nat, bits: nat, valid_bits: nat := 0, 0, 0;
      ghost var d, at: nat, fed: nat := Fresh(lzw_cs, false), 0, 0;
      NothingFed(p, s.buffer, s.pos);
      while true
        invariant raster.Valid() && Linked(d, lzw_cs, codesize, avail, oldcode, first) && len < 256
        invariant Fed(p, s.buffer, s.pos, len, at, fed, bits, valid_bits)
        invariant BlocksEnd(s.buffer, s.pos, len) == end
        invariant d.width == codesize > 0
        invariant RasterIndices(s.buffer, old(s.pos)) == Lzw(p, lzw_cs, at, d, raster.emitted)
        decreases if s.pos < |s.buffer| then |s.buffer| - s.pos else 0, len, valid_bits
      {
        if valid_bits < codesize {
          var more;
          len, bits, more := Refill(s, len, bits, valid_bits, p, at, fed);
          if !more {
            LzwOver(p, lzw_cs, at, d, raster.emitted);
            return true;
          }
          valid_bits, fed := valid_bits + 8, fed + 1;
        } else {
          var code, status;
          EnoughBits(p, s.buffer, s.pos, len, at, fed, bits, valid_bits);
          LzwStep(p, lzw_cs, at, d, raster.emitted);
          code, bits := TakeBits(bits, valid_bits, codesize, p, s.buffer, s.pos, len, at, fed);
          valid_bits := valid_bits - codesize;
          at := at + codesize;
          status, codesize, avail, oldcode, first, d := TakeCode(code, lzw_cs, codesize, avail, oldcode, first, d);
          if status == Ended {
            SkipBlocks(s, len);
            return true;
          }
          if status == Failed {
            return false;
          }
        }
      }
    }

    lemma FreshLinked(cs: nat)
      requires codes.Length == 8192 && cs <= 12 && Holds(Fresh(cs, false).strings, Pow2(cs))
      ensures Linked(Fresh(cs, false), cs, cs + 1, Pow2(cs) + 2, -1, true)
    {
      hide Holds, Pow2;
    }
  }

  /** The low bits of the reservoir are the next code. */
  method TakeBits(bits: nat, valid: nat, codesize: nat, ghost p: seq<byte>, ghost s: seq<byte>, ghost pos: nat, ghost len: nat, ghost at: nat, ghost fed: nat)
    returns (code: nat, bits': nat)
    requires codesize <= valid && Fed(p, s, pos, len, at, fed, bits, valid)
    ensures code == Peek(p, at, codesize) && Fed(p, s, pos, len, at + codesize, fed, bits', valid - codesize)
  {
    hide Peek, And, Low, Shr, Payload, Pow2;
    PeekTake(p, at, codesize, valid - codesize);
    AndMask(bits, codesize);
    code := And(bits, Pow2(codesize) - 1);
    bits' := Shr(bits, codesize);
  }

  lemma EnoughBits(p: seq<byte>, s: seq<byte>, pos: nat, len: nat, at: nat, fed: nat, bits: nat, valid: nat)
    requires Fed(p, s, pos, len, at, fed, bits, valid)
    ensures at + valid <= 8 * |p|
  {
  }

  lemma NothingFed(p: seq<byte>, s: seq<byte>, pos: nat)
    requires p == Payload(s, pos, 0)
    ensures Fed(p, s, pos, 0, 0, 0, 0, 0)
  {
  }

  lemma LzwOver(p: seq<byte>, cs: nat, at: nat, d: Dictionary, out: seq<byte>)
    requires d.width > 0 && at + d.width > 8 * |p|
    ensures Lzw(p, cs, at, d, out) == Indices(out)
  {
  }

  lemma LzwStep(p: seq<byte>, cs: nat, at: nat, d: Dictionary, out: seq<byte>)
    requires d.width > 0 && at + d.width <= 8 * |p|
    ensures Lzw(p, cs, at, d, out)
         == match Decoded(d, Pow2(cs), Peek(p, at, d.width))
            case Clear => Lzw(p, cs, at + d.width, Fresh(cs, true), out)
            case Stop => Indices(out)
            case Bad => BadRaster
            case Emit(text, next) => Lzw(p, cs, at + d.width, next, out + text)
  {
    hide Decoded, Pow2, Peek;
  }

  datatype Status = Going | Ended | Failed

  /** Twelve bits are never outgrown, except by a first width of thirteen. */
  lemma GrowBound(width: nat, n: nat)
    requires 0 < n && width <= 13
    ensures Grow(width, n) <= 13
  {
    hide Low, Pow2;
    if width >= 12 && n <= 0x0FFF {
      Pow2Monotone(12, width);
      assert Pow2(12) >= 4096 by { ClearBound(12); Pow2Values(); Twelve(); }
      ShrSmall(n, width);
      Recompose(n, width);
      ShlZero(width);
    }
  }

  lemma Twelve()
    ensures Pow2(12) == 4096
  {
    Pow2Values();
    assert Pow2(12) == 2 * Pow2(11) && Pow2(11) == 2 * Pow2(10) && Pow2(10) == 2 * Pow2(9);
  }

  lemma ClearBound(cs: nat)
    requires cs <= 12
    ensures Pow2(cs) <= 4096
  {
    Pow2Monotone(cs, 12);
    Twelve();
  }
}
