/** `stbi__zbuf` and the zlib decoder: a 32-bit reservoir of bits over the input, Huffman tables,
    and an output buffer that doubles when it is full. */
module Inflate {
  import opened Bits
  import opened Huffman
  import opened HuffmanTable
  import opened InflateSpec
  import opened FixedCodes

  class ZBuf {
    const zbuffer: seq<byte>
    var pos: nat
    var num_bits: nat
    var hit_zeof_once: bool
    var code_buffer: uint32

    var buf: array<byte>
    var zout: nat
    const z_expandable: bool

    const z_length: ZHuffman
    const z_distance: ZHuffman

    /** How many bits of the stream have been consumed. */
    ghost var c: nat

    /** Zero bits in the reservoir that do not come from the input. */
    ghost function Padding(): int
      reads this`pos, this`num_bits, this`c
    {
      c + num_bits - 8 * pos
    }

    /** The reservoir holds the next `num_bits` bits of the stream; padding appears only after the
        last byte has been fetched. */
    ghost predicate Reservoir()
      reads this`pos, this`num_bits, this`hit_zeof_once, this`code_buffer, this`c
    {
      && pos <= |zbuffer| && num_bits <= 32
      && code_buffer == Peek(zbuffer, c, num_bits)
      && Padding() >= 0 && Padding() % 8 == 0
      && (Padding() > 0 ==> pos == |zbuffer|)
      && (hit_zeof_once ==> pos == |zbuffer| && Padding() >= 16)
    }

    ghost predicate Room()
      reads this`buf, this`zout
    {
      0 < buf.Length <= UINT_MAX && zout <= buf.Length
    }

    ghost predicate Separate()
      reads this`buf
    {
      && z_length.Shape() && z_distance.Shape() && z_length.Repr() !! z_distance.Repr()
      && buf as object !in z_length.Repr() && buf as object !in z_distance.Repr()
    }

    ghost predicate Valid()
      reads this
    {
      Reservoir() && Room() && Separate()
    }

    ghost function Out(): seq<byte>
      reads this`buf, this`zout, buf
      requires Room()
    {
      buf[..zout]
    }

    /** The most output that is certain to fit. */
    ghost function Limit(): nat
      reads this
    {
      if z_expandable then INT_MAX else buf.Length
    }

    constructor (input: seq<byte>, olen: nat, expandable: bool)
      requires 0 < olen <= UINT_MAX
      ensures Valid() && fresh(buf) && fresh(z_length.Repr()) && fresh(z_distance.Repr())
      ensures zbuffer == input && z_expandable == expandable && buf.Length == olen
      ensures pos == 0 && zout == 0 && c == 0 && num_bits == 0
    {
      zbuffer := input;
      pos, num_bits, code_buffer, hit_zeof_once := 0, 0, 0, false;
      buf := new byte[olen](_ => 0);
      zout := 0;
      z_expandable := expandable;
      z_length := new ZHuffman();
      z_distance := new ZHuffman();
      c := 0;
    }

    /** `stbi__zeof`. */
    predicate AtEnd()
      reads this
    {
      pos >= |zbuffer|
    }

    /** `stbi__zget8`. */
    method GetByte() returns (b: byte)
      modifies this`pos
      ensures b == ByteAt(zbuffer, old(pos))
      ensures pos == if old(pos) < |zbuffer| then old(pos) + 1 else old(pos)
    {
      if AtEnd() {
        b := 0;
      } else {
        b := zbuffer[pos];
        pos := pos + 1;
      }
    }

    /** `stbi__fill_bits`.  Its test for stray bits above the reservoir never succeeds. */
    method FillBits()
      requires Reservoir() && num_bits <= 24
      modifies this`pos, this`num_bits, this`code_buffer
      ensures Reservoir() && 24 < num_bits <= 32
    {
      hide Peek, Pow2, Or, Shl;
      while true
        invariant Reservoir() && num_bits <= 24
        decreases 24 - num_bits
      {
        if code_buffer >= Pow2(num_bits) {
          assert false;
        }
        FillStep(zbuffer, pos, c, num_bits);
        var b := GetByte();
        OrShifted(code_buffer, b, num_bits);
        code_buffer := Or(code_buffer, Shl(b, num_bits));
        num_bits := num_bits + 8;
        if num_bits > 24 {
          break;
        }
      }
    }

    /** `stbi__zreceive`: the next `n` bits. */
    method Receive(n: nat) returns (k: nat)
      requires Reservoir() && n <= 24
      modifies this`pos, this`num_bits, this`code_buffer, this`c
      ensures Reservoir() && c == old(c) + n
      ensures k == Peek(zbuffer, old(c), n)
      ensures old(num_bits) >= n ==> num_bits == old(num_bits) - n && pos == old(pos)
      ensures num_bits <= 32 - n
    {
      if num_bits < n {
        FillBits();
      }
      AndMask(code_buffer, n);
      k := And(code_buffer, Pow2(n) - 1);
      Consume(n);
    }

    /** Drops the `s` lowest bits of the reservoir. */
    method Consume(s: nat)
      requires Reservoir() && s <= num_bits
      modifies this`num_bits, this`code_buffer, this`c
      ensures Reservoir() && c == old(c) + s && num_bits == old(num_bits) - s
      ensures Low(old(code_buffer), s) == Peek(zbuffer, old(c), s)
    {
      hide Peek, Pow2, Low, Shr;
      PeekTake(zbuffer, c, s, num_bits - s);
      ShrAtMost(code_buffer, s);
      code_buffer := Shr(code_buffer, s);
      num_bits := num_bits - s;
      c := c + s;
    }

    /** `stbi__zhuffman_decode`: with the tables of `l`, the symbol whose codeword comes next.
        Failure means that no codeword comes next, or that bits past the input were consumed. */
    method HuffmanDecode(z: ZHuffman, ghost l: seq<nat>) returns (r: int)
      requires Reservoir() && z.Represents(l)
      modifies this`pos, this`num_bits, this`code_buffer, this`c, this`hit_zeof_once
      ensures Reservoir() && -1 <= r
      ensures r >= 0 ==> Decode(l, zbuffer, old(c)) == Some(r) && r < |l| && c == old(c) + l[r]
      ensures r < 0 ==> Decode(l, zbuffer, old(c)).None? || old(c) > 8 * |zbuffer|
      ensures hit_zeof_once && num_bits < 16 ==> c > 8 * |zbuffer|
    {
      hide Peek, Pow2, Low, Shr, Decode, Accepted;
      if num_bits < 16 {
        if AtEnd() {
          if !hit_zeof_once {
            hit_zeof_once := true;
            PeekPadding(zbuffer, pos, c, num_bits, 16);
            num_bits := num_bits + 16;
          } else {
            return -1;
          }
        } else {
          FillBits();
        }
      }
      r := Lookup(z, l);
    }

    /** The part of `stbi__zhuffman_decode` after the refill: the fast table, then the slow path.
        Exactly the canonical decoding of section 3.2.2 of RFC 1951. */
    method Lookup(z: ZHuffman, ghost l: seq<nat>) returns (r: int)
      requires Reservoir() && z.Represents(l) && num_bits >= 16
      modifies this`num_bits, this`code_buffer, this`c
      ensures Reservoir()
      ensures match Decode(l, zbuffer, old(c))
              case Some(i) => r == i && c == old(c) + l[i] && num_bits == old(num_bits) - l[i]
              case None => r == -1 && c == old(c)
    {
      hide Peek, Pow2, Low, Shr, Rev, Decode, Accepted, Hit, SlotsFor;
      AndMask(code_buffer, 9);
      Pow2Values();
      var b := z.fast[And(code_buffer, ZFAST_SIZE - 1)];
      if b != 0 {
        ghost var i := FastFinds(z.fast[..], l, code_buffer);
        var s := b / 512;
        WindowHit(l, i, zbuffer, c, num_bits);
        Consume(s);
        r := b % 512;
      } else {
        FastMisses(z.fast[..], l, code_buffer);
        r := SlowPath(z, l);
      }
    }

    /** `stbi__zhuffman_decode_slowpath`: codes of more than 9 bits, by length. */
    method SlowPath(z: ZHuffman, ghost l: seq<nat>) returns (r: int)
      requires Reservoir() && z.Represents(l) && num_bits >= 16
      requires forall i: nat :: Hit(l, i, code_buffer) ==> l[i] > ZFAST_BITS
      modifies this`num_bits, this`code_buffer, this`c
      ensures Reservoir()
      ensures match Decode(l, zbuffer, old(c))
              case Some(i) => r == i && c == old(c) + l[i] && num_bits == old(num_bits) - l[i]
              case None => r == -1 && c == old(c)
    {
      hide Peek, Pow2, Low, Shr, Shl, Rev, Decode, Accepted, Hit, Count, FirstCode, FirstSymbol, BitReverse;
      ghost var w := code_buffer;
      BitReverseIsRev(w, 16);
      var k := BitReverse(code_buffer, 16);
      var s := ZFAST_BITS + 1;
      while k >= z.maxcode[s]
        invariant 10 <= s <= 16
        invariant forall t :: 10 <= t < s ==> Rev(w, t) >= EndCode(l, t)
        invariant Reservoir() && code_buffer == w && c == old(c) && num_bits == old(num_bits)
        decreases 16 - s
      {
        if s == 16 {
          Pow2Values();
          assert false;
        }
        assert z.maxcode[..][s] == Shl(EndCode(l, s), 16 - s);
        PreshiftedLimit(w, s, EndCode(l, s));
        s := s + 1;
      }
      if s >= 16 {
        DecodeMisses(l, zbuffer, c, num_bits);
        return -1;
      }
      assert z.maxcode[..][s] == Shl(EndCode(l, s), 16 - s);
      PreshiftedLimit(w, s, EndCode(l, s));
      ghost var i := SlowFinds(l, w, s);
      WindowHit(l, i, zbuffer, c, num_bits);
      SlowIndex(l, i, w);
      var b := Shr(k, 16 - s) - z.firstcode[s] + z.firstsymbol[s];
      if b >= ZNSYMS || z.size[b] != s {
        assert false;
      }
      Consume(s);
      r := z.value[b];
    }

    /** A failure is excused: no output is lost that could have been produced from the bits of the
        input within the space that is certain to be available. */
    ghost predicate Excused(r: Outcome)
      reads this
    {
      r.Done? ==> r.pos > 8 * |zbuffer| || |r.out| > Limit()
    }

    /** `stbi__zexpand`: doubles the buffer until `n` more bytes fit. */
    method Expand(n: nat) returns (ok: bool)
      requires Valid() && zout + n > buf.Length
      modifies this`buf
      ensures Valid() && Out() == old(Out())
      ensures ok ==> fresh(buf) && zout + n <= buf.Length && z_expandable
      ensures !ok ==> buf == old(buf) && zout + n > Limit()
    {
      if !z_expandable {
        return false;
      }
      var cur, limit := zout, buf.Length;
      if UINT_MAX - cur < n {
        return false;
      }
      while cur + n > limit
        invariant buf.Length <= limit <= UINT_MAX
        decreases UINT_MAX - limit
      {
        if limit > UINT_MAX / 2 {
          return false;
        }
        limit := limit * 2;
      }
      var q := new byte[limit](_ => 0);
      forall j | 0 <= j < buf.Length {
        q[j] := buf[j];
      }
      buf := q;
      ok := true;
    }

    /** One byte of output, behind its room check. */
    method Literal(b: byte) returns (ok: bool)
      requires Valid()
      modifies this`buf, this`zout, buf
      ensures Valid() && (buf == old(buf) || (fresh(buf) && z_expandable))
      ensures ok ==> Out() == old(Out()) + [b]
      ensures !ok ==> |old(Out())| + 1 > Limit()
    {
      if zout >= buf.Length {
        ok := Expand(1);
        if !ok {
          return;
        }
      }
      buf[zout] := b;
      zout := zout + 1;
      ok := true;
    }

    /** Copies `len` bytes from `dist` back, after making room. */
    method CopyFrom(dist: nat, len: nat) returns (ok: bool)
      requires Valid() && 1 <= dist <= zout
      modifies this`buf, this`zout, buf
      ensures Valid() && (buf == old(buf) || (fresh(buf) && z_expandable))
      ensures ok ==> Out() == CopyBack(old(Out()), dist, len)
      ensures !ok ==> |old(Out())| + len > Limit()
    {
      if len > buf.Length - zout {
        ok := Expand(len);
        if !ok {
          return;
        }
      }
      CopyLoop(dist, len);
      ok := true;
    }

    /** The byte-by-byte copy, which may run into the bytes it writes. */
    method CopyLoop(dist: nat, len: nat)
      requires Valid() && 1 <= dist <= zout && zout + len <= buf.Length
      modifies this`zout, buf
      ensures Valid() && Out() == CopyBack(old(Out()), dist, len)
    {
      hide Reservoir, CopyBack;
      var p, n := zout - dist, len;
      ghost var copied := Out();
      while n > 0
        invariant 1 <= dist <= zout && p == zout - dist && 0 <= n <= len && zout + n <= buf.Length
        invariant copied == Out() && Reservoir()
        invariant CopyBack(copied, dist, n) == CopyBack(old(Out()), dist, len)
        decreases n
      {
        CopyBackStep(copied, dist, n);
        copied := copied + [buf[p]];
        buf[zout] := buf[p];
        zout := zout + 1;
        p, n := p + 1, n - 1;
      }
      CopyBackNone(copied, dist);
    }

    /** The part of `stbi__parse_huffman_block` after a length symbol: extra bits, distance, copy. */
    method ParseMatch(z: nat, ghost ll: seq<nat>, ghost dd: seq<nat>) returns (ok: bool)
      requires Valid() && z < 29 && z_distance.Represents(dd)
      modifies this, buf
      ensures Valid() && (buf == old(buf) || (fresh(buf) && z_expandable))
      ensures ok ==> |Out()| > |old(Out())|
      ensures ok ==> Match(ll, dd, zbuffer, old(c), old(Out()), z) == Codes(ll, dd, zbuffer, c, Out())
      ensures !ok ==> Excused(Match(ll, dd, zbuffer, old(c), old(Out()), z))
    {
      hide Peek, Pow2, Codes, Match, CopyBack, LengthBase, LengthExtra, DistBase, DistExtra, Decode, Accepted, CodeLengths;
      hide Reservoir, ZHuffman.Represents, ZHuffman.Shape;
      MatchStep(ll, dd, zbuffer, c, Out(), z);
      ghost var out := Out();
      var len := LengthBase(z);
      var extra := Receive(LengthExtra(z));
      len := len + extra;
      var d := HuffmanDecode(z_distance, dd);
      if d < 0 || d >= 30 {
        return false;
      }
      var dist := DistBase(d);
      extra := Receive(DistExtra(d));
      dist := dist + extra;
      assert Out() == out;
      if zout < dist {
        return false;
      }
      ok := CopyFrom(dist, len);
    }

    /** One turn of the loop in `stbi__parse_huffman_block`. */
    method ParseSymbol(ghost ll: seq<nat>, ghost dd: seq<nat>) returns (ok: bool, end: bool)
      requires Valid() && z_length.Represents(ll) && z_distance.Represents(dd)
      modifies this, buf
      ensures Valid() && (buf == old(buf) || (fresh(buf) && z_expandable))
      ensures ok && end ==> Codes(ll, dd, zbuffer, old(c), old(Out())) == Done(Out(), c)
      ensures ok && !end ==> Codes(ll, dd, zbuffer, old(c), old(Out())) == Codes(ll, dd, zbuffer, c, Out())
      ensures ok && !end ==> |Out()| > |old(Out())|
      ensures !ok ==> Excused(Codes(ll, dd, zbuffer, old(c), old(Out())))
    {
      hide Peek, Pow2, CopyBack, Match, Decode, Codes, Reservoir, ZHuffman.Represents, ZHuffman.Shape;
      CodesStep(ll, dd, zbuffer, c, Out());
      ghost var out := Out();
      var z := HuffmanDecode(z_length, ll);
      assert Out() == out;
      end := false;
      if z < 256 {
        if z < 0 {
          ok := false;
        } else {
          ok := Literal(z);
        }
      } else if z == 256 {
        ok, end := !(hit_zeof_once && num_bits < 16), true;
      } else if z >= 286 {
        ok := false;
      } else {
        ok := ParseMatch(z - 257, ll, dd);
      }
    }

    /** `stbi__parse_huffman_block`. */
    method ParseHuffmanBlock(ghost ll: seq<nat>, ghost dd: seq<nat>) returns (ok: bool)
      requires Valid() && z_length.Represents(ll) && z_distance.Represents(dd)
      modifies this, buf
      ensures Valid() && (buf == old(buf) || (fresh(buf) && z_expandable))
      ensures ok ==> Codes(ll, dd, zbuffer, old(c), old(Out())) == Done(Out(), c)
      ensures !ok ==> Excused(Codes(ll, dd, zbuffer, old(c), old(Out())))
    {
      hide Codes, Reservoir, ZHuffman.Represents, ZHuffman.Shape;
      while true
        invariant Valid() && (buf == old(buf) || (fresh(buf) && z_expandable))
        invariant z_length.Represents(ll) && z_distance.Represents(dd)
        invariant Codes(ll, dd, zbuffer, c, Out()) == Codes(ll, dd, zbuffer, old(c), old(Out()))
        decreases UINT_MAX - zout
      {
        var end;
        ok, end := ParseSymbol(ll, dd);
        if !ok || end {
          return;
        }
      }
    }

    /** One turn of the loop that reads code lengths: a length, or a run of one value. */
    method ReadRun(z: ZHuffman, ghost cl: seq<nat>, total: nat, sofar: seq<byte>) returns (ok: bool, lencodes: seq<byte>)
      requires Reservoir() && z.Represents(cl) && |sofar| < total
      modifies this`pos, this`num_bits, this`code_buffer, this`c, this`hit_zeof_once
      ensures Reservoir()
      ensures ok ==> |sofar| < |lencodes| <= total
      ensures ok ==> Lengths(cl, zbuffer, old(c), total, sofar) == Lengths(cl, zbuffer, c, total, lencodes)
      ensures !ok ==> var r := Lengths(cl, zbuffer, old(c), total, sofar);
                      r.Some? ==> r.value.1 > 8 * |zbuffer|
    {
      hide Reservoir, Lengths, Repeat, Peek, Pow2, Decode, ZHuffman.Represents, Accepted;
      lencodes := sofar;
      LengthsStep(cl, zbuffer, c, total, sofar);
      var s := HuffmanDecode(z, cl);
      if s < 0 || s >= 19 {
        return false, lencodes;
      }
      if s < 16 {
        return true, lencodes + [s];
      }
      var fill: byte, n := 0, 0;
      if s == 16 {
        n := Receive(2);
        n := n + 3;
        if |lencodes| == 0 {
          return false, lencodes;
        }
        fill := lencodes[|lencodes| - 1];
      } else if s == 17 {
        n := Receive(3);
        n := n + 3;
      } else {
        n := Receive(7);
        n := n + 11;
      }
      RepeatStep(cl, zbuffer, c, total, lencodes, fill, n);
      ok := total - |lencodes| >= n;
      if ok {
        lencodes := lencodes + seq(n, _ => fill);
      }
    }

    /** The code lengths of a dynamic block, at most 320 of them. */
    method ReadLengths(z: ZHuffman, ghost cl: seq<nat>, total: nat) returns (ok: bool, lencodes: seq<byte>)
      requires Reservoir() && z.Represents(cl) && this as object !in z.Repr()
      modifies this`pos, this`num_bits, this`code_buffer, this`c, this`hit_zeof_once
      ensures Reservoir()
      ensures ok ==> |lencodes| == total && Lengths(cl, zbuffer, old(c), total, []) == Some((lencodes, c))
      ensures !ok ==> var r := Lengths(cl, zbuffer, old(c), total, []);
                      r.Some? ==> r.value.1 > 8 * |zbuffer|
    {
      hide Reservoir, Lengths, ZHuffman.Represents;
      lencodes := [];
      while |lencodes| < total
        invariant Reservoir() && z.Represents(cl) && |lencodes| <= total
        invariant Lengths(cl, zbuffer, c, total, lencodes) == Lengths(cl, zbuffer, old(c), total, [])
        decreases total - |lencodes|
      {
        ok, lencodes := ReadRun(z, cl, total, lencodes);
        if !ok {
          return;
        }
      }
      LengthsStep(cl, zbuffer, c, total, lencodes);
      ok := true;
    }

    /** The lengths of the code-length code. */
    method ReadCodeLengthSizes(n: nat) returns (sizes: seq<byte>)
      requires Reservoir() && n <= 19
      modifies this`pos, this`num_bits, this`code_buffer, this`c
      ensures Reservoir() && c == old(c) + 3 * n
      ensures sizes == CodeLengthSizes(zbuffer, old(c), n)
    {
      hide Reservoir, Peek, Pow2;
      sizes := seq(19, _ => 0);
      for i := 0 to n
        invariant Reservoir() && c == old(c) + 3 * i
        invariant sizes == CodeLengthSizes(zbuffer, old(c), i)
      {
        var s := Receive(3);
        SizesStep(zbuffer, old(c), i);
        sizes := sizes[LENGTH_DEZIGZAG[i] := s];
      }
    }

    /** `stbi__compute_huffman_codes`. */
    method ComputeHuffmanCodes() returns (ok: bool, ghost ll: seq<nat>, ghost dd: seq<nat>)
      requires Valid()
      modifies this`pos, this`num_bits, this`code_buffer, this`c, this`hit_zeof_once
      modifies z_length.Repr(), z_distance.Repr()
      ensures Valid() && Out() == old(Out())
      ensures ok ==> Dynamic(zbuffer, old(c)) == Some(Codebook(ll, dd, c))
      ensures ok ==> z_length.Represents(ll) && z_distance.Represents(dd)
      ensures !ok ==> var r := Dynamic(zbuffer, old(c)); r.Some? ==> r.value.pos > 8 * |zbuffer|
    {
      hide Reservoir, Separate, Lengths, Peek, Pow2, CodeLengthSizes, CodeLengths, Dynamic, ZHuffman.Represents, Accepted;
      ll, dd := [], [];
      DynamicStep(zbuffer, c);
      var hlit, hdist, hclen := ReadCounts();
      var codelength_sizes := ReadCodeLengthSizes(hclen);
      var lencodes;
      ok, lencodes := DecodeLengths(codelength_sizes, hlit + hdist);
      if !ok {
        return;
      }
      ll, dd := lencodes[..hlit], lencodes[hlit..];
      ok := BuildTables(lencodes[..hlit], lencodes[hlit..]);
    }

    method ReadCounts() returns (hlit: nat, hdist: nat, hclen: nat)
      requires Reservoir()
      modifies this`pos, this`num_bits, this`code_buffer, this`c
      ensures Reservoir() && c == old(c) + 14
      ensures hlit == Peek(zbuffer, old(c), 5) + 257
      ensures hdist == Peek(zbuffer, old(c) + 5, 5) + 1
      ensures hclen == Peek(zbuffer, old(c) + 10, 4) + 4
    {
      hide Reservoir, Peek, Pow2;
      hlit := Receive(5);
      hlit := hlit + 257;
      hdist := Receive(5);
      hdist := hdist + 1;
      hclen := Receive(4);
      hclen := hclen + 4;
    }

    method DecodeLengths(codelength_sizes: seq<byte>, total: nat) returns (ok: bool, lencodes: seq<byte>)
      requires Valid() && CodeLengths(codelength_sizes)
      modifies this`pos, this`num_bits, this`code_buffer, this`c, this`hit_zeof_once
      ensures Valid()
      ensures ok ==> Accepted(codelength_sizes) && |lencodes| == total
      ensures ok ==> Lengths(codelength_sizes, zbuffer, old(c), total, []) == Some((lencodes, c))
      ensures !ok && Accepted(codelength_sizes) ==>
                var r := Lengths(codelength_sizes, zbuffer, old(c), total, []);
                r.Some? ==> r.value.1 > 8 * |zbuffer|
    {
      hide Reservoir, Lengths, ZHuffman.Represents, Accepted, CodeLengths;
      lencodes := [];
      var z_codelength := new ZHuffman();
      ok := z_codelength.Build(codelength_sizes);
      if ok {
        ok, lencodes := ReadLengths(z_codelength, codelength_sizes, total);
      }
    }

    /** Both tables of a block; the second one is built only after the first one was accepted. */
    method BuildTables(lengths: seq<byte>, distances: seq<byte>) returns (ok: bool)
      requires Valid() && CodeLengths(lengths) && CodeLengths(distances)
      modifies z_length.Repr(), z_distance.Repr()
      ensures Valid() && Out() == old(Out())
      ensures ok <==> Accepted(lengths) && Accepted(distances)
      ensures ok ==> z_length.Represents(lengths) && z_distance.Represents(distances)
    {
      hide Reservoir, ZHuffman.Represents, Accepted, CodeLengths;
      ok := z_length.Build(lengths);
      if ok {
        ok := z_distance.Build(distances);
      }
    }

    /** `stbi__zget8` when the reservoir is empty. */
    method GetAlignedByte() returns (b: byte)
      requires Reservoir() && num_bits == 0 && c % 8 == 0
      modifies this`pos, this`c
      ensures Reservoir() && c == old(c) + 8 && b == ByteAt(zbuffer, old(c) / 8)
    {
      b := GetByte();
      c := c + 8;
      assert Peek(zbuffer, c, 0) == 0;
    }

    lemma ReservoirAligned()
      requires Reservoir()
      ensures (c + num_bits) % 8 == 0 && c + num_bits >= 8 * pos
    {
      hide Peek;
    }

    lemma ReservoirByte()
      requires Reservoir() && num_bits >= 8 && c % 8 == 0
      ensures And(code_buffer, 255) == ByteAt(zbuffer, c / 8)
    {
      hide Peek, And;
      TopByte(zbuffer, c, num_bits);
    }

    /** Moves to a byte boundary and takes four bytes, the first ones out of the reservoir. */
    method StoredHeader() returns (header: array<byte>)
      requires Reservoir() && num_bits <= 31
      modifies this`pos, this`num_bits, this`code_buffer, this`c
      ensures Reservoir() && num_bits == 0 && fresh(header) && header.Length == 4
      ensures c == 8 * ((old(c) + 7) / 8 + 4) && c >= 8 * pos
      ensures forall j :: 0 <= j < 4 ==> header[j] == ByteAt(zbuffer, (old(c) + 7) / 8 + j)
    {
      hide Reservoir, Peek, Pow2, Low;
      Alignment(c, num_bits) by {
        ReservoirAligned();
      }
      if num_bits % 8 != 0 {
        var _ := Receive(num_bits % 8);
      }
      header := new byte[4];
      ghost var b := c / 8;
      assert b == (old(c) + 7) / 8;
      var k := 0;
      ghost var drained := num_bits / 8;
      assert drained <= 3;
      while num_bits > 0
        invariant Reservoir() && 0 <= k <= drained && num_bits == 8 * (drained - k)
        invariant c == 8 * (b + k)
        invariant forall j :: 0 <= j < k ==> header[j] == ByteAt(zbuffer, b + j)
      {
        ReservoirByte();
        header[k] := And(code_buffer, 255);
        k := k + 1;
        Consume(8);
      }
      while k < 4
        invariant Reservoir() && num_bits == 0 && 0 <= k <= 4 && c == 8 * (b + k)
        invariant forall j :: 0 <= j < k ==> header[j] == ByteAt(zbuffer, b + j)
      {
        header[k] := GetAlignedByte();
        k := k + 1;
      }
      ReservoirAligned();
    }

    /** `stbi__parse_uncompressed_block`. */
    method ParseUncompressedBlock() returns (ok: bool)
      requires Valid() && num_bits <= 31
      modifies this, buf
      ensures Valid() && (buf == old(buf) || (fresh(buf) && z_expandable))
      ensures ok ==> Stored(zbuffer, old(c), old(Out())) == Done(Out(), c) && c <= 8 * |zbuffer|
      ensures !ok ==> Excused(Stored(zbuffer, old(c), old(Out())))
    {
      hide Peek, Pow2, Separate, Reservoir;
      ghost var b := (c + 7) / 8;
      ghost var out := Out();
      var header := StoredHeader();
      var len: int := header[1];
      len := len * 256 + header[0];
      var nlen: int := header[3];
      nlen := nlen * 256 + header[2];
      if nlen != 0xFFFF - len {
        return false;
      }
      if pos + len > |zbuffer| {
        return false;
      }
      if zout + len > buf.Length {
        ok := Expand(len);
        if !ok {
          return;
        }
      }
      assert Out() == out;
      BytesAligned();
      TakeBytes(len);
      ok := true;
    }

    lemma BytesAligned()
      requires Reservoir() && num_bits == 0 && c % 8 == 0 && c >= 8
      requires ByteAt(zbuffer, c / 8 - 1) > 0 || pos < |zbuffer|
      ensures c == 8 * pos
    {
    }

    /** Copies bytes from the input to the output and moves both positions. */
    method TakeBytes(len: nat)
      requires Valid() && num_bits == 0 && c == 8 * pos
      requires pos + len <= |zbuffer| && zout + len <= buf.Length
      modifies this`pos, this`zout, this`c, buf
      ensures Valid() && pos == old(pos) + len && c == 8 * pos
      ensures Out() == old(Out()) + zbuffer[old(pos)..old(pos) + len]
    {
      hide Peek;
      forall j | 0 <= j < len {
        buf[zout + j] := zbuffer[pos + j];
      }
      Empty(zbuffer, c);
      Empty(zbuffer, c + 8 * len);
      pos := pos + len;
      zout := zout + len;
      c := c + 8 * len;
    }

    /** The fixed code of block type 1. */
    method BuildFixed() returns (ok: bool)
      requires Valid()
      modifies z_length.Repr(), z_distance.Repr()
      ensures Valid() && Out() == old(Out()) && ok
      ensures z_length.Represents(FixedLengths()) && z_distance.Represents(FixedDistances())
    {
      hide Reservoir, ZHuffman.Represents, Accepted;
      FixedAccepted();
      ok := BuildTables(FixedLengths(), FixedDistances());
    }

    /** The body of the loop in `stbi__parse_zlib`. */
    method ParseBlock() returns (ok: bool, final: bool)
      requires Valid()
      modifies this, buf, z_length.Repr(), z_distance.Repr()
      ensures Valid() && (buf == old(buf) || (fresh(buf) && z_expandable))
      ensures ok ==> Block(zbuffer, old(c), old(Out())) == Done(Out(), c)
      ensures ok ==> old(c) < 8 * |zbuffer| && final == (Peek(zbuffer, old(c), 1) == 1)
      ensures !ok ==> Excused(Block(zbuffer, old(c), old(Out())))
    {
      hide Reservoir, Peek, Pow2, Codes, Dynamic, Stored, ZHuffman.Represents, ZHuffman.Shape;
      ghost var out := Out();
      PeekPastEndHeader(zbuffer, c);
      var bit := Receive(1);
      final := bit == 1;
      var kind := Receive(2);
      assert Out() == out;
      if kind == 0 {
        ok := ParseUncompressedBlock();
      } else if kind == 3 {
        ok := false;
      } else {
        ghost var ll: seq<nat>, dd: seq<nat> := [], [];
        if kind == 1 {
          ok := BuildFixed();
          ll, dd := FixedLengths(), FixedDistances();
        } else {
          ok, ll, dd := ComputeHuffmanCodes();
        }
        if ok {
          ok := ParseHuffmanBlock(ll, dd);
        }
      }
    }

    /** `stbi__parse_zlib`: the header, then blocks up to the final one. */
    method ParseZlib(parse_header: bool) returns (ok: bool)
      requires Valid() && pos == 0 && zout == 0 && c == 0 && num_bits == 0
      modifies this, buf, z_length.Repr(), z_distance.Repr()
      ensures Valid() && (buf == old(buf) || (fresh(buf) && z_expandable))
      ensures ok ==> Inflated(zbuffer, parse_header) == Done(Out(), c)
      ensures !ok ==> Excused(Inflated(zbuffer, parse_header))
    {
      if parse_header {
        ok := ParseZlibHeader();
        if !ok {
          return;
        }
      }
      hide Reservoir, Separate, Peek, Pow2, Block, Blocks, Inflated;
      ghost var start := c;
      num_bits, code_buffer, hit_zeof_once := 0, 0, false;
      assert Out() == [];
      while true
        invariant Valid() && (buf == old(buf) || (fresh(buf) && z_expandable))
        invariant Blocks(zbuffer, c, Out()) == Blocks(zbuffer, start, [])
        decreases 8 * |zbuffer| - c
      {
        BlocksStep(zbuffer, c, Out());
        var final;
        ok, final := ParseBlock();
        if !ok || final {
          return;
        }
      }
    }

    /** `stbi__parse_zlib_header`. */
    method ParseZlibHeader() returns (ok: bool)
      requires Valid() && pos == 0 && c == 0 && num_bits == 0 && !hit_zeof_once
      modifies this`pos, this`c
      ensures Valid() && (ok <==> HeaderOk(zbuffer))
      ensures ok ==> c == 16
    {
      var cmf := GetAlignedByte();
      var cm := And(cmf, 15);
      var flg := GetAlignedByte();
      if AtEnd() {
        return false;
      }
      ok := (cmf as int * 256 + flg as int) % 31 == 0 && And(flg, 32) == 0 && cm == 8;
    }
  }

  /** `stbi_zlib_decode_malloc_guesssize_headerflag`, for any input bytes.  The result is right
      whenever there is one, and there is one whenever the stream has a meaning within its own
      bits and the output has at most `INT_MAX` bytes. */
  method DecodeMalloc(buffer: seq<byte>, initial_size: nat, parse_header: bool) returns (ok: bool, out: seq<byte>)
    requires 0 < initial_size <= INT_MAX
    ensures var r := Inflated(buffer, parse_header);
            if ok then r.Done? && out == r.out
            else r.Done? ==> r.pos > 8 * |buffer| || |r.out| > INT_MAX
  {
    hide Inflated, ZBuf.Reservoir, ZBuf.Separate;
    var a := new ZBuf(buffer, initial_size, true);
    ok := a.ParseZlib(parse_header);
    out := if ok then a.buf[..a.zout] else [];
  }

  /** `stbi_zlib_decode_buffer` and its headerless variant: the output buffer is the caller's. */
  method DecodeBuffer(olen: nat, buffer: seq<byte>, parse_header: bool) returns (ok: bool, out: seq<byte>)
    requires 0 < olen <= INT_MAX
    ensures var r := Inflated(buffer, parse_header);
            if ok then r.Done? && out == r.out && |out| <= olen
            else r.Done? ==> r.pos > 8 * |buffer| || |r.out| > olen
  {
    hide Inflated, ZBuf.Reservoir, ZBuf.Separate;
    var a := new ZBuf(buffer, olen, false);
    ok := a.ParseZlib(parse_header);
    out := if ok then a.buf[..a.zout] else [];
  }

  lemma PeekPastEndHeader(s: seq<byte>, c: nat)
    ensures c >= 8 * |s| ==> Peek(s, c + 1, 2) == 0
    ensures Peek(s, c + 1, 2) < 4 && Peek(s, c, 1) < 2
  {
    Pow2Values();
    if c >= 8 * |s| {
      PeekPastEnd(s, c + 1, 2);
    }
  }

  lemma Alignment(c: nat, n: nat)
    requires (c + n) % 8 == 0
    ensures (c + n % 8) % 8 == 0 && (c + n % 8) / 8 == (c + 7) / 8
  {
  }

  lemma TopByte(s: seq<byte>, c: nat, n: nat)
    requires n >= 8 && c % 8 == 0
    ensures And(Peek(s, c, n), 255) == ByteAt(s, c / 8)
  {
    hide Peek, And, Low, Shr;
    Pow2Values();
    AndMask(Peek(s, c, n), 8);
    PeekTake(s, c, 8, n - 8);
    PeekByte(s, c / 8);
  }

  lemma Empty(s: seq<byte>, c: nat)
    ensures Peek(s, c, 0) == 0
  {
  }

  lemma CopyBackStep(out: seq<byte>, dist: nat, len: nat)
    requires 1 <= dist <= |out| && len > 0
    ensures CopyBack(out, dist, len) == CopyBack(out + [out[|out| - dist]], dist, len - 1)
  {
  }

  lemma CopyBackNone(out: seq<byte>, dist: nat)
    requires 1 <= dist <= |out|
    ensures CopyBack(out, dist, 0) == out
  {
  }

  lemma PeekPadding(s: seq<byte>, pos: nat, c: nat, n: nat, more: nat)
    requires pos == |s| && c + n >= 8 * pos
    ensures Peek(s, c, n + more) == Peek(s, c, n)
  {
    PeekSplit(s, c, n, more);
    PeekPastEnd(s, c + n, more);
    ShlZero(n);
  }

  lemma {:induction false} RevOfLow(w: nat, n: nat, s: nat)
    requires s <= n
    ensures Rev(Low(w, n), s) == Rev(w, s)
    decreases s
  {
    if s > 0 {
      RevOfLow(w / 2, n - 1, s - 1);
    }
  }

  lemma FastFinds(fast: seq<uint16>, l: seq<nat>, w: nat) returns (i: nat)
    requires FastFor(fast, l, |l|) && Low(w, 9) < ZFAST_SIZE && fast[Low(w, 9)] != 0 && CodeLengths(l)
    ensures Hit(l, i, w) && l[i] <= ZFAST_BITS
    ensures fast[Low(w, 9)] / 512 == l[i] && fast[Low(w, 9)] % 512 == i
  {
    hide Rev, Low;
    var b := Low(w, 9);
    assert FastSource(fast[b], l, |l|, b);
    i :| i < |l| && Hit(l, i, b) && l[i] <= ZFAST_BITS && fast[b] == FastValue(l, i);
    RevOfLow(w, 9, l[i]);
  }

  lemma FastMisses(fast: seq<uint16>, l: seq<nat>, w: nat)
    requires FastFor(fast, l, |l|) && Low(w, 9) < ZFAST_SIZE && fast[Low(w, 9)] == 0
    ensures forall i: nat :: Hit(l, i, w) ==> l[i] > ZFAST_BITS
  {
    hide Rev, Low;
    forall i: nat | Hit(l, i, w) ensures l[i] > ZFAST_BITS {
      if l[i] <= ZFAST_BITS {
        RevOfLow(w, 9, l[i]);
        assert false;
      }
    }
  }

  lemma WindowHit(l: seq<nat>, i: nat, s: seq<byte>, c: nat, n: nat)
    requires CodeLengths(l) && n >= 16 && Hit(l, i, Peek(s, c, n))
    ensures Decode(l, s, c) == Some(i) && l[i] <= 15
  {
    HitIsCodeAt(l, i, s, c, n);
    DecodeUnique(l, i, s, c);
  }

  lemma DecodeMisses(l: seq<nat>, s: seq<byte>, c: nat, n: nat)
    requires CodeLengths(l) && n >= 16 && FirstBelow(l, Peek(s, c, n), 16)
    requires forall i: nat :: Hit(l, i, Peek(s, c, n)) ==> l[i] > ZFAST_BITS
    ensures Decode(l, s, c).None?
  {
    var r := Decode(l, s, c);
    if r.Some? {
      HitIsCodeAt(l, r.value, s, c, n);
      SlowMisses(l, Peek(s, c, n), r.value);
      assert false;
    }
  }

  lemma SlowIndex(l: seq<nat>, i: nat, w: nat)
    requires Hit(l, i, w)
    ensures Rev(w, l[i]) - FirstCode(l, l[i]) + FirstSymbol(l, l[i]) == Slot(l, i)
  {
  }

  lemma FillStep(s: seq<byte>, pos: nat, c: nat, n: nat)
    requires n <= 24 && c + n >= 8 * pos && (c + n) % 8 == 0
    requires c + n > 8 * pos ==> pos == |s|
    ensures Peek(s, c, n + 8) == Peek(s, c, n) + Shl(ByteAt(s, pos), n)
    ensures Peek(s, c, n + 8) < 0x1_0000_0000
  {
    hide Peek, Shl;
    PeekSplit(s, c, n, 8);
    var k := (c + n) / 8;
    PeekByte(s, k);
    Pow2Monotone(n + 8, 32);
    assert Peek(s, c, n + 8) < Pow2(n + 8);
    Pow2Values();
  }
}
