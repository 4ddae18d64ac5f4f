/** The compressor's stretchy output buffer and its bit writer (`stbiw__sbpush`,
    `stbiw__zlib_flushf`, `stbiw__zlib_add`, `stbiw__zlib_bitrev`). */
module BitWriter {
  import opened Bits
  import opened DeflateSpec

  /** `STBIW_UCHAR`: the low eight bits, also of a negative number. */
  function UChar(x: int): byte {
    x % 256
  }

  /** Fewer than eight zero bits. */
  predicate Padding(zeros: seq<nat>) {
    |zeros| < 8 && forall i :: 0 <= i < |zeros| ==> zeros[i] == 0
  }

  ghost predicate Agrees(out: seq<byte>, prefix: seq<byte>, bits: seq<nat>, bitbuf: nat, bitcount: nat) {
    && prefix <= out && |bits| == 8 * (|out| - |prefix|) + bitcount
    && bitbuf < Pow2(bitcount)
    && bits[|bits| - bitcount..] == BitsLsb(bitbuf, bitcount)
    && Carries(out, 8 * |prefix|, bits[..|bits| - bitcount])
  }

  lemma AgreesAdd(out: seq<byte>, prefix: seq<byte>, bits: seq<nat>, bitbuf: nat, bitcount: nat, code: nat, codebits: nat)
    requires Agrees(out, prefix, bits, bitbuf, bitcount) && code < Pow2(codebits)
    ensures Or(bitbuf, Shl(code, bitcount)) < Pow2(bitcount + codebits)
    ensures Agrees(out, prefix, bits + BitsLsb(code, codebits), Or(bitbuf, Shl(code, bitcount)), bitcount + codebits)
  {
    hide Shl, Or, Carries, BitsLsb;
    OrShifted(bitbuf, code, bitcount);
    ShlLess(code, Pow2(codebits), bitcount);
    ShlPow2(codebits, bitcount);
    LsbConcat(bitbuf, bitcount, code, codebits);
    var more := bits + BitsLsb(code, codebits);
    assert more[..|more| - bitcount - codebits] == bits[..|bits| - bitcount];
    assert more[|more| - bitcount - codebits..] == bits[|bits| - bitcount..] + BitsLsb(code, codebits);
  }

  lemma AgreesFlush(out: seq<byte>, prefix: seq<byte>, bits: seq<nat>, bitbuf: nat, bitcount: nat)
    requires Agrees(out, prefix, bits, bitbuf, bitcount) && bitcount >= 8
    ensures Agrees(out + [UChar(bitbuf)], prefix, bits, Shr(bitbuf, 8), bitcount - 8)
  {
    hide Shl, Shr, Low, Carries, BitsLsb, Pow2;
    var b, rest := Low(bitbuf, 8), Shr(bitbuf, 8);
    LowByte(bitbuf);
    Recompose(bitbuf, 8);
    ShrBound(bitbuf, 8, bitcount - 8);
    LsbConcat(b, 8, rest, bitcount - 8);
    var done, m := bits[..|bits| - bitcount], |bits| - bitcount;
    assert bits[m..] == BitsLsb(b, 8) + BitsLsb(rest, bitcount - 8);
    assert bits[..m + 8] == done + BitsLsb(b, 8);
    assert bits[m + 8..] == BitsLsb(rest, bitcount - 8);
    CarriesExtend(out, [b], 8 * |prefix|, done);
    CarriesByte(out + [b], |out|);
    CarriesJoin(out + [b], 8 * |prefix|, done, BitsLsb(b, 8));
  }

  lemma {:induction false} ShrBound(v: nat, a: nat, b: nat)
    requires v < Pow2(a + b)
    ensures Shr(v, a) < Pow2(b)
    decreases a
  {
    if a > 0 {
      ShrBound(v / 2, a - 1, b);
    }
  }

  class ZWriter {
    /** The buffer; `data.Length` is the capacity kept in front of it, `n` the count. */
    var data: array<byte>
    var n: nat
    var bitbuf: uint32
    var bitcount: nat

    /** All bits written after the first `prefix` bytes. */
    ghost var prefix: seq<byte>
    ghost var bits: seq<nat>

    /** The bytes carry the bits from position `8 * |prefix|` on, the last `bitcount` of which
        still wait in `bitbuf`. */
    ghost predicate Synced()
      reads this, data
    {
      n <= data.Length && Agrees(data[..n], prefix, bits, bitbuf, bitcount)
    }

    ghost predicate Valid()
      reads this, data
    {
      Synced() && bitcount < 8
    }

    ghost function Bytes(): seq<byte>
      reads this, data
      requires n <= data.Length
    {
      data[..n]
    }

    constructor ()
      ensures n == 0 && data.Length == 0 && bitcount == 0 && bitbuf == 0 && fresh(data)
      ensures Valid() && prefix == [] && bits == []
    {
      data := new byte[0];
      n, bitbuf, bitcount := 0, 0, 0;
      prefix, bits := [], [];
      new;
      assert data[..n] == [];
    }

    /** `stbiw__sbpush`: grows a full buffer to twice its capacity plus one. */
    method Push(b: byte)
      requires n <= data.Length
      modifies this`data, this`n, data
      ensures n == old(n) + 1 <= data.Length
      ensures Bytes() == old(Bytes()) + [b]
      ensures data == old(data) || fresh(data)
      ensures data.Length >= old(data.Length)
      ensures old(n) + 1 < old(data.Length) ==> data == old(data)
    {
      if data.Length == 0 || n + 1 >= data.Length {
        var m := if data.Length == 0 then 2 else 2 * data.Length + 1;
        var p := new byte[m](_ => 0);
        forall j | 0 <= j < data.Length {
          p[j] := data[j];
        }
        data := p;
      }
      data[n] := b;
      n := n + 1;
    }

    /** `stbiw__zlib_flushf`. */
    method Flush()
      requires Synced() && bitcount <= 24
      modifies this, data
      ensures Valid() && prefix == old(prefix) && bits == old(bits)
      ensures data == old(data) || fresh(data)
    {
      hide Agrees, Shr;
      while bitcount >= 8
        invariant Synced() && prefix == old(prefix) && bits == old(bits)
        invariant data == old(data) || fresh(data)
        decreases bitcount
      {
        AgreesFlush(data[..n], prefix, bits, bitbuf, bitcount);
        ShrAtMost(bitbuf, 8);
        Push(UChar(bitbuf));
        bitbuf := Shr(bitbuf, 8);
        bitcount := bitcount - 8;
      }
    }

    /** `stbiw__zlib_add`: `codebits` bits, least significant first. */
    method Add(code: nat, codebits: nat)
      requires Valid() && code < Pow2(codebits) && codebits <= 16
      modifies this, data
      ensures Valid() && prefix == old(prefix) && bits == old(bits) + BitsLsb(code, codebits)
      ensures data == old(data) || fresh(data)
    {
      hide Agrees, Or, Shl, Pow2;
      AgreesAdd(data[..n], prefix, bits, bitbuf, bitcount, code, codebits);
      Pow2Monotone(bitcount + codebits, 32);
      Pow2Values();
      bitbuf := Or(bitbuf, Shl(code, bitcount));
      bitcount := bitcount + codebits;
      bits := bits + BitsLsb(code, codebits);
      Flush();
    }

    /** `stbiw__zlib_bitrev`. */
    static method BitRev(code: nat, codebits: nat) returns (res: nat)
      ensures res == Rev(code, codebits)
    {
      res := 0;
      var c, k := code, codebits;
      ShlZero(codebits);
      while k > 0
        invariant 0 <= k <= codebits && c >= 0
        invariant Rev(code, codebits) == Shl(res, k) + Rev(c, k)
        decreases k
      {
        RevTop(c, k);
        ShlPlus(2 * res, c % 2, k - 1);
        ShlDouble(res, k - 1);
        res := 2 * res + c % 2;
        c := c / 2;
        k := k - 1;
      }
    }

    /** `stbiw__zlib_huffa`: a code goes out most significant bit first. */
    method HuffA(code: nat, codebits: nat)
      requires Valid() && codebits <= 16
      modifies this, data
      ensures Valid() && prefix == old(prefix) && bits == old(bits) + BitsMsb(code, codebits)
      ensures data == old(data) || fresh(data)
    {
      LsbOfRev(code, codebits);
      var r := BitRev(code, codebits);
      Add(r, codebits);
    }

    /** `stbiw__zlib_huff`. */
    method Huff(sym: nat)
      requires Valid() && sym < 288
      modifies this, data
      ensures Valid() && prefix == old(prefix) && bits == old(bits) + SymbolBits(sym)
      ensures data == old(data) || fresh(data)
    {
      hide Agrees, BitsMsb;
      if sym <= 143 {
        HuffA(0x30 + sym, 8);
      } else if sym <= 255 {
        HuffA(0x190 + sym - 144, 9);
      } else if sym <= 279 {
        HuffA(0 + sym - 256, 7);
      } else {
        HuffA(0xc0 + sym - 280, 8);
      }
    }

    /** `stbiw__zlib_huffb`: a literal byte. */
    method HuffB(b: byte)
      requires Valid()
      modifies this, data
      ensures Valid() && prefix == old(prefix) && bits == old(bits) + TokenBits(Literal(b))
      ensures data == old(data) || fresh(data)
    {
      hide Agrees, BitsMsb;
      if b <= 143 {
        HuffA(0x30 + b, 8);
      } else {
        HuffA(0x190 + b - 144, 9);
      }
    }

    /** Zero bits up to the next byte boundary. */
    method Pad() returns (ghost zeros: seq<nat>)
      requires Valid()
      modifies this, data
      ensures Valid() && bitcount == 0 && prefix == old(prefix) && bits == old(bits) + zeros
      ensures Padding(zeros)
      ensures data == old(data) || fresh(data)
    {
      zeros := [];
      while bitcount > 0
        invariant Valid() && prefix == old(prefix) && bits == old(bits) + zeros
        invariant Padding(zeros) && (bitcount > 0 ==> |zeros| + 1 <= bitcount)
        invariant data == old(data) || fresh(data)
        decreases if bitcount == 0 then 0 else 8 - bitcount
      {
        ghost var before := bitcount;
        Add(0, 1);
        zeros := zeros + BitsLsb(0, 1);
        assert bitcount == if before == 7 then 0 else before + 1;
      }
    }
  }
}
