/** What a zlib stream means (RFC 1950 section 2.2, RFC 1951 sections 3.2.3 to 3.2.7), as a
    function of the bytes and a bit position.  It knows nothing of reservoirs, tables or buffers.

    Two choices are the program's: the stream continues with zeros after its last byte (`Peek`),
    so a reader has to compare the final position with the length to know that all bits were
    there, and results of more than `UINT_MAX` bytes are failures. */
module InflateSpec {
  import opened Bits
  import opened Huffman

  const LENGTH_BASE: seq<nat> :=
    [3, 4, 5, 6, 7, 8, 9, 10, 11, 13, 15, 17, 19, 23, 27, 31, 35, 43, 51, 59, 67, 83, 99, 115, 131, 163, 195, 227, 258]
  const LENGTH_EXTRA: seq<nat> :=
    [0, 0, 0, 0, 0, 0, 0, 0, 1, 1, 1, 1, 2, 2, 2, 2, 3, 3, 3, 3, 4, 4, 4, 4, 5, 5, 5, 5, 0]
  const DIST_BASE: seq<nat> :=
    [1, 2, 3, 4, 5, 7, 9, 13, 17, 25, 33, 49, 65, 97, 129, 193, 257, 385, 513, 769, 1025, 1537, 2049, 3073,
     4097, 6145, 8193, 12289, 16385, 24577]
  const DIST_EXTRA: seq<nat> :=
    [0, 0, 0, 0, 1, 1, 2, 2, 3, 3, 4, 4, 5, 5, 6, 6, 7, 7, 8, 8, 9, 9, 10, 10, 11, 11, 12, 12, 13, 13]

  function LengthBase(z: nat): (r: nat)
    requires z < 29
    ensures 3 <= r <= 258
  {
    LENGTH_BASE[z]
  }

  function LengthExtra(z: nat): (r: nat)
    requires z < 29
    ensures r <= 5
  {
    LENGTH_EXTRA[z]
  }

  function DistBase(d: nat): (r: nat)
    requires d < 30
    ensures 1 <= r <= 24577
  {
    DIST_BASE[d]
  }

  function DistExtra(d: nat): (r: nat)
    requires d < 30
    ensures r <= 13
  {
    DIST_EXTRA[d]
  }

  /** The order in which the lengths of the code-length code are sent. */
  const LENGTH_DEZIGZAG: seq<nat> := [16, 17, 18, 0, 8, 7, 9, 6, 10, 5, 11, 4, 12, 3, 13, 2, 14, 1, 15]

  function FixedLength(i: nat): byte {
    if i <= 143 then 8 else if i <= 255 then 9 else if i <= 279 then 7 else 8
  }

  function FixedLengths(): (r: seq<byte>)
    ensures |r| == 288
  {
    seq(288, i requires 0 <= i < 288 => FixedLength(i))
  }

  function FixedDistances(): (r: seq<byte>)
    ensures |r| == 32
  {
    seq(32, _ => 5)
  }

  datatype Outcome = Fail | Done(out: seq<byte>, pos: nat)

  /** The outcome lies at or after position `c` and only adds to `out`. */
  predicate Extends(r: Outcome, c: nat, out: seq<byte>) {
    r.Done? ==> r.pos >= c && out <= r.out
  }

  /** `len` bytes, each a copy of the byte `dist` back; the copy may run into itself. */
  function CopyBack(out: seq<byte>, dist: nat, len: nat): (r: seq<byte>)
    requires 1 <= dist <= |out|
    ensures out <= r && |r| == |out| + len
    decreases len
  {
    if len == 0 then out else CopyBack(out + [out[|out| - dist]], dist, len - 1)
  }

  /** The literals and matches of one compressed block, up to its end-of-block symbol. */
  ghost function Codes(ll: seq<nat>, dd: seq<nat>, s: seq<byte>, c: nat, out: seq<byte>): (r: Outcome)
    requires |out| <= UINT_MAX
    ensures Extends(r, c, out)
    ensures r.Done? ==> |r.out| <= UINT_MAX
    decreases UINT_MAX - |out|
  {
    match Decode(ll, s, c)
    case None => Fail
    case Some(z) =>
      var c1 := c + ll[z];
      if z < 256 then
        if |out| == UINT_MAX then Fail else Codes(ll, dd, s, c1, out + [z])
      else if z == 256 then Done(out, c1)
      else if z >= 286 then Fail
      else Match(ll, dd, s, c1, out, z - 257)
  }

  /** A match whose length symbol, counted from 257, is `z`. */
  ghost function Match(ll: seq<nat>, dd: seq<nat>, s: seq<byte>, c: nat, out: seq<byte>, z: nat): (r: Outcome)
    requires |out| <= UINT_MAX && z < 29
    ensures Extends(r, c, out)
    ensures r.Done? ==> |r.out| <= UINT_MAX
    decreases UINT_MAX - |out|, 0
  {
    var len := LengthBase(z) + Peek(s, c, LengthExtra(z));
    var c1 := c + LengthExtra(z);
    match Decode(dd, s, c1)
    case None => Fail
    case Some(d) =>
      var c2 := c1 + dd[d];
      if d >= 30 then Fail
      else
        var dist := DistBase(d) + Peek(s, c2, DistExtra(d));
        if dist > |out| || |out| + len > UINT_MAX then Fail
        else Codes(ll, dd, s, c2 + DistExtra(d), CopyBack(out, dist, len))
  }

  function Run(v: nat, n: nat): (r: seq<nat>)
    ensures |r| == n && forall i :: 0 <= i < n ==> r[i] == v
  {
    seq(n, _ => v)
  }

  /** The code lengths of a dynamic block, sent with the code `cl` and run lengths. */
  ghost function Lengths(cl: seq<nat>, s: seq<byte>, c: nat, total: nat, acc: seq<nat>): (r: Option<(seq<nat>, nat)>)
    requires |acc| <= total
    ensures r.Some? ==> |r.value.0| == total && r.value.1 >= c
    ensures r.Some? && (forall i :: 0 <= i < |acc| ==> acc[i] <= 15) ==> forall i :: 0 <= i < total ==> r.value.0[i] <= 15
    decreases total - |acc|
  {
    if |acc| == total then Some((acc, c))
    else
      match Decode(cl, s, c)
      case None => None
      case Some(z) =>
        var c1 := c + cl[z];
        if z < 16 then Lengths(cl, s, c1, total, acc + [z])
        else if z == 16 then
          if |acc| == 0 then None
          else Repeat(cl, s, c1 + 2, total, acc, acc[|acc| - 1], Peek(s, c1, 2) + 3)
        else if z == 17 then Repeat(cl, s, c1 + 3, total, acc, 0, Peek(s, c1, 3) + 3)
        else if z == 18 then Repeat(cl, s, c1 + 7, total, acc, 0, Peek(s, c1, 7) + 11)
        else None
  }

  ghost function Repeat(cl: seq<nat>, s: seq<byte>, c: nat, total: nat, acc: seq<nat>, v: nat, n: nat): (r: Option<(seq<nat>, nat)>)
    requires |acc| < total && n > 0
    ensures r.Some? ==> |r.value.0| == total && r.value.1 >= c
    ensures r.Some? && v <= 15 && (forall i :: 0 <= i < |acc| ==> acc[i] <= 15) ==> forall i :: 0 <= i < total ==> r.value.0[i] <= 15
    decreases total - |acc|, 0
  {
    if total - |acc| < n then None else Lengths(cl, s, c, total, acc + Run(v, n))
  }

  /** The first `k` lengths of the code-length code, three bits each. */
  function CodeLengthSizes(s: seq<byte>, c: nat, k: nat): (r: seq<byte>)
    requires k <= 19
    ensures |r| == 19 && forall i :: 0 <= i < 19 ==> r[i] <= 7
  {
    if k == 0 then seq(19, _ => 0)
    else
      Pow2Values();
      CodeLengthSizes(s, c, k - 1)[LENGTH_DEZIGZAG[k - 1] := Peek(s, c + 3 * (k - 1), 3)]
  }

  datatype Codebook = Codebook(ll: seq<nat>, dd: seq<nat>, pos: nat)

  ghost function Split(all: seq<nat>, hlit: nat, pos: nat): (r: Option<Codebook>)
    requires hlit <= |all|
  {
    if Accepted(all[..hlit]) && Accepted(all[hlit..]) then Some(Codebook(all[..hlit], all[hlit..], pos)) else None
  }

  /** The header of a dynamic block. */
  ghost function Dynamic(s: seq<byte>, c: nat): (r: Option<Codebook>)
    ensures r.Some? ==> CodeLengths(r.value.ll) && CodeLengths(r.value.dd) && r.value.pos >= c
  {
    var hlit := Peek(s, c, 5) + 257;
    var hdist := Peek(s, c + 5, 5) + 1;
    var hclen := Peek(s, c + 10, 4) + 4;
    Pow2Values();
    var cl := CodeLengthSizes(s, c + 14, hclen);
    if !Accepted(cl) then None
    else
      var r := Lengths(cl, s, c + 14 + 3 * hclen, hlit + hdist, []);
      if r.None? then None
      else Split(r.value.0, hlit, r.value.1)
  }

  function ByteAt(s: seq<byte>, i: nat): byte {
    if i < |s| then s[i] else 0
  }

  function Word(s: seq<byte>, i: nat): nat {
    256 * ByteAt(s, i + 1) + ByteAt(s, i)
  }

  /** A stored block starts at the next byte boundary: length, its complement, the bytes. */
  ghost function Stored(s: seq<byte>, c: nat, out: seq<byte>): (r: Outcome)
    ensures Extends(r, c, out)
    ensures r.Done? ==> |r.out| <= UINT_MAX
  {
    var b := (c + 7) / 8;
    var len := Word(s, b);
    if Word(s, b + 2) != 0xFFFF - len || b + 4 + len > |s| || |out| + len > UINT_MAX then Fail
    else Done(out + s[b + 4..b + 4 + len], 8 * (b + 4 + len))
  }

  ghost function Block(s: seq<byte>, c: nat, out: seq<byte>): (r: Outcome)
    requires |out| <= UINT_MAX
    ensures Extends(r, c + 3, out)
    ensures r.Done? ==> |r.out| <= UINT_MAX
  {
    var kind := Peek(s, c + 1, 2);
    if kind == 0 then Stored(s, c + 3, out)
    else if kind == 1 then Codes(FixedLengths(), FixedDistances(), s, c + 3, out)
    else if kind == 2 then
      match Dynamic(s, c + 3)
      case None => Fail
      case Some(book) => Codes(book.ll, book.dd, s, book.pos, out)
    else Fail
  }

  /** Blocks up to the one marked final; a block may not start after the last byte. */
  ghost function Blocks(s: seq<byte>, c: nat, out: seq<byte>): (r: Outcome)
    requires |out| <= UINT_MAX
    ensures Extends(r, c, out)
    ensures r.Done? ==> |r.out| <= UINT_MAX
    decreases 8 * |s| - c
  {
    if c >= 8 * |s| then Fail
    else
      var r := Block(s, c, out);
      if r.Fail? || Peek(s, c, 1) == 1 then r else Blocks(s, r.pos, r.out)
  }

  /** The two-byte zlib header: check bits, no preset dictionary, method 8, and more to come. */
  predicate HeaderOk(s: seq<byte>) {
    && |s| > 2
    && (s[0] as int * 256 + s[1] as int) % 31 == 0
    && And(s[1], 32) == 0
    && And(s[0], 15) == 8
  }

  ghost function Inflated(s: seq<byte>, withHeader: bool): (r: Outcome)
    ensures r.Done? ==> |r.out| <= UINT_MAX
  {
    if withHeader then
      if HeaderOk(s) then Blocks(s, 16, []) else Fail
    else Blocks(s, 0, [])
  }

  // ---- One step of each definition ---------------------------------------------------------

  lemma CodesStep(ll: seq<nat>, dd: seq<nat>, s: seq<byte>, c: nat, out: seq<byte>)
    requires |out| <= UINT_MAX
    ensures var r := Codes(ll, dd, s, c, out);
            match Decode(ll, s, c)
            case None => r.Fail?
            case Some(z) =>
              if z < 256 then r == (if |out| == UINT_MAX then Fail else Codes(ll, dd, s, c + ll[z], out + [z]))
              else if z == 256 then r == Done(out, c + ll[z])
              else if z >= 286 then r.Fail?
              else r == Match(ll, dd, s, c + ll[z], out, z - 257)
  {
    hide Match, Peek, Decode;
  }

  lemma MatchStep(ll: seq<nat>, dd: seq<nat>, s: seq<byte>, c: nat, out: seq<byte>, z: nat)
    requires |out| <= UINT_MAX && z < 29
    ensures var r := Match(ll, dd, s, c, out, z);
            var len := LengthBase(z) + Peek(s, c, LengthExtra(z));
            var c1 := c + LengthExtra(z);
            match Decode(dd, s, c1)
            case None => r.Fail?
            case Some(d) =>
              if d >= 30 then r.Fail?
              else
                var c2 := c1 + dd[d];
                var dist := DistBase(d) + Peek(s, c2, DistExtra(d));
                r == if dist > |out| || |out| + len > UINT_MAX then Fail
                     else Codes(ll, dd, s, c2 + DistExtra(d), CopyBack(out, dist, len))
  {
    hide Codes, CopyBack, Peek, Pow2, Decode, LengthBase, LengthExtra, DistBase, DistExtra;
  }

  lemma LengthsStep(cl: seq<nat>, s: seq<byte>, c: nat, total: nat, acc: seq<nat>)
    requires |acc| <= total
    ensures var r := Lengths(cl, s, c, total, acc);
            if |acc| == total then r == Some((acc, c))
            else
              match Decode(cl, s, c)
              case None => r.None?
              case Some(z) =>
                var c1 := c + cl[z];
                if z < 16 then r == Lengths(cl, s, c1, total, acc + [z])
                else if z == 16 then
                  if |acc| == 0 then r.None?
                  else r == Repeat(cl, s, c1 + 2, total, acc, acc[|acc| - 1], Peek(s, c1, 2) + 3)
                else if z == 17 then r == Repeat(cl, s, c1 + 3, total, acc, 0, Peek(s, c1, 3) + 3)
                else if z == 18 then r == Repeat(cl, s, c1 + 7, total, acc, 0, Peek(s, c1, 7) + 11)
                else r.None?
  {
    hide Repeat, Peek, Pow2, Decode;
  }

  lemma RepeatStep(cl: seq<nat>, s: seq<byte>, c: nat, total: nat, acc: seq<nat>, v: nat, n: nat)
    requires |acc| < total && n > 0
    ensures Repeat(cl, s, c, total, acc, v, n)
         == if total - |acc| < n then None else Lengths(cl, s, c, total, acc + seq(n, _ => v))
  {
    assert Run(v, n) == seq(n, _ => v);
  }

  lemma SizesStep(s: seq<byte>, c: nat, k: nat)
    requires k < 19
    ensures Peek(s, c + 3 * k, 3) < 8
    ensures CodeLengthSizes(s, c, k + 1) == CodeLengthSizes(s, c, k)[LENGTH_DEZIGZAG[k] := Peek(s, c + 3 * k, 3)]
  {
    Pow2Values();
  }

  lemma DynamicStep(s: seq<byte>, c: nat)
    ensures var hlit := Peek(s, c, 5) + 257;
            var hdist := Peek(s, c + 5, 5) + 1;
            var hclen := Peek(s, c + 10, 4) + 4;
            && hlit <= 288 && hdist <= 32 && hclen <= 19
            && var cl := CodeLengthSizes(s, c + 14, hclen);
               var r := Lengths(cl, s, c + 14 + 3 * hclen, hlit + hdist, []);
               && CodeLengths(cl)
               && (!Accepted(cl) ==> Dynamic(s, c).None?)
               && (Accepted(cl) && r.None? ==> Dynamic(s, c).None?)
               && (Accepted(cl) && r.Some? ==>
                     var all := r.value.0;
                     && CodeLengths(all[..hlit]) && CodeLengths(all[hlit..])
                     && Dynamic(s, c) == if Accepted(all[..hlit]) && Accepted(all[hlit..])
                                         then Some(Codebook(all[..hlit], all[hlit..], r.value.1)) else None)
  {
    hide Peek, Lengths, CodeLengthSizes, Accepted, Pow2;
    Pow2Values();
  }

  lemma BlocksStep(s: seq<byte>, c: nat, out: seq<byte>)
    requires |out| <= UINT_MAX
    ensures var r := Block(s, c, out);
            Blocks(s, c, out) == if c >= 8 * |s| then Fail
                                 else if r.Fail? || Peek(s, c, 1) == 1 then r
                                 else Blocks(s, r.pos, r.out)
  {
  }
}
