/** The compressor as a whole, and the theorem that what it writes inflates to what it was given. */
module ZlibRoundTrip {
  import opened Bits
  import opened InflateSpec
  import opened DeflateSpec
  import opened FixedCodes
  import opened BitWriter
  import opened Adler
  import opened Deflate
  import opened Inflate
  import opened WorstCase
  import opened Packing
  import S = Sender
  import CompressLaw

  const STORED_MAX := 32767

  /** The size at which compression is given up: two header bytes and stored blocks. */
  function StoredSize(n: nat): nat {
    n + 2 + ((n + 32766) / 32767) * 5
  }

  function BlockLength(n: nat): (r: nat)
    ensures r <= n && r <= STORED_MAX && (n > 0 ==> r > 0)
  {
    if n > STORED_MAX then STORED_MAX else n
  }

  /** The stored blocks for the input from position `j` on. */
  function StoredFrom(data: seq<byte>, j: nat): (r: seq<byte>)
    requires j <= |data|
    decreases |data| - j
  {
    if j == |data| then []
    else
      var len := BlockLength(|data| - j);
      StoredHead(len, j + len == |data|) + data[j..j + len] + StoredFrom(data, j + len)
  }

  /** Final flag and type 0 with its padding, the length and its complement. */
  function StoredHead(len: nat, final: bool): (r: seq<byte>)
    requires len <= STORED_MAX
    ensures |r| == 5
  {
    [if final then 1 else 0, UChar(len), UChar(len / 256), UChar(-(len as int) - 1), UChar((-(len as int) - 1) / 256)]
  }

  lemma {:induction false} StoredFromSize(data: seq<byte>, j: nat)
    requires j <= |data|
    ensures |StoredFrom(data, j)| == |data| - j + ((|data| - j + 32766) / 32767) * 5
    decreases |data| - j
  {
    if j < |data| {
      var len := BlockLength(|data| - j);
      StoredFromSize(data, j + len);
    }
  }

  lemma BodySize(data: seq<byte>)
    ensures 2 + |StoredFrom(data, 0)| == StoredSize(|data|)
  {
    hide StoredFrom;
    StoredFromSize(data, 0);
  }

  // ---- Reading back ------------------------------------------------------------------------

  lemma HeadReads(s: seq<byte>, b: nat, len: nat, final: bool)
    requires len <= STORED_MAX && At(s, b, StoredHead(len, final))
    ensures Peek(s, 8 * b, 1) == (if final then 1 else 0) && Peek(s, 8 * b + 1, 2) == 0
    ensures Word(s, b + 1) == len && Word(s, b + 3) == 0xFFFF - len
  {
    hide Peek, UChar;
    var h := StoredHead(len, final);
    var w := s[b..b + 5];
    assert w == h;
    assert s[b] == w[0] && s[b + 1] == w[1] && s[b + 2] == w[2] && s[b + 3] == w[3] && s[b + 4] == w[4];
    Complement(len);
    SmallByte(s, b);
  }

  lemma Complement(len: nat)
    requires len <= STORED_MAX
    ensures UChar(len) == len % 256 && UChar(len / 256) == len / 256
    ensures UChar(-(len as int) - 1) == 255 - len % 256
    ensures UChar((-(len as int) - 1) / 256) == 255 - len / 256
  {
    assert -(len as int) - 1 == -256 * (len / 256 + 1) + (255 - len % 256);
  }

  /** The bits of a byte that is 0 or 1. */
  lemma SmallByte(s: seq<byte>, b: nat)
    requires b < |s| && s[b] <= 1
    ensures Peek(s, 8 * b, 1) == s[b] && Peek(s, 8 * b + 1, 2) == 0
  {
    assert (8 * b) / 8 == b && (8 * b + 1) / 8 == b && (8 * b + 2) / 8 == b;
    assert (8 * b) % 8 == 0 && (8 * b + 1) % 8 == 1 && (8 * b + 2) % 8 == 2;
    ShrZero(1);
    assert NthBit(s[b], 0) == s[b] && NthBit(s[b], 1) == 0 && NthBit(s[b], 2) == 0;
    hide NthBit, Pow2;
    assert Peek(s, 8 * b + 2, 1) == 0;
  }

  /** A run of stored blocks inflates to the rest of the input. */
  lemma {:induction false} StoredDecodes(s: seq<byte>, b: nat, data: seq<byte>, j: nat)
    requires j < |data| <= UINT_MAX && At(s, b, StoredFrom(data, j))
    ensures Blocks(s, 8 * b, data[..j]) == Done(data, 8 * (b + |StoredFrom(data, j)|))
    decreases |data| - j
  {
    hide Peek, Word, Blocks, Pow2, Codes, Dynamic, StoredHead, StoredFrom;
    StoredStep(data, j);
    StoredStep(data, |data|);
    var len := BlockLength(|data| - j);
    var final := j + len == |data|;
    var head, body, rest := StoredHead(len, final), data[j..j + len], StoredFrom(data, j + len);
    AtSplit(s, b, head + body, rest);
    AtSplit(s, b, head, body);
    HeadReads(s, b, len, final);
    assert (8 * b + 3 + 7) / 8 == b + 1;
    assert data[..j] + body == data[..j + len];
    assert Block(s, 8 * b, data[..j]) == Done(data[..j + len], 8 * (b + 5 + len));
    BlocksStep(s, 8 * b, data[..j]);
    if final {
      assert data[..j + len] == data;
      assert rest == [];
    } else {
      StoredDecodes(s, b + 5 + len, data, j + len);
    }
  }

  lemma HeaderAccepted(s: seq<byte>)
    requires ZLIB_HEADER <= s && |s| > 2
    ensures HeaderOk(s)
  {
    HeaderBits();
    hide And;
    assert s[0] == 0x78 && s[1] == 0x5e;
  }

  lemma HeaderBits()
    ensures And(0x5e, 32) == 0 && And(0x78, 15) == 8
  {
    hide And;
    AndEven(94, 16);
    AndEven(47, 8);
    AndEven(23, 4);
    AndEven(11, 2);
    AndEven(5, 1);
    AndOdd(2, 0);
    AndZero(1);
    AndOdd(120, 7);
    AndOdd(60, 3);
    AndOdd(30, 1);
    AndOdd(15, 0);
    AndZero(7);
  }

  lemma StoredInflates(s: seq<byte>, data: seq<byte>)
    requires 0 < |data| <= UINT_MAX && ZLIB_HEADER + StoredFrom(data, 0) <= s
    ensures Inflated(s, true) == Done(data, 8 * (2 + |StoredFrom(data, 0)|))
  {
    hide Blocks, HeaderOk;
    var t := StoredFrom(data, 0);
    StoredFromSize(data, 0);
    assert s[2..2 + |t|] == (ZLIB_HEADER + t)[2..];
    assert ZLIB_HEADER == (ZLIB_HEADER + t)[..2] == s[..2];
    HeaderAccepted(s);
    assert data[..0] == [];
    StoredDecodes(s, 2, data, 0);
  }

  /** The single block of tokens inflates to their expansion. */
  lemma TokensInflate(s: seq<byte>, data: seq<byte>, tokens: seq<Token>)
    requires ZLIB_HEADER <= s && Sound([], tokens) && Expand([], tokens) == data && |data| <= UINT_MAX
    requires Carries(s, 16, BLOCK_HEADER + (TokensBits([], tokens) + SymbolBits(256))) && |s| > 2
    ensures Inflated(s, true) == Done(data, 19 + |TokensBits([], tokens)| + |SymbolBits(256)|)
  {
    hide HeaderOk, Codes, SymbolBits, TokensBits, Expand, Sound, Dynamic, Peek, Pow2, Stored;
    HeaderAccepted(s);
    var e := TokensBits([], tokens) + SymbolBits(256);
    CarriesSplit(s, 16, BLOCK_HEADER, e);
    BlockHeaderReads(s);
    TokensDecode(s, 19, [], tokens);
    BlocksStep(s, 16, []);
  }

  lemma BlockHeaderReads(s: seq<byte>)
    requires Carries(s, 16, BLOCK_HEADER)
    ensures Peek(s, 16, 1) == 1 && Peek(s, 17, 2) == 1
  {
    CarriesSplit(s, 16, [1], [1, 0]) by { assert BLOCK_HEADER == [1] + [1, 0]; }
    assert BitsLsb(1, 1) == [1] && BitsLsb(1, 2) == [1, 0];
    ReadLsb(s, 16, 1, 1);
    ReadLsb(s, 17, 1, 2);
  }

  function AdlerBytes(data: seq<byte>): seq<byte> {
    [UChar(SumB(data) / 256), UChar(SumB(data)), UChar(SumA(data) / 256), UChar(SumA(data))]
  }

  /** The stored fallback: truncates to the header and writes the input in blocks.  The abandoned
      output was longer, so no push grows the buffer and every raw copy fits. */
  method WriteStored(w: ZWriter, data: seq<byte>)
    requires StoredSize(|data|) < w.n <= w.data.Length && w.data[..2] == ZLIB_HEADER
    modifies w, w.data
    ensures w.data == old(w.data) && w.n <= w.data.Length
    ensures w.Bytes() == ZLIB_HEADER + StoredFrom(data, 0)
  {
    hide StoredFrom, StoredHead;
    StoredFromSize(data, 0);
    w.n := 2;
    var j := 0;
    while j < |data|
      invariant 0 <= j <= |data| && w.data == old(w.data)
      invariant w.n + |StoredFrom(data, j)| < old(w.n) <= w.data.Length
      invariant w.Bytes() + StoredFrom(data, j) == ZLIB_HEADER + StoredFrom(data, 0)
      decreases |data| - j
    {
      var blocklen := |data| - j;
      if blocklen > STORED_MAX {
        blocklen := STORED_MAX;
      }
      StoredStep(data, j);
      WriteBlock(w, data, j, blocklen);
      j := j + blocklen;
    }
    StoredStep(data, j);
  }

  lemma StoredStep(data: seq<byte>, j: nat)
    requires j <= |data|
    ensures StoredFrom(data, j)
         == if j == |data| then []
            else var len := BlockLength(|data| - j);
                 StoredHead(len, j + len == |data|) + data[j..j + len] + StoredFrom(data, j + len)
  {
  }

  method WriteHead(w: ZWriter, blocklen: nat, last: bool)
    requires 0 < blocklen <= STORED_MAX && w.n + 6 < w.data.Length
    modifies w, w.data
    ensures w.data == old(w.data) && w.n == old(w.n) + 5
    ensures w.Bytes() == old(w.Bytes()) + StoredHead(blocklen, last)
  {
    hide UChar;
    var final: byte := if last then 1 else 0;
    w.Push(final);
    w.Push(UChar(blocklen));
    w.Push(UChar(blocklen / 256));
    w.Push(UChar(-(blocklen as int) - 1));
    w.Push(UChar((-(blocklen as int) - 1) / 256));
  }

  method WriteBlock(w: ZWriter, data: seq<byte>, j: nat, blocklen: nat)
    requires 0 < blocklen <= STORED_MAX && j + blocklen <= |data|
    requires w.n + 5 + blocklen < w.data.Length
    modifies w, w.data
    ensures w.data == old(w.data) && w.n == old(w.n) + 5 + blocklen <= w.data.Length
    ensures w.Bytes() == old(w.Bytes()) + StoredHead(blocklen, j + blocklen == |data|) + data[j..j + blocklen]
  {
    hide StoredHead;
    WriteHead(w, blocklen, |data| - j == blocklen);
    ghost var head := w.Bytes();
    forall k | 0 <= k < blocklen {
      w.data[w.n + k] := data[j + k];
    }
    w.n := w.n + blocklen;
    assert w.Bytes()[..|head|] == head;
    assert w.Bytes()[|head|..] == data[j..j + blocklen];
  }

  lemma TokensBody(body: seq<byte>, tail: seq<byte>, data: seq<byte>, tokens: seq<Token>, zeros: seq<nat>, bitbuf: nat)
    requires Sound([], tokens) && Expand([], tokens) == data
    requires Agrees(body, ZLIB_HEADER, BLOCK_HEADER + TokensBits([], tokens) + SymbolBits(256) + zeros, bitbuf, 0)
    ensures |body| >= 4
    ensures |data| <= UINT_MAX ==>
              var r := Inflated(body + tail, true); r.Done? && r.out == data && r.pos <= 8 * |body|
  {
    hide Sound, Expand, TokensBits, SymbolBits, Inflated;
    var e := BLOCK_HEADER + TokensBits([], tokens) + SymbolBits(256);
    var bits := e + zeros;
    assert bits[..|bits|] == bits;
    CarriesExtend(body, tail, 16, bits);
    CarriesSplit(body + tail, 16, e, zeros);
    assert e == BLOCK_HEADER + (TokensBits([], tokens) + SymbolBits(256));
    if |data| <= UINT_MAX {
      TokensInflate(body + tail, data, tokens);
    }
  }

  // ---- Written to the standards ------------------------------------------------------------

  /** The one block of tokens, as a sender writes it. */
  lemma TokensSpell(tokens: seq<Token>)
    requires Sound([], tokens)
    ensures S.BlocksFit([], [S.Fixed(tokens)]) && S.Carried([], [S.Fixed(tokens)]) == Expand([], tokens)
    ensures S.BlocksBits([], [S.Fixed(tokens)], 16) == BLOCK_HEADER + TokensBits([], tokens) + SymbolBits(256)
  {
    hide Sound, Expand, TokensBits, SymbolBits, S.FixedLits, S.FixedDists, S.Used, S.AllSendable, S.AllTokens, S.Spread, LowFirst;
    CompressLaw.TokensSent([], tokens);
    var b := [S.Fixed(tokens)];
    assert b[1..] == [];
    var e := TokensBits([], tokens) + SymbolBits(256);
    assert S.BlocksBits([], b, 16) == LowFirst(1, 1) + (LowFirst(1, 2) + e);
    HeaderSpelled();
    CompressLaw.Regroup(LowFirst(1, 1), LowFirst(1, 2), e);
    CompressLaw.Regroup(BLOCK_HEADER, TokensBits([], tokens), SymbolBits(256));
  }

  lemma HeaderSpelled()
    ensures LowFirst(1, 1) + LowFirst(1, 2) == BLOCK_HEADER
  {
    var b := LowFirst(1, 1) + LowFirst(1, 2);
    assert b[0] == 1 && b[1] == 1 && b[2] == 0;
  }

  lemma TokensStream(body: seq<byte>, tail: seq<byte>, data: seq<byte>, tokens: seq<Token>, zeros: seq<nat>, bitbuf: nat)
    requires Sound([], tokens) && Expand([], tokens) == data && Padding(zeros)
    requires Agrees(body, ZLIB_HEADER, BLOCK_HEADER + TokensBits([], tokens) + SymbolBits(256) + zeros, bitbuf, 0)
    ensures S.IsStream(body + tail, [S.Fixed(tokens)], data, tail)
  {
    hide Sound, Expand, TokensBits, SymbolBits, S.BlocksFit, S.Carried, S.BlocksBits, Pack;
    var e := BLOCK_HEADER + TokensBits([], tokens) + SymbolBits(256);
    var bits := e + zeros;
    assert bits[..|bits|] == bits;
    TokensSpell(tokens);
    CompressLaw.CarriedIsPacked(body, 2, e, zeros);
    StreamSpelled(body + tail, body, Pack(e), tail);
  }

  lemma StreamSpelled(z: seq<byte>, body: seq<byte>, packed: seq<byte>, tail: seq<byte>)
    requires ZLIB_HEADER <= body && body[2..] == packed && z == body + tail
    ensures z[0] == 0x78 && z[1] == 0x5e && z == z[..2] + packed + tail
  {
    assert body == body[..2] + packed && z[..2] == body[..2];
    assert ZLIB_HEADER[0] == body[0] && ZLIB_HEADER[1] == body[1];
  }

  /** The stored blocks for the input from position `j` on, as a sender cuts it. */
  function PlainBlocks(data: seq<byte>, j: nat): seq<S.Block>
    requires j <= |data|
    decreases |data| - j
  {
    if j == |data| then []
    else
      var len := BlockLength(|data| - j);
      [S.Plain(data[j..j + len], 0)] + PlainBlocks(data, j + len)
  }

  lemma {:induction false} PlainSpell(data: seq<byte>, j: nat, c: nat)
    requires j <= |data| && c % 8 == 0
    ensures S.BlocksFit(data[..j], PlainBlocks(data, j)) && S.Carried(data[..j], PlainBlocks(data, j)) == data
    ensures Pack(S.BlocksBits(data[..j], PlainBlocks(data, j), c)) == StoredFrom(data, j)
    decreases |data| - j
  {
    hide S.BlockBits, Pack, StoredHead, BlockLength;
    if j == |data| {
      assert data[..j] == data;
      NothingPacked();
    } else {
      var len := BlockLength(|data| - j);
      var out, chunk, next, last := data[..j], data[j..j + len], PlainBlocks(data, j + len), j + len == |data|;
      hide PlainBlocks, StoredFrom, S.BlocksFit, S.Carried, S.BlocksBits;
      assert out + chunk == data[..j + len];
      PlainCut(data, j);
      StoredStep(data, j);
      var c1 := c + |S.BlockBits(out, S.Plain(chunk, 0), last, c)|;
      CompressLaw.PlainPacked(out, chunk, last, c, []);
      PlainSpell(data, j + len, c1);
      FirstPlain(out, chunk, next, c);
      CompressLaw.PlainPacked(out, chunk, last, c, S.BlocksBits(out + chunk, next, c1));
      HeadSpelled(len, last);
    }
  }

  lemma PlainCut(data: seq<byte>, j: nat)
    requires j < |data|
    ensures var len := BlockLength(|data| - j);
            && PlainBlocks(data, j) == [S.Plain(data[j..j + len], 0)] + PlainBlocks(data, j + len)
            && (PlainBlocks(data, j + len) == [] <==> j + len == |data|)
  {
  }

  lemma FirstPlain(out: seq<byte>, chunk: seq<byte>, next: seq<S.Block>, c: nat)
    requires |chunk| <= 65535 && S.BlocksFit(out + chunk, next)
    ensures var blocks := [S.Plain(chunk, 0)] + next;
            var first := S.BlockBits(out, S.Plain(chunk, 0), next == [], c);
            && S.BlocksFit(out, blocks) && S.Carried(out, blocks) == S.Carried(out + chunk, next)
            && S.BlocksBits(out, blocks, c) == first + S.BlocksBits(out + chunk, next, c + |first|)
  {
    hide S.BlockBits;
    var blocks := [S.Plain(chunk, 0)] + next;
    assert blocks[0] == S.Plain(chunk, 0) && blocks[1..] == next;
  }

  lemma NothingPacked()
    ensures Pack([]) == []
  {
  }

  lemma HeadSpelled(len: nat, last: bool)
    requires len <= STORED_MAX
    ensures StoredHead(len, last) == [if last then 1 else 0, len % 256, len / 256, (65535 - len) % 256, (65535 - len) / 256]
  {
    hide UChar;
    Complement(len);
  }

  lemma StoredStream(body: seq<byte>, tail: seq<byte>, data: seq<byte>)
    requires body == ZLIB_HEADER + StoredFrom(data, 0) && data != []
    ensures S.IsStream(body + tail, PlainBlocks(data, 0), data, tail)
  {
    hide StoredFrom, S.BlocksFit, S.Carried, S.BlocksBits, Pack, BlockLength;
    assert data[..0] == [];
    PlainSpell(data, 0, 16);
    StreamSpelled(body + tail, body, StoredFrom(data, 0), tail);
  }

  lemma AgreesAtStart(out: seq<byte>)
    ensures Agrees(out, out, [], 0, 0)
  {
  }

  /** The token block behind the zlib header, padded to whole bytes. */
  method CompressTokens(data: seq<byte>, q: nat) returns (w: ZWriter, ghost tokens: seq<Token>, ghost zeros: seq<nat>)
    requires q >= 5
    ensures fresh(w) && fresh(w.data) && w.Valid() && w.bitcount == 0 && w.prefix == ZLIB_HEADER
    ensures Sound([], tokens) && Expand([], tokens) == data
    ensures w.bits == BLOCK_HEADER + TokensBits([], tokens) + SymbolBits(256) + zeros && Padding(zeros)
  {
    hide Agrees, Sound, Expand, TokensBits, SymbolBits;
    w := new ZWriter();
    w.Push(0x78);
    w.Push(0x5e);
    w.prefix := w.Bytes();
    assert w.prefix == ZLIB_HEADER;
    AgreesAtStart(w.Bytes());
    tokens, zeros := CompressBlock(w, data, q);
  }

  /** Input without repetition whose literals alone take more room than stored blocks. */
  ghost predicate Stubborn(data: seq<byte>) {
    NoRepeats(data) && LiteralCost(data) + 26 > 8 * StoredSize(|data|)
  }

  lemma StubbornBody(body: seq<byte>, data: seq<byte>, tokens: seq<Token>, zeros: seq<nat>, bitbuf: nat)
    requires Sound([], tokens) && Expand([], tokens) == data && Stubborn(data)
    requires Agrees(body, ZLIB_HEADER, BLOCK_HEADER + TokensBits([], tokens) + SymbolBits(256) + zeros, bitbuf, 0)
    ensures |body| > StoredSize(|data|)
  {
    hide TokensBits, Expand, Sound, NoRepeats, BitsMsb, StoredSize;
    OnlyLiterals([], tokens, data);
    assert |SymbolBits(256)| == 7 && |ZLIB_HEADER| == 2;
  }

  /** `stbi_zlib_compress`. */
  method ZlibCompress(data: seq<byte>, quality: int) returns (out: seq<byte>)
    ensures 0 < |data| <= UINT_MAX ==>
              var r := Inflated(out, true); r.Done? && r.out == data && r.pos <= 8 * (|out| - 4)
    ensures data == [] ==> out == ZLIB_HEADER + AdlerBytes(data)
    ensures |out| <= StoredSize(|data|) + 4
    ensures Stubborn(data) ==> |out| == StoredSize(|data|) + 4
    ensures |out| >= 4 && out[|out| - 4..] == AdlerBytes(data)
    ensures |out| >= 6 && out[0] == 0x78 && out[1] == 0x5e && Trailer(out) == Checksum(data)
    ensures data != [] ==> S.Sends(out, data, out[|out| - 4..])
  {
    hide UChar, Inflated, StoredFrom, TokensBits, SymbolBits, Sound, Expand, Stubborn, S.IsStream;
    var q: nat := if quality < 5 then 5 else quality;
    var w; ghost var tokens, zeros;
    w, tokens, zeros := CompressTokens(data, q);
    TokensBody(w.Bytes(), AdlerBytes(data), data, tokens, zeros, w.bitbuf);
    TokensStream(w.Bytes(), AdlerBytes(data), data, tokens, zeros, w.bitbuf);
    ghost var blocks := [S.Fixed(tokens)];
    if Stubborn(data) {
      StubbornBody(w.Bytes(), data, tokens, zeros, w.bitbuf);
    }
    if w.n > StoredSize(|data|) {
      HeaderKept(w);
      WriteStored(w, data);
      StoredBody(w.Bytes(), AdlerBytes(data), data);
      if data != [] {
        StoredStream(w.Bytes(), AdlerBytes(data), data);
        blocks := PlainBlocks(data, 0);
      }
    }
    ghost var body := w.Bytes();
    var s1, s2 := Adler32(data);
    PushAdler(w, s1, s2);
    out := w.data[..w.n];
    assert out == body + AdlerBytes(data);
    AdlerNumber(out, data);
    assert data != [] ==> S.IsStream(out, blocks, data, out[|out| - 4..]);
  }

  /** The last four bytes as a big-endian number. */
  function Trailer(out: seq<byte>): nat
    requires |out| >= 4
  {
    var n := |out|;
    0x100_0000 * (out[n - 4] as int) + 0x1_0000 * (out[n - 3] as int) + 0x100 * (out[n - 2] as int) + out[n - 1] as int
  }

  lemma AdlerNumber(out: seq<byte>, data: seq<byte>)
    requires |out| >= 4 && out[|out| - 4..] == AdlerBytes(data)
    ensures Trailer(out) == Checksum(data)
  {
    hide SumA, SumB, ByteSum, WeightedSum;
    SumsArePlain(data);
    var t := out[|out| - 4..];
    assert t[0] == out[|out| - 4] && t[1] == out[|out| - 3] && t[2] == out[|out| - 2] && t[3] == out[|out| - 1];
  }

  lemma StoredBody(body: seq<byte>, tail: seq<byte>, data: seq<byte>)
    requires body == ZLIB_HEADER + StoredFrom(data, 0)
    ensures |body| == StoredSize(|data|)
    ensures data == [] ==> body == ZLIB_HEADER
    ensures 0 < |data| <= UINT_MAX ==> Inflated(body + tail, true) == Done(data, 8 * |body|)
  {
    hide Inflated, StoredFrom, StoredHead, BlockLength, StoredSize;
    BodySize(data);
    assert |ZLIB_HEADER| == 2;
    if data == [] {
      StoredStep(data, 0);
    }
    assert body <= body + tail;
    if 0 < |data| <= UINT_MAX {
      StoredInflates(body + tail, data);
    }
  }

  lemma HeaderKept(w: ZWriter)
    requires w.Synced() && w.prefix == ZLIB_HEADER
    ensures w.n >= 2 && w.data[..2] == ZLIB_HEADER
  {
    assert w.data[..w.n][..2] == w.data[..2];
  }

  method PushAdler(w: ZWriter, s1: uint32, s2: uint32)
    requires w.n <= w.data.Length
    modifies w, w.data
    ensures w.n <= w.data.Length
    ensures w.Bytes() == old(w.Bytes()) + [UChar(s2 / 256), UChar(s2), UChar(s1 / 256), UChar(s1)]
  {
    hide UChar;
    w.Push(UChar(s2 / 256));
    w.Push(UChar(s2));
    w.Push(UChar(s1 / 256));
    w.Push(UChar(s1));
  }

  /** Compressing and inflating gives the input back, whatever the quality, the hash collisions
      and the starting size of the output buffer. */
  method RoundTrip(data: seq<byte>, quality: int, initial_size: nat) returns (ok: bool, out: seq<byte>)
    requires |data| <= INT_MAX && 0 < initial_size <= INT_MAX
    ensures ok <==> |data| > 0
    ensures ok ==> out == data
  {
    hide Inflated;
    var z := ZlibCompress(data, quality);
    ok, out := DecodeMalloc(z, initial_size, true);
    if |data| == 0 {
      EmptyFails(z);
    }
  }

  /** For the empty input the compressor writes no block at all, and the checksum bytes that follow
      the header are not a valid block. */
  lemma EmptyFails(z: seq<byte>)
    requires z == ZLIB_HEADER + AdlerBytes([])
    ensures Inflated(z, true).Fail?
  {
    assert z == [0x78, 0x5e, 0, 0, 0, 1];
    EmptyHeader(z);
    assert Word(z, 3) == 0 && Word(z, 5) == 1;
    BlocksStep(z, 16, []);
  }

  lemma EmptyHeader(z: seq<byte>)
    requires |z| == 6 && z[2] == 0
    ensures Peek(z, 17, 2) == 0
  {
    assert StreamBit(z, 17) == 0 && StreamBit(z, 18) == 0;
    assert Peek(z, 18, 1) == 0;
  }
}
