/** RFC 1950 and RFC 1951 from the sender's side: the bytes that carry given data, written out with the numbers
    of the standards. */
module Sender {
  import opened Bits
  import opened DeflateSpec
  import opened Packing

  // ---- Huffman codes (section 3.2.2) -------------------------------------------------------

  /** At most 288 symbols with lengths up to 15, zero for those that are not used. */
  predicate Lengths15(l: seq<nat>) {
    |l| <= 288 && forall i :: 0 <= i < |l| ==> l[i] <= 15
  }

  /** What the first `k` symbols take of 2^15. */
  function Taken(l: seq<nat>, k: nat): nat
    requires Lengths15(l) && k <= |l|
  {
    if k == 0 then 0 else Taken(l, k - 1) + if l[k - 1] > 0 then POWERS[15 - l[k - 1]] else 0
  }

  /** Not more codes than there is room for. */
  predicate Prefixes(l: seq<nat>) {
    Lengths15(l) && Taken(l, |l|) <= 32768
  }

  /** The number of a codeword: what shorter codes take of its length, and one for every earlier symbol of
      the same length, counted over the first `k` symbols. */
  function Number(l: seq<nat>, i: nat, k: nat): nat
    requires Lengths15(l) && i < |l| && k <= |l|
  {
    if k == 0 then 0
    else Number(l, i, k - 1) + if 0 < l[k - 1] < l[i] then POWERS[l[i] - l[k - 1]] else if l[k - 1] == l[i] && k - 1 < i then 1 else 0
  }

  predicate Used(l: seq<nat>, i: nat) {
    Lengths15(l) && i < |l| && l[i] > 0
  }

  /** A codeword, most significant bit first. */
  function Word(l: seq<nat>, i: nat): (b: seq<nat>)
    requires Used(l, i)
    ensures |b| == l[i] && AreBits(b)
  {
    HighFirst(Number(l, i, |l|), l[i])
  }

  // ---- Lengths and distances (section 3.2.5) -----------------------------------------------

  datatype Part = Part(symbol: nat, extra: nat, value: nat)

  /** The lengths 3 to 10 have symbols of their own; then four symbols each share ranges of 2, 4, 8, 16 and 32
      lengths; 258 is alone again. */
  function LengthPart(len: nat): Part
    requires 3 <= len <= 258
  {
    if len == 258 then Part(285, 0, 0)
    else if len <= 10 then Part(254 + len, 0, 0)
    else if len <= 18 then Part(265 + (len - 11) / 2, 1, (len - 11) % 2)
    else if len <= 34 then Part(269 + (len - 19) / 4, 2, (len - 19) % 4)
    else if len <= 66 then Part(273 + (len - 35) / 8, 3, (len - 35) % 8)
    else if len <= 130 then Part(277 + (len - 67) / 16, 4, (len - 67) % 16)
    else Part(281 + (len - 131) / 32, 5, (len - 131) % 32)
  }

  /** The distances 1 to 4 have symbols of their own; then two symbols each share ranges of 2, 4, 8 and so on. */
  function DistancePart(dist: nat): Part
    requires 1 <= dist <= 32768
  {
    if dist <= 4 then Part(dist - 1, 0, 0)
    else if dist <= 8 then Part(4 + (dist - 5) / 2, 1, (dist - 5) % 2)
    else if dist <= 16 then Part(6 + (dist - 9) / 4, 2, (dist - 9) % 4)
    else if dist <= 32 then Part(8 + (dist - 17) / 8, 3, (dist - 17) % 8)
    else if dist <= 64 then Part(10 + (dist - 33) / 16, 4, (dist - 33) % 16)
    else if dist <= 128 then Part(12 + (dist - 65) / 32, 5, (dist - 65) % 32)
    else if dist <= 256 then Part(14 + (dist - 129) / 64, 6, (dist - 129) % 64)
    else if dist <= 512 then Part(16 + (dist - 257) / 128, 7, (dist - 257) % 128)
    else if dist <= 1024 then Part(18 + (dist - 513) / 256, 8, (dist - 513) % 256)
    else if dist <= 2048 then Part(20 + (dist - 1025) / 512, 9, (dist - 1025) % 512)
    else if dist <= 4096 then Part(22 + (dist - 2049) / 1024, 10, (dist - 2049) % 1024)
    else if dist <= 8192 then Part(24 + (dist - 4097) / 2048, 11, (dist - 4097) % 2048)
    else if dist <= 16384 then Part(26 + (dist - 8193) / 4096, 12, (dist - 8193) % 4096)
    else Part(28 + (dist - 16385) / 8192, 13, (dist - 16385) % 8192)
  }

  // ---- Tokens (section 3.2.3) --------------------------------------------------------------

  /** What a token adds: byte `k` of a copy is the one `dist` back, over and over. */
  function Applied(out: seq<byte>, t: Token): seq<byte>
    requires t.Literal? || 1 <= t.dist <= |out|
  {
    match t
    case Literal(b) => out + [b]
    case Copy(len, dist) => out + seq(len, k requires 0 <= k < len => out[|out| - dist + k % dist])
  }

  predicate Sendable(ll: seq<nat>, dd: seq<nat>, out: seq<byte>, t: Token) {
    match t
    case Literal(b) => Used(ll, b)
    case Copy(len, dist) =>
      && 3 <= len <= 258 && 1 <= dist <= 32768 && dist <= |out|
      && Used(ll, LengthPart(len).symbol) && Used(dd, DistancePart(dist).symbol)
  }

  predicate AllSendable(ll: seq<nat>, dd: seq<nat>, out: seq<byte>, tokens: seq<Token>)
    decreases |tokens|
  {
    tokens == [] || (Sendable(ll, dd, out, tokens[0]) && AllSendable(ll, dd, Applied(out, tokens[0]), tokens[1..]))
  }

  /** The data that the tokens add to `out`. */
  function Spread(ll: seq<nat>, dd: seq<nat>, out: seq<byte>, tokens: seq<Token>): (r: seq<byte>)
    requires AllSendable(ll, dd, out, tokens)
    decreases |tokens|
  {
    if tokens == [] then out else Spread(ll, dd, Applied(out, tokens[0]), tokens[1..])
  }

  function OneToken(ll: seq<nat>, dd: seq<nat>, ghost out: seq<byte>, t: Token): (b: seq<nat>)
    requires Sendable(ll, dd, out, t)
    ensures AreBits(b)
  {
    match t
    case Literal(b) => Word(ll, b)
    case Copy(len, dist) =>
      var p, q := LengthPart(len), DistancePart(dist);
      Word(ll, p.symbol) + LowFirst(p.value, p.extra) + (Word(dd, q.symbol) + LowFirst(q.value, q.extra))
  }

  /** The tokens and the end symbol. */
  function AllTokens(ll: seq<nat>, dd: seq<nat>, out: seq<byte>, tokens: seq<Token>): (b: seq<nat>)
    requires AllSendable(ll, dd, out, tokens) && Used(ll, 256)
    ensures AreBits(b)
    decreases |tokens|
  {
    if tokens == [] then Word(ll, 256)
    else OneToken(ll, dd, out, tokens[0]) + AllTokens(ll, dd, Applied(out, tokens[0]), tokens[1..])
  }

  // ---- Code lengths (section 3.2.7) --------------------------------------------------------

  /** A code length, the previous one again three to six times, or three to 138 zeros. */
  datatype Item = Length(v: nat) | Again(n: nat) | Zeros(n: nat)

  function ItemPart(t: Item): Part {
    match t
    case Length(v) => Part(v, 0, 0)
    case Again(n) => Part(16, 2, if n >= 3 then n - 3 else 0)
    case Zeros(n) => if n <= 10 then Part(17, 3, if n >= 3 then n - 3 else 0) else Part(18, 7, n - 11)
  }

  predicate ItemOk(cl: seq<nat>, acc: seq<nat>, t: Item) {
    && Used(cl, ItemPart(t).symbol)
    && match t
       case Length(v) => v <= 15
       case Again(n) => 3 <= n <= 6 && acc != []
       case Zeros(n) => 3 <= n <= 138
  }

  function Extended(acc: seq<nat>, t: Item): seq<nat>
    requires t.Again? ==> acc != []
  {
    match t
    case Length(v) => acc + [v]
    case Again(n) => acc + seq(n, _ => acc[|acc| - 1])
    case Zeros(n) => acc + seq(n, _ => 0)
  }

  predicate ItemsOk(cl: seq<nat>, acc: seq<nat>, items: seq<Item>)
    decreases |items|
  {
    items == [] || (ItemOk(cl, acc, items[0]) && ItemsOk(cl, Extended(acc, items[0]), items[1..]))
  }

  function AllLengths(cl: seq<nat>, acc: seq<nat>, items: seq<Item>): seq<nat>
    requires ItemsOk(cl, acc, items)
    decreases |items|
  {
    if items == [] then acc else AllLengths(cl, Extended(acc, items[0]), items[1..])
  }

  function OneItem(cl: seq<nat>, ghost acc: seq<nat>, t: Item): (b: seq<nat>)
    requires ItemOk(cl, acc, t)
    ensures AreBits(b)
  {
    var p := ItemPart(t);
    Word(cl, p.symbol) + LowFirst(p.value, p.extra)
  }

  function AllItems(cl: seq<nat>, acc: seq<nat>, items: seq<Item>): (b: seq<nat>)
    requires ItemsOk(cl, acc, items)
    ensures AreBits(b)
    decreases |items|
  {
    if items == [] then [] else OneItem(cl, acc, items[0]) + AllItems(cl, Extended(acc, items[0]), items[1..])
  }

  /** The order of the lengths of the code-length code: 16, 17, 18, 0, and then outwards from 8 in turn. */
  function SymbolAt(p: nat): (i: nat)
    requires p < 19
    ensures i < 19
  {
    if p < 3 then 16 + p else if p == 3 then 0 else if p % 2 == 0 then 8 + (p - 4) / 2 else 7 - (p - 5) / 2
  }

  function PlacesFrom(cl: seq<nat>, p: nat, n: nat): (b: seq<nat>)
    requires |cl| == 19 && p <= n <= 19
    ensures AreBits(b) && |b| == 3 * (n - p)
    decreases n - p
  {
    if p == n then [] else LowFirst(cl[SymbolAt(p)], 3) + PlacesFrom(cl, p + 1, n)
  }

  /** What a dynamic block says of its codes: the lengths of the two codes, the code they are sent with, how many
      of its lengths are sent, and the items. */
  datatype Header = Header(ll: seq<nat>, dd: seq<nat>, cl: seq<nat>, n: nat, items: seq<Item>)

  predicate HeaderFits(h: Header) {
    && 257 <= |h.ll| <= 286 && 1 <= |h.dd| <= 32 && Prefixes(h.ll) && Prefixes(h.dd) && Used(h.ll, 256)
    && |h.cl| == 19 && Prefixes(h.cl) && (forall i :: 0 <= i < 19 ==> h.cl[i] <= 7)
    && 4 <= h.n <= 19 && (forall p :: h.n <= p < 19 ==> h.cl[SymbolAt(p)] == 0)
    && ItemsOk(h.cl, [], h.items) && AllLengths(h.cl, [], h.items) == h.ll + h.dd
  }

  function HeaderBits(h: Header): (b: seq<nat>)
    requires HeaderFits(h)
    ensures AreBits(b)
  {
    LowFirst(|h.ll| - 257, 5) + (LowFirst(|h.dd| - 1, 5) + (LowFirst(h.n - 4, 4) + (PlacesFrom(h.cl, 0, h.n) + AllItems(h.cl, [], h.items))))
  }

  // ---- Blocks (sections 3.2.3, 3.2.4 and 3.2.6) --------------------------------------------

  datatype Block = Plain(data: seq<byte>, filling: nat) | Fixed(tokens: seq<Token>) | Own(header: Header, tokens: seq<Token>)

  function FixedLits(): (l: seq<nat>)
    ensures |l| == 288
  {
    seq(144, _ => 8) + seq(112, _ => 9) + seq(24, _ => 7) + seq(8, _ => 8)
  }

  function FixedDists(): (l: seq<nat>)
    ensures |l| == 32
  {
    seq(32, _ => 5)
  }

  predicate BlockFits(out: seq<byte>, b: Block) {
    match b
    case Plain(data, _) => |data| <= 65535
    case Fixed(tokens) => Used(FixedLits(), 256) && AllSendable(FixedLits(), FixedDists(), out, tokens)
    case Own(h, tokens) => HeaderFits(h) && AllSendable(h.ll, h.dd, out, tokens)
  }

  function Grown(out: seq<byte>, b: Block): seq<byte>
    requires BlockFits(out, b)
  {
    match b
    case Plain(data, _) => out + data
    case Fixed(tokens) => Spread(FixedLits(), FixedDists(), out, tokens)
    case Own(h, tokens) => Spread(h.ll, h.dd, out, tokens)
  }

  /** Any bits up to the next byte. */
  function Filling(v: nat, c: nat): (b: seq<nat>)
    ensures AreBits(b) && |b| < 8 && (c + |b|) % 8 == 0
  {
    LowFirst(v, (8 - c % 8) % 8)
  }

  function BytesBits(data: seq<byte>): (b: seq<nat>)
    ensures AreBits(b) && |b| == 8 * |data|
  {
    if data == [] then [] else LowFirst(data[0], 8) + BytesBits(data[1..])
  }

  /** The bits of a block that starts at bit `c`. */
  function BlockBits(out: seq<byte>, b: Block, last: bool, c: nat): (r: seq<nat>)
    requires BlockFits(out, b)
    ensures AreBits(r) && |r| >= 3
  {
    LowFirst(if last then 1 else 0, 1)
    + match b
      case Plain(data, filling) =>
        LowFirst(0, 2) + (Filling(filling, c + 3) + (LowFirst(|data|, 16) + (LowFirst(65535 - |data|, 16) + BytesBits(data))))
      case Fixed(tokens) => LowFirst(1, 2) + AllTokens(FixedLits(), FixedDists(), out, tokens)
      case Own(h, tokens) => LowFirst(2, 2) + (HeaderBits(h) + AllTokens(h.ll, h.dd, out, tokens))
  }

  predicate BlocksFit(out: seq<byte>, blocks: seq<Block>)
    decreases |blocks|
  {
    blocks == [] || (BlockFits(out, blocks[0]) && BlocksFit(Grown(out, blocks[0]), blocks[1..]))
  }

  /** The data sent in blocks. */
  function Carried(out: seq<byte>, blocks: seq<Block>): seq<byte>
    requires BlocksFit(out, blocks)
    decreases |blocks|
  {
    if blocks == [] then out else Carried(Grown(out, blocks[0]), blocks[1..])
  }

  function BlocksBits(out: seq<byte>, blocks: seq<Block>, c: nat): (b: seq<nat>)
    requires BlocksFit(out, blocks)
    ensures AreBits(b)
    decreases |blocks|
  {
    if blocks == [] then []
    else
      var first := BlockBits(out, blocks[0], |blocks| == 1, c);
      first + BlocksBits(Grown(out, blocks[0]), blocks[1..], c + |first|)
  }

  /** A zlib stream (RFC 1950, section 2.2): two header bytes, the blocks, and whatever follows. */
  ghost predicate IsStream(z: seq<byte>, blocks: seq<Block>, data: seq<byte>, tail: seq<byte>) {
    && blocks != [] && BlocksFit([], blocks) && Carried([], blocks) == data
    && |z| >= 2 && z[0] % 16 == 8 && (256 * (z[0] as int) + z[1] as int) % 31 == 0 && z[1] / 32 % 2 == 0
    && z == z[..2] + Pack(BlocksBits([], blocks, 16)) + tail
  }

  /** Some way to send the data gives this stream. */
  ghost predicate Sends(z: seq<byte>, data: seq<byte>, tail: seq<byte>) {
    exists blocks :: IsStream(z, blocks, data, tail)
  }
}
