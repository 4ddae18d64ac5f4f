/** One stream with a dynamic block, bit for bit: six letters `A` with a literal code of two symbols. */
module InflateExample {
  import opened DeflateSpec
  import opened Packing
  import S = Sender
  import InflateSpec
  import InflateLaw
  import opened Bits

  const STREAM: seq<byte> := [0x78, 0x9c, 0x05, 0x20, 0xa0, 0x40, 0x6c, 0xf9, 0x4b, 0x15, 0, 0, 0, 0, 0, 0, 0x20]

  const LETTERS: seq<Token> := [Literal(65), Literal(65), Literal(65), Literal(65), Literal(65), Literal(65)]

  const ITEMS: seq<S.Item> := [S.Zeros(65), S.Length(8), S.Zeros(138), S.Zeros(52), S.Length(8), S.Length(8)]

  function Lits(): (l: seq<nat>)
    ensures |l| == 257
  {
    seq(257, i => if i == 65 || i == 256 then 8 else 0)
  }

  function Sizes(): (l: seq<nat>)
    ensures |l| == 19
  {
    [0, 0, 0, 0, 0, 0, 0, 0, 2, 0, 0, 0, 0, 0, 0, 0, 0, 2, 1]
  }

  function Head(): S.Header {
    S.Header(Lits(), [8], Sizes(), 5, ITEMS)
  }

  // ---- The header fits ---------------------------------------------------------------------

  lemma {:induction false} LitsTaken(k: nat)
    requires k <= 257
    ensures S.Lengths15(Lits()) && S.Taken(Lits(), k) == if k <= 65 then 0 else if k <= 256 then 128 else 256
    decreases k
  {
    if k > 0 {
      LitsTaken(k - 1);
    }
  }

  lemma {:induction false} LitsNumber(i: nat, k: nat)
    requires i in {65, 256} && k <= 257
    ensures S.Used(Lits(), i) && S.Number(Lits(), i, k) == if i == 256 && k > 65 then 1 else 0
    decreases k
  {
    if k > 0 {
      LitsNumber(i, k - 1);
    }
  }

  lemma SizeAt(i: nat)
    requires i < 19
    ensures Sizes()[i] == if i == 8 || i == 17 then 2 else if i == 18 then 1 else 0
  {
  }

  lemma SizesSmall()
    ensures S.Lengths15(Sizes())
  {
  }

  /** What the code-length code takes, symbol by symbol. */
  lemma {:induction false} SizesTaken(k: nat)
    requires k <= 19
    ensures S.Lengths15(Sizes())
    ensures S.Taken(Sizes(), k) == if k <= 8 then 0 else if k <= 17 then 8192 else if k == 18 then 16384 else 32768
    decreases k
  {
    hide Sizes;
    SizesSmall();
    if k > 0 {
      SizesTaken(k - 1);
      SizeAt(k - 1);
    }
  }

  lemma {:induction false} SizesNumber(i: nat, k: nat)
    requires i in {8, 17, 18} && k <= 19
    ensures S.Used(Sizes(), i)
    ensures S.Number(Sizes(), i, k)
         == if i == 18 then 0 else (if i == 17 && k > 8 then 1 else 0) + if k == 19 then 2 else 0
    decreases k
  {
    hide Sizes;
    SizesSmall();
    SizeAt(i);
    if k > 0 {
      SizesNumber(i, k - 1);
      SizeAt(k - 1);
    }
  }

  lemma DistTaken()
    ensures S.Prefixes([8])
  {
    assert S.Taken([8], 1) == S.Taken([8], 0) + 128;
  }

  lemma SizesFit()
    ensures S.Prefixes(Sizes()) && S.Prefixes(Lits())
  {
    hide S.Taken, Lits, Sizes;
    SizesTaken(19);
    LitsTaken(257);
  }

  lemma WordsAre()
    ensures S.Used(Sizes(), 18) && S.Word(Sizes(), 18) == [0]
    ensures S.Used(Sizes(), 8) && S.Word(Sizes(), 8) == [1, 0]
    ensures S.Used(Lits(), 65) && S.Word(Lits(), 65) == [0, 0, 0, 0, 0, 0, 0, 0]
    ensures S.Used(Lits(), 256) && S.Word(Lits(), 256) == [0, 0, 0, 0, 0, 0, 0, 1]
  {
    hide S.Number;
    SizesNumber(18, 19);
    SizesNumber(8, 19);
    LitsNumber(65, 257);
    LitsNumber(256, 257);
    SmallNumbers();
  }

  lemma SmallNumbers()
    ensures HighFirst(0, 1) == [0] && HighFirst(2, 2) == [1, 0]
    ensures HighFirst(0, 8) == [0, 0, 0, 0, 0, 0, 0, 0] && HighFirst(1, 8) == [0, 0, 0, 0, 0, 0, 0, 1]
  {
    assert POWERS[7] == 128 && POWERS[6] == 64 && POWERS[5] == 32 && POWERS[4] == 16;
  }

  // ---- The items ---------------------------------------------------------------------------

  lemma ItemNext(cl: seq<nat>, acc: seq<nat>, t: S.Item, rest: seq<S.Item>)
    requires S.ItemOk(cl, acc, t) && S.ItemsOk(cl, S.Extended(acc, t), rest)
    ensures S.ItemsOk(cl, acc, [t] + rest)
    ensures S.AllLengths(cl, acc, [t] + rest) == S.AllLengths(cl, S.Extended(acc, t), rest)
    ensures S.AllItems(cl, acc, [t] + rest) == S.OneItem(cl, acc, t) + S.AllItems(cl, S.Extended(acc, t), rest)
  {
    hide S.ItemOk, S.Extended, S.OneItem;
    assert ([t] + rest)[0] == t && ([t] + rest)[1..] == rest;
  }

  function ZerosBits(n: nat): seq<nat>
    requires 11 <= n <= 138
  {
    [0] + LowFirst(n - 11, 7)
  }

  lemma ZerosItem(acc: seq<nat>, n: nat)
    requires 11 <= n <= 138
    ensures S.ItemOk(Sizes(), acc, S.Zeros(n)) && S.Extended(acc, S.Zeros(n)) == acc + seq(n, _ => 0)
    ensures S.OneItem(Sizes(), acc, S.Zeros(n)) == ZerosBits(n)
  {
    hide S.Word, S.Used, LowFirst;
    WordsAre();
  }

  lemma EightItem(acc: seq<nat>)
    ensures S.ItemOk(Sizes(), acc, S.Length(8)) && S.Extended(acc, S.Length(8)) == acc + [8]
    ensures S.OneItem(Sizes(), acc, S.Length(8)) == [1, 0]
  {
    hide S.Word, S.Used;
    WordsAre();
  }

  lemma ItemsAre()
    ensures S.ItemsOk(Sizes(), [], ITEMS) && S.AllLengths(Sizes(), [], ITEMS) == Lits() + [8]
    ensures S.AllItems(Sizes(), [], ITEMS) == ZerosBits(65) + ([1, 0] + (ZerosBits(138) + (ZerosBits(52) + ([1, 0] + ([1, 0] + [])))))
  {
    hide S.ItemOk, S.Extended, S.OneItem, ZerosBits, S.ItemsOk, S.AllLengths, S.AllItems, Sizes;
    var cl := Sizes();
    ZerosItem([], 65);
    var a1 := S.Extended([], S.Zeros(65));
    EightItem(a1);
    var a2 := S.Extended(a1, S.Length(8));
    ZerosItem(a2, 138);
    var a3 := S.Extended(a2, S.Zeros(138));
    ZerosItem(a3, 52);
    var a4 := S.Extended(a3, S.Zeros(52));
    EightItem(a4);
    var a5 := S.Extended(a4, S.Length(8));
    EightItem(a5);
    var a6 := S.Extended(a5, S.Length(8));
    NoItems(cl, a6);
    ItemNext(cl, a5, S.Length(8), []);
    ItemNext(cl, a4, S.Length(8), [S.Length(8)] + []);
    ItemNext(cl, a3, S.Zeros(52), [S.Length(8)] + ([S.Length(8)] + []));
    ItemNext(cl, a2, S.Zeros(138), [S.Zeros(52)] + ([S.Length(8)] + ([S.Length(8)] + [])));
    ItemNext(cl, a1, S.Length(8), [S.Zeros(138)] + ([S.Zeros(52)] + ([S.Length(8)] + ([S.Length(8)] + []))));
    ItemNext(cl, [], S.Zeros(65), [S.Length(8)] + ([S.Zeros(138)] + ([S.Zeros(52)] + ([S.Length(8)] + ([S.Length(8)] + [])))));
    assert ITEMS == [S.Zeros(65)] + ([S.Length(8)] + ([S.Zeros(138)] + ([S.Zeros(52)] + ([S.Length(8)] + ([S.Length(8)] + [])))));
    assert a6 == Lits() + [8];
  }

  lemma NoItems(cl: seq<nat>, acc: seq<nat>)
    ensures S.ItemsOk(cl, acc, []) && S.AllLengths(cl, acc, []) == acc && S.AllItems(cl, acc, []) == []
  {
  }

  // ---- The block ---------------------------------------------------------------------------

  lemma PlacesStep(p: nat)
    requires p < 5
    ensures S.PlacesFrom(Sizes(), p, 5) == LowFirst(Sizes()[S.SymbolAt(p)], 3) + S.PlacesFrom(Sizes(), p + 1, 5)
    ensures S.PlacesFrom(Sizes(), 5, 5) == []
  {
    hide LowFirst, S.SymbolAt, Sizes;
  }

  lemma SmallPlaces()
    ensures LowFirst(0, 3) == [0, 0, 0] && LowFirst(1, 3) == [1, 0, 0] && LowFirst(2, 3) == [0, 1, 0]
  {
  }

  lemma PlacesAre()
    ensures S.PlacesFrom(Sizes(), 0, 5) == [0, 0, 0] + ([0, 1, 0] + ([1, 0, 0] + ([0, 0, 0] + ([0, 1, 0] + []))))
  {
    hide LowFirst, S.PlacesFrom;
    SmallPlaces();
    PlacesStep(0);
    PlacesStep(1);
    PlacesStep(2);
    PlacesStep(3);
    PlacesStep(4);
  }

  lemma HeadFits()
    ensures S.HeaderFits(Head())
  {
    hide S.Prefixes, Lits, S.ItemsOk, S.AllLengths;
    SizesFit();
    DistTaken();
    WordsAre();
    ItemsAre();
    forall p | 5 <= p < 19
      ensures Sizes()[S.SymbolAt(p)] == 0
    {
      Unsent(p);
    }
  }

  lemma Unsent(p: nat)
    requires 5 <= p < 19
    ensures Sizes()[S.SymbolAt(p)] == 0
  {
    assert S.SymbolAt(p) !in {8, 17, 18};
  }

  function Letters(n: nat): seq<byte> {
    seq(n, _ => 65)
  }

  lemma NextLetter(n: nat, rest: seq<Token>)
    requires S.AllSendable(Lits(), [8], Letters(n + 1), rest)
    ensures S.AllSendable(Lits(), [8], Letters(n), [Literal(65)] + rest)
    ensures S.Spread(Lits(), [8], Letters(n), [Literal(65)] + rest) == S.Spread(Lits(), [8], Letters(n + 1), rest)
    ensures S.Used(Lits(), 256)
    ensures S.AllTokens(Lits(), [8], Letters(n), [Literal(65)] + rest)
         == [0, 0, 0, 0, 0, 0, 0, 0] + S.AllTokens(Lits(), [8], Letters(n + 1), rest)
  {
    hide S.Word, S.Used;
    WordsAre();
    assert ([Literal(65)] + rest)[0] == Literal(65) && ([Literal(65)] + rest)[1..] == rest;
    assert Letters(n) + [65] == Letters(n + 1);
  }

  lemma NoLetters(n: nat)
    ensures S.Used(Lits(), 256) && S.AllSendable(Lits(), [8], Letters(n), [])
    ensures S.Spread(Lits(), [8], Letters(n), []) == Letters(n)
    ensures S.AllTokens(Lits(), [8], Letters(n), []) == [0, 0, 0, 0, 0, 0, 0, 1]
  {
    hide S.Word, S.Used;
    WordsAre();
  }

  function TokenBits(): seq<nat> {
    var z := [0, 0, 0, 0, 0, 0, 0, 0];
    z + (z + (z + (z + (z + (z + [0, 0, 0, 0, 0, 0, 0, 1])))))
  }

  lemma LettersAre()
    ensures S.Used(Lits(), 256) && S.AllSendable(Lits(), [8], [], LETTERS)
    ensures S.Spread(Lits(), [8], [], LETTERS) == Letters(6)
    ensures S.AllTokens(Lits(), [8], [], LETTERS) == TokenBits()
  {
    hide S.AllSendable, S.Spread, S.AllTokens, S.Used, Lits;
    var a := Literal(65);
    NoLetters(6);
    NextLetter(5, []);
    NextLetter(4, [a] + []);
    NextLetter(3, [a] + ([a] + []));
    NextLetter(2, [a] + ([a] + ([a] + [])));
    NextLetter(1, [a] + ([a] + ([a] + ([a] + []))));
    NextLetter(0, [a] + ([a] + ([a] + ([a] + ([a] + [])))));
    assert LETTERS == [a] + ([a] + ([a] + ([a] + ([a] + ([a] + [])))));
    assert Letters(0) == [];
  }

  // ---- The bytes ---------------------------------------------------------------------------

  lemma LongNumbers()
    ensures LowFirst(0, 5) == [0, 0, 0, 0, 0] && LowFirst(1, 4) == [1, 0, 0, 0]
    ensures LowFirst(1, 1) == [1] && LowFirst(2, 2) == [0, 1]
  {
    assert POWERS[4] == 16 && POWERS[3] == 8 && POWERS[2] == 4 && POWERS[1] == 2 && POWERS[0] == 1;
  }

  lemma Run65()
    ensures ZerosBits(65) == [0, 0, 1, 1, 0, 1, 1, 0]
  {
    var b := LowFirst(54, 7);
    assert b[0] == 0 && b[1] == 1 && b[2] == 1 && b[3] == 0;
    assert b[4] == 1 && b[5] == 1 && b[6] == 0;
  }

  lemma Run138()
    ensures ZerosBits(138) == [0, 1, 1, 1, 1, 1, 1, 1]
  {
    var b := LowFirst(127, 7);
    assert b[0] == 1 && b[1] == 1 && b[2] == 1 && b[3] == 1;
    assert b[4] == 1 && b[5] == 1 && b[6] == 1;
  }

  lemma Run52()
    ensures ZerosBits(52) == [0, 1, 0, 0, 1, 0, 1, 0]
  {
    var b := LowFirst(41, 7);
    assert b[0] == 1 && b[1] == 0 && b[2] == 0 && b[3] == 1;
    assert b[4] == 0 && b[5] == 1 && b[6] == 0;
  }

  /** The numbers of the header, bit for bit. */
  function Front(): seq<nat> {
    [0, 0, 0, 0, 0, 0, 0, 0, 0, 0, 1, 0, 0, 0, 0, 0, 0, 0, 1, 0, 1, 0, 0, 0, 0, 0, 0, 1, 0]
  }

  /** Its items. */
  function Items(): seq<nat> {
    [0, 0, 1, 1, 0, 1, 1, 0, 1, 0, 0, 1, 1, 1, 1, 1, 1, 1, 0, 1, 0, 0, 1, 0, 1, 0, 1, 0, 1, 0]
  }

  lemma ItemBits()
    ensures S.AllItems(Sizes(), [], ITEMS) == Items()
  {
    hide S.AllItems, ZerosBits, Lits, Sizes;
    ItemsAre();
    Run65();
    Run138();
    Run52();
  }

  lemma FrontBits(items: seq<nat>)
    ensures LowFirst(0, 5) + (LowFirst(0, 5) + (LowFirst(1, 4) + (S.PlacesFrom(Sizes(), 0, 5) + items))) == Front() + items
  {
    hide LowFirst, S.PlacesFrom, Sizes;
    PlacesAre();
    LongNumbers();
  }

  lemma HeaderIs()
    ensures S.HeaderFits(Head()) && S.HeaderBits(Head()) == Front() + Items()
  {
    hide S.HeaderFits, Lits, LowFirst, S.PlacesFrom, S.AllItems, Sizes, Front, Items;
    HeadFits();
    ItemBits();
    FrontBits(Items());
  }

  lemma BlockIs()
    ensures S.BlockFits([], S.Own(Head(), LETTERS))
    ensures S.Grown([], S.Own(Head(), LETTERS)) == Letters(6)
    ensures S.BlockBits([], S.Own(Head(), LETTERS), true, 16) == [1] + ([0, 1] + (Front() + Items() + TokenBits()))
  {
    hide S.HeaderFits, S.HeaderBits, S.AllSendable, S.Spread, S.AllTokens, S.Used, Lits, LowFirst, Sizes, Front, Items, TokenBits, Letters;
    HeaderIs();
    LettersAre();
    LongNumbers();
  }

  // ---- The bytes ---------------------------------------------------------------------------

  lemma FrontGroups(rest: seq<nat>)
    ensures [1] + ([0, 1] + (Front() + rest))
         == [1, 0, 1, 0, 0, 0, 0, 0] + ([0, 0, 0, 0, 0, 1, 0, 0] + ([0, 0, 0, 0, 0, 1, 0, 1] + ([0, 0, 0, 0, 0, 0, 1, 0] + (rest))))
  {
  }

  lemma ItemGroups(rest: seq<nat>)
    ensures Items() + ([0, 0] + rest)
         == [0, 0, 1, 1, 0, 1, 1, 0] + ([1, 0, 0, 1, 1, 1, 1, 1] + ([1, 1, 0, 1, 0, 0, 1, 0] + ([1, 0, 1, 0, 1, 0, 0, 0] + (rest))))
  {
  }

  function LastBits(): seq<nat> {
    var z := [0, 0, 0, 0, 0, 0, 0, 0];
    z + (z + (z + (z + (z + (z + [0, 0, 0, 0, 0, 1])))))
  }

  lemma TokenGroups()
    ensures TokenBits() == [0, 0] + LastBits()
  {
  }

  lemma PackGroup(g: seq<nat>, rest: seq<nat>)
    requires |g| == 8 && AreBits(g) && AreBits(rest)
    ensures AreBits(g + rest) && Pack(g + rest) == [ByteOf(g)] + Pack(rest)
  {
    hide ByteOf;
    assert (g + rest)[..8] == g && (g + rest)[8..] == rest;
  }

  lemma FrontBytes(rest: seq<nat>)
    requires AreBits(rest)
    ensures var b := [1, 0, 1, 0, 0, 0, 0, 0] + ([0, 0, 0, 0, 0, 1, 0, 0] + ([0, 0, 0, 0, 0, 1, 0, 1] + ([0, 0, 0, 0, 0, 0, 1, 0] + (rest))));
            AreBits(b) && Pack(b) == [5, 32, 160, 64] + Pack(rest)
  {
    hide Pack;
    PackGroup([0, 0, 0, 0, 0, 0, 1, 0], rest);
    PackGroup([0, 0, 0, 0, 0, 1, 0, 1], [0, 0, 0, 0, 0, 0, 1, 0] + (rest));
    PackGroup([0, 0, 0, 0, 0, 1, 0, 0], [0, 0, 0, 0, 0, 1, 0, 1] + ([0, 0, 0, 0, 0, 0, 1, 0] + (rest)));
    PackGroup([1, 0, 1, 0, 0, 0, 0, 0], [0, 0, 0, 0, 0, 1, 0, 0] + ([0, 0, 0, 0, 0, 1, 0, 1] + ([0, 0, 0, 0, 0, 0, 1, 0] + (rest))));
  }

  lemma ItemBytes(rest: seq<nat>)
    requires AreBits(rest)
    ensures var b := [0, 0, 1, 1, 0, 1, 1, 0] + ([1, 0, 0, 1, 1, 1, 1, 1] + ([1, 1, 0, 1, 0, 0, 1, 0] + ([1, 0, 1, 0, 1, 0, 0, 0] + (rest))));
            AreBits(b) && Pack(b) == [108, 249, 75, 21] + Pack(rest)
  {
    hide Pack;
    PackGroup([1, 0, 1, 0, 1, 0, 0, 0], rest);
    PackGroup([1, 1, 0, 1, 0, 0, 1, 0], [1, 0, 1, 0, 1, 0, 0, 0] + (rest));
    PackGroup([1, 0, 0, 1, 1, 1, 1, 1], [1, 1, 0, 1, 0, 0, 1, 0] + ([1, 0, 1, 0, 1, 0, 0, 0] + (rest)));
    PackGroup([0, 0, 1, 1, 0, 1, 1, 0], [1, 0, 0, 1, 1, 1, 1, 1] + ([1, 1, 0, 1, 0, 0, 1, 0] + ([1, 0, 1, 0, 1, 0, 0, 0] + (rest))));
  }

  lemma LetterBytes()
    ensures AreBits(LastBits()) && Pack(LastBits()) == [0, 0, 0, 0, 0, 0, 32]
  {
    hide Pack;
    var z := [0, 0, 0, 0, 0, 0, 0, 0];
    var t := [0, 0, 0, 0, 0, 1];
    LastByte();
    PackGroup(z, t);
    PackGroup(z, z + t);
    PackGroup(z, z + (z + t));
    PackGroup(z, z + (z + (z + t)));
    PackGroup(z, z + (z + (z + (z + t))));
    PackGroup(z, z + (z + (z + (z + (z + t)))));
  }

  lemma LastByte()
    ensures Pack([0, 0, 0, 0, 0, 1]) == [32]
  {
    var b := [0, 0, 0, 0, 0, 1] + ZeroBits(2);
    assert ByteOf(b) == 32;
  }

  lemma MiddleBytes()
    ensures AreBits(Items() + TokenBits()) && Pack(Items() + TokenBits()) == [108, 249, 75, 21, 0, 0, 0, 0, 0, 0, 32]
  {
    hide Pack, Items, TokenBits, LastBits;
    TokenGroups();
    LetterBytes();
    ItemGroups(LastBits());
    ItemBytes(LastBits());
  }

  /** The bits of the block in bytes. */
  lemma BytesAre()
    ensures S.BlockFits([], S.Own(Head(), LETTERS))
    ensures Pack(S.BlockBits([], S.Own(Head(), LETTERS), true, 16)) == STREAM[2..]
  {
    hide Pack, S.BlockFits, S.BlockBits, Front, Items, TokenBits;
    BlockIs();
    MiddleBytes();
    assert Front() + Items() + TokenBits() == Front() + (Items() + TokenBits());
    FrontGroups(Items() + TokenBits());
    FrontBytes(Items() + TokenBits());
  }

  /** These seventeen bytes are a stream of six letters, sent with the codes above. */
  lemma KnownSent()
    ensures S.IsStream(STREAM, [S.Own(Head(), LETTERS)], [65, 65, 65, 65, 65, 65], [])
  {
    hide Pack, S.BlockFits, S.BlockBits, S.Grown, Letters, Head;
    var b := S.Own(Head(), LETTERS);
    BlockIs();
    BytesAre();
    SixLetters();
    assert [b][1..] == [];
    var z := STREAM[..2] + STREAM[2..] + [];
    assert S.BlocksBits([], [b], 16) == S.BlockBits([], b, true, 16);
    assert S.Carried([], [b]) == S.Grown([], b);
    assert z == STREAM;
  }

  lemma SixLetters()
    ensures Letters(6) == [65, 65, 65, 65, 65, 65]
  {
  }

  /** The inflater's meaning of these bytes. */
  lemma KnownStream()
    ensures var r := InflateSpec.Inflated(STREAM, true); r.Done? && r.out == [65, 65, 65, 65, 65, 65]
  {
    hide InflateSpec.Inflated, S.IsStream;
    KnownSent();
    InflateLaw.StreamMeans(STREAM, [S.Own(Head(), LETTERS)], [65, 65, 65, 65, 65, 65], []);
  }
}
