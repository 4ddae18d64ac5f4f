/** Whatever a sender puts into a zlib stream by the rules of the standards, the inflater gives back. */
module InflateLaw {
  import opened Bits
  import opened Huffman
  import opened InflateSpec
  import opened DeflateSpec
  import opened Packing
  import opened Inflate
  import S = Sender

  // ---- Codewords ---------------------------------------------------------------------------

  /** What shorter codes take of length `s`, over the first `k` symbols. */
  ghost function Shorter(l: seq<nat>, s: nat, k: nat): nat
    requires S.Lengths15(l) && k <= |l| && s <= 15
  {
    if k == 0 then 0 else Shorter(l, s, k - 1) + if 0 < l[k - 1] < s then POWERS[s - l[k - 1]] else 0
  }

  lemma {:induction false} ShorterDoubles(l: seq<nat>, s: nat, k: nat)
    requires S.Lengths15(l) && k <= |l| && 2 <= s <= 15
    ensures Shorter(l, s, k) == 2 * Shorter(l, s - 1, k) + 2 * Count(l[..k], s - 1)
    decreases k
  {
    if k > 0 {
      ShorterDoubles(l, s, k - 1);
      CountNext(l, k - 1, s - 1);
      var x := l[k - 1];
      if 0 < x < s {
        assert POWERS[s - x] == 2 * POWERS[s - x - 1];
      }
    }
  }

  lemma {:induction false} FirstIsShorter(l: seq<nat>, s: nat)
    requires S.Lengths15(l) && 1 <= s <= 15
    ensures FirstCode(l, s) == Shorter(l, s, |l|)
    decreases s
  {
    hide Shorter, Count;
    if s > 1 {
      FirstIsShorter(l, s - 1);
      ShorterDoubles(l, s, |l|);
      assert l[..|l|] == l;
    } else {
      NothingShorter(l, |l|);
    }
  }

  lemma {:induction false} NothingShorter(l: seq<nat>, k: nat)
    requires S.Lengths15(l) && k <= |l|
    ensures Shorter(l, 1, k) == 0
    decreases k
  {
    if k > 0 {
      NothingShorter(l, k - 1);
    }
  }

  lemma {:induction false} NumberSplits(l: seq<nat>, i: nat, k: nat)
    requires S.Lengths15(l) && i < |l| && l[i] > 0 && k <= |l|
    ensures S.Number(l, i, k) == Shorter(l, l[i], k) + Count(l[..if k <= i then k else i], l[i])
    decreases k
  {
    if k > 0 {
      NumberSplits(l, i, k - 1);
      if k <= i {
        CountNext(l, k - 1, l[i]);
      }
    }
  }

  /** The number of a codeword is the canonical code. */
  lemma NumberIsCode(l: seq<nat>, i: nat)
    requires S.Used(l, i)
    ensures S.Number(l, i, |l|) == CodeOf(l, i)
  {
    hide Shorter, Count, FirstCode, S.Number;
    NumberSplits(l, i, |l|);
    FirstIsShorter(l, l[i]);
  }

  lemma PowersMultiply(a: nat, b: nat)
    requires a + b <= 15
    ensures POWERS[a] * POWERS[b] == POWERS[a + b]
    decreases a
  {
    if a > 0 {
      PowersMultiply(a - 1, b);
      assert POWERS[a] == 2 * POWERS[a - 1] && POWERS[a + b] == 2 * POWERS[a + b - 1];
      assert (2 * POWERS[a - 1]) * POWERS[b] == 2 * (POWERS[a - 1] * POWERS[b]);
    }
  }

  /** What one symbol adds to the end of the codes of length `s`. */
  ghost function Step(x: nat, s: nat): nat
    requires x <= 15 && s <= 15
  {
    if 0 < x < s then POWERS[s - x] else if x == s then 1 else 0
  }

  lemma StepTaken(x: nat, s: nat)
    requires x <= 15 && 1 <= s <= 15
    ensures Step(x, s) * POWERS[15 - s] <= if x > 0 then POWERS[15 - x] else 0
  {
    if 0 < x < s {
      PowersMultiply(s - x, 15 - s);
    }
  }

  lemma EndStep(l: seq<nat>, s: nat, k: nat)
    requires S.Lengths15(l) && 0 < k <= |l| && 1 <= s <= 15
    ensures Shorter(l, s, k) + Count(l[..k], s) == Shorter(l, s, k - 1) + Count(l[..k - 1], s) + Step(l[k - 1], s)
  {
    hide Count;
    CountNext(l, k - 1, s);
  }

  lemma {:induction false} EndIsTaken(l: seq<nat>, s: nat, k: nat)
    requires S.Lengths15(l) && k <= |l| && 1 <= s <= 15
    ensures (Shorter(l, s, k) + Count(l[..k], s)) * POWERS[15 - s] <= S.Taken(l, k)
    decreases k
  {
    hide Count, Step;
    if k > 0 {
      hide Shorter;
      EndIsTaken(l, s, k - 1);
      EndStep(l, s, k);
      StepTaken(l[k - 1], s);
      Distributes(Shorter(l, s, k - 1) + Count(l[..k - 1], s), Step(l[k - 1], s), POWERS[15 - s]);
    } else {
      NoneCounted(l, s);
    }
  }

  lemma Distributes(a: nat, b: nat, p: nat)
    ensures (a + b) * p == a * p + b * p
  {
  }

  lemma NoneCounted(l: seq<nat>, s: nat)
    ensures Count(l[..0], s) == 0
  {
  }

  /** Codes for which there is room are accepted. */
  lemma PrefixesAccepted(l: seq<nat>)
    requires S.Prefixes(l)
    ensures CodeLengths(l) && Accepted(l)
  {
    hide Shorter, Count, FirstCode, S.Taken;
    assert l[..|l|] == l;
    forall s | 1 <= s <= 15
      ensures EndCode(l, s) <= Pow2(s)
    {
      FirstIsShorter(l, s);
      EndIsTaken(l, s, |l|);
      PowersAre(s);
      PowersMultiply(s, 15 - s);
      AtMostQuotient(EndCode(l, s), POWERS[s], POWERS[15 - s]);
    }
  }

  lemma AtMostQuotient(a: nat, b: nat, p: nat)
    requires p > 0 && a * p <= b * p
    ensures a <= b
  {
    assert (b + 1) * p == b * p + p;
    if a > b {
      Times(b + 1, a, p);
    }
  }

  /** A codeword in the stream is read as its symbol. */
  lemma WordRead(l: seq<nat>, i: nat, s: seq<byte>, c: nat)
    requires S.Prefixes(l) && S.Used(l, i) && Carries(s, c, S.Word(l, i))
    ensures Decode(l, s, c) == Some(i)
  {
    hide Decode, CodeOf, S.Number, S.Taken, PeekMsb, BitsMsb, Carries, Accepted;
    PrefixesAccepted(l);
    NumberIsCode(l, i);
    CodeFits(l, i);
    HighFirstIs(CodeOf(l, i), l[i]);
    ReadMsb(s, c, CodeOf(l, i), l[i]);
    DecodeUnique(l, i, s, c);
  }

  /** A codeword and its extra bits. */
  lemma PartRead(l: seq<nat>, i: nat, v: nat, n: nat, s: seq<byte>, c: nat)
    requires S.Prefixes(l) && S.Used(l, i) && n <= 16 && v < POWERS[n]
    requires Carries(s, c, S.Word(l, i) + LowFirst(v, n))
    ensures Decode(l, s, c) == Some(i) && Peek(s, c + l[i], n) == v
  {
    hide Decode, Carries, Peek, S.Word, S.Prefixes, LowFirst;
    CarriesSplit(s, c, S.Word(l, i), LowFirst(v, n));
    WordRead(l, i, s, c);
    NumberCarried(s, c + l[i], v, n);
  }

  // ---- Lengths and distances ---------------------------------------------------------------

  lemma LengthFits(len: nat)
    requires 3 <= len <= 258
    ensures var p := S.LengthPart(len);
            && 257 <= p.symbol <= 285 && LengthExtra(p.symbol - 257) == p.extra && LengthBase(p.symbol - 257) + p.value == len
            && p.extra <= 16 && p.value < POWERS[p.extra]
  {
    hide S.LengthPart;
    if len <= 34 || len == 258 {
      ShortLength(len);
    } else {
      LongLength(len);
    }
  }

  lemma ShortLength(len: nat)
    requires 3 <= len <= 34 || len == 258
    ensures var p := S.LengthPart(len);
            && 257 <= p.symbol <= 285 && LengthExtra(p.symbol - 257) == p.extra && LengthBase(p.symbol - 257) + p.value == len
            && p.extra <= 16 && p.value < POWERS[p.extra]
  {
  }

  lemma LongLength(len: nat)
    requires 35 <= len <= 257
    ensures var p := S.LengthPart(len);
            && 257 <= p.symbol <= 285 && LengthExtra(p.symbol - 257) == p.extra && LengthBase(p.symbol - 257) + p.value == len
            && p.extra <= 16 && p.value < POWERS[p.extra]
  {
  }

  lemma DistanceFits(dist: nat)
    requires 1 <= dist <= 32768
    ensures var p := S.DistancePart(dist);
            && p.symbol < 30 && DistExtra(p.symbol) == p.extra && DistBase(p.symbol) + p.value == dist
            && p.extra <= 16 && p.value < POWERS[p.extra]
  {
    hide S.DistancePart;
    if dist <= 32 {
      DistanceNear(dist);
    } else if dist <= 512 {
      DistanceMiddle(dist);
    } else {
      DistanceFar(dist);
    }
  }

  lemma DistanceNear(dist: nat)
    requires 1 <= dist <= 32
    ensures var p := S.DistancePart(dist);
            && p.symbol < 30 && DistExtra(p.symbol) == p.extra && DistBase(p.symbol) + p.value == dist
            && p.extra <= 16 && p.value < POWERS[p.extra]
  {
  }

  lemma DistanceMiddle(dist: nat)
    requires 33 <= dist <= 512
    ensures var p := S.DistancePart(dist);
            && p.symbol < 30 && DistExtra(p.symbol) == p.extra && DistBase(p.symbol) + p.value == dist
            && p.extra <= 16 && p.value < POWERS[p.extra]
  {
  }

  lemma DistanceFar(dist: nat)
    requires 513 <= dist <= 32768
    ensures var p := S.DistancePart(dist);
            && p.symbol < 30 && DistExtra(p.symbol) == p.extra && DistBase(p.symbol) + p.value == dist
            && p.extra <= 16 && p.value < POWERS[p.extra]
  {
  }

  // ---- Tokens ------------------------------------------------------------------------------

  lemma {:induction false} CopyIsApplied(out: seq<byte>, dist: nat, len: nat)
    requires 1 <= dist <= |out|
    ensures CopyBack(out, dist, len) == S.Applied(out, Copy(len, dist))
    decreases len
  {
    if len > 0 {
      var more := out + [out[|out| - dist]];
      CopyIsApplied(more, dist, len - 1);
      var a, b := S.Applied(more, Copy(len - 1, dist)), S.Applied(out, Copy(len, dist));
      assert |a| == |b|;
      forall k | 0 <= k < |a|
        ensures a[k] == b[k]
      {
        if k > |out| {
          NextInTurn(k - |out| - 1, dist);
        }
      }
    }
  }

  lemma NextInTurn(k: nat, dist: nat)
    requires dist > 0
    ensures (k + 1) % dist == if k % dist + 1 == dist then 0 else k % dist + 1
  {
    var q, r := k / dist, k % dist;
    assert k + 1 == q * dist + (r + 1);
    if r + 1 < dist {
      QuotientIs(k + 1, q, dist, r + 1);
    } else {
      assert k + 1 == (q + 1) * dist + 0;
      QuotientIs(k + 1, q + 1, dist, 0);
    }
  }

  // ---- Blocks of codes ---------------------------------------------------------------------

  /** What a reader finds where a copy was sent. */
  lemma CopyParts(ll: seq<nat>, dd: seq<nat>, s: seq<byte>, c: nat, out: seq<byte>, len: nat, dist: nat)
    requires S.Prefixes(ll) && S.Prefixes(dd) && S.Sendable(ll, dd, out, Copy(len, dist))
    requires Carries(s, c, S.OneToken(ll, dd, out, Copy(len, dist)))
    ensures var p, q := S.LengthPart(len), S.DistancePart(dist);
            && p.symbol < |ll| && q.symbol < |dd|
            && var c1 := c + ll[p.symbol];
               var c2 := c1 + p.extra + dd[q.symbol];
               && |S.OneToken(ll, dd, out, Copy(len, dist))| == c2 + q.extra - c
               && Decode(ll, s, c) == Some(p.symbol) && Peek(s, c1, p.extra) == p.value
               && Decode(dd, s, c1 + p.extra) == Some(q.symbol) && Peek(s, c2, q.extra) == q.value
  {
    hide Decode, Carries, Peek, S.Word, S.LengthPart, S.DistancePart, S.Prefixes, LowFirst, LengthBase, LengthExtra, DistBase, DistExtra, Pow2, POWERS;
    var p, q := S.LengthPart(len), S.DistancePart(dist);
    LengthFits(len);
    DistanceFits(dist);
    var e1, e2 := S.Word(ll, p.symbol) + LowFirst(p.value, p.extra), S.Word(dd, q.symbol) + LowFirst(q.value, q.extra);
    CarriesSplit(s, c, e1, e2);
    PartRead(ll, p.symbol, p.value, p.extra, s, c);
    PartRead(dd, q.symbol, q.value, q.extra, s, c + |e1|);
  }

  lemma CopyRead(ll: seq<nat>, dd: seq<nat>, s: seq<byte>, c: nat, out: seq<byte>, len: nat, dist: nat)
    requires S.Prefixes(ll) && S.Prefixes(dd) && S.Sendable(ll, dd, out, Copy(len, dist))
    requires Carries(s, c, S.OneToken(ll, dd, out, Copy(len, dist))) && |out| + len <= UINT_MAX
    ensures Codes(ll, dd, s, c, out)
         == Codes(ll, dd, s, c + |S.OneToken(ll, dd, out, Copy(len, dist))|, S.Applied(out, Copy(len, dist)))
  {
    hide Codes, Match, Decode, Carries, Peek, S.OneToken, S.Used, S.LengthPart, S.DistancePart, S.Prefixes,
      LengthBase, LengthExtra, DistBase, DistExtra, CopyBack, S.Applied, Pow2;
    var p, q := S.LengthPart(len), S.DistancePart(dist);
    CopyParts(ll, dd, s, c, out, len, dist);
    CodesStep(ll, dd, s, c, out);
    LengthFits(len);
    DistanceFits(dist);
    MatchStep(ll, dd, s, c + ll[p.symbol], out, p.symbol - 257);
    CopyIsApplied(out, dist, len);
  }

  /** One token is read. */
  lemma TokenRead(ll: seq<nat>, dd: seq<nat>, s: seq<byte>, c: nat, out: seq<byte>, t: Token)
    requires S.Prefixes(ll) && S.Prefixes(dd) && S.Sendable(ll, dd, out, t)
    requires Carries(s, c, S.OneToken(ll, dd, out, t)) && |S.Applied(out, t)| <= UINT_MAX
    ensures Codes(ll, dd, s, c, out) == Codes(ll, dd, s, c + |S.OneToken(ll, dd, out, t)|, S.Applied(out, t))
  {
    match t {
      case Literal(b) =>
        hide Codes, Match, Decode, Carries, S.Word, S.Prefixes;
        assert |S.OneToken(ll, dd, out, t)| == ll[b];
        CodesStep(ll, dd, s, c, out);
        WordRead(ll, b, s, c);
      case Copy(len, dist) =>
        hide Codes, Carries, S.OneToken, S.LengthPart, S.DistancePart, S.Prefixes, S.Used;
        CopyRead(ll, dd, s, c, out, len, dist);
    }
  }

  lemma {:induction false} SpreadGrows(ll: seq<nat>, dd: seq<nat>, out: seq<byte>, tokens: seq<Token>)
    requires S.AllSendable(ll, dd, out, tokens)
    ensures |out| + |tokens| <= |S.Spread(ll, dd, out, tokens)|
    decreases |tokens|
  {
    hide S.LengthPart, S.DistancePart, S.Used;
    if tokens != [] {
      SpreadGrows(ll, dd, S.Applied(out, tokens[0]), tokens[1..]);
    }
  }

  /** All tokens and the end symbol are read. */
  lemma {:induction false} TokensRead(ll: seq<nat>, dd: seq<nat>, s: seq<byte>, c: nat, out: seq<byte>, tokens: seq<Token>)
    requires S.Prefixes(ll) && S.Prefixes(dd) && S.Used(ll, 256) && S.AllSendable(ll, dd, out, tokens)
    requires Carries(s, c, S.AllTokens(ll, dd, out, tokens)) && |S.Spread(ll, dd, out, tokens)| <= UINT_MAX && |out| <= UINT_MAX
    ensures Codes(ll, dd, s, c, out) == Done(S.Spread(ll, dd, out, tokens), c + |S.AllTokens(ll, dd, out, tokens)|)
    decreases |tokens|
  {
    hide Codes, Decode, Carries, S.Word, S.Prefixes, S.OneToken, S.LengthPart, S.DistancePart, S.Used;
    if tokens == [] {
      WordRead(ll, 256, s, c);
      CodesStep(ll, dd, s, c, out);
      assert S.Used(ll, 256) && ll[256] == |S.Word(ll, 256)|;
    } else {
      var t, next := tokens[0], S.Applied(out, tokens[0]);
      CarriesSplit(s, c, S.OneToken(ll, dd, out, t), S.AllTokens(ll, dd, next, tokens[1..]));
      SpreadGrows(ll, dd, next, tokens[1..]);
      AppliedGrows(ll, dd, out, t);
      TokenRead(ll, dd, s, c, out, t);
      TokensRead(ll, dd, s, c + |S.OneToken(ll, dd, out, t)|, next, tokens[1..]);
    }
  }

  lemma AppliedGrows(ll: seq<nat>, dd: seq<nat>, out: seq<byte>, t: Token)
    requires S.Sendable(ll, dd, out, t)
    ensures |out| < |S.Applied(out, t)|
  {
    hide S.LengthPart, S.DistancePart;
  }

  // ---- The header of a dynamic block -------------------------------------------------------

  lemma ItemFits(t: S.Item)
    requires match t
             case Length(v) => v <= 15
             case Again(n) => 3 <= n <= 6
             case Zeros(n) => 3 <= n <= 138
    ensures var p := S.ItemPart(t); p.extra <= 16 && p.value < POWERS[p.extra]
  {
  }

  /** What a reader finds where an item was sent. */
  lemma ItemParts(cl: seq<nat>, s: seq<byte>, c: nat, acc: seq<nat>, t: S.Item)
    requires S.Prefixes(cl) && S.ItemOk(cl, acc, t) && Carries(s, c, S.OneItem(cl, acc, t))
    ensures var p := S.ItemPart(t);
            && Decode(cl, s, c) == Some(p.symbol) && Peek(s, c + cl[p.symbol], p.extra) == p.value
            && |S.OneItem(cl, acc, t)| == cl[p.symbol] + p.extra
  {
    hide Decode, Carries, Peek, S.Word, S.Prefixes, LowFirst, S.ItemPart;
    var p := S.ItemPart(t);
    ItemFits(t);
    PartRead(cl, p.symbol, p.value, p.extra, s, c);
  }

  lemma ItemRead(cl: seq<nat>, s: seq<byte>, c: nat, total: nat, acc: seq<nat>, t: S.Item)
    requires S.Prefixes(cl) && S.ItemOk(cl, acc, t) && Carries(s, c, S.OneItem(cl, acc, t))
    requires |S.Extended(acc, t)| <= total
    ensures |acc| < |S.Extended(acc, t)|
    ensures Lengths(cl, s, c, total, acc) == Lengths(cl, s, c + |S.OneItem(cl, acc, t)|, total, S.Extended(acc, t))
  {
    hide Decode, Carries, Peek, S.Prefixes, S.OneItem, Lengths, Repeat, Pow2, S.Used;
    ItemParts(cl, s, c, acc, t);
    LengthsStep(cl, s, c, total, acc);
    var p := S.ItemPart(t);
    var c1 := c + cl[p.symbol] + p.extra;
    match t {
      case Length(v) =>
      case Again(n) => RepeatStep(cl, s, c1, total, acc, acc[|acc| - 1], n);
      case Zeros(n) => RepeatStep(cl, s, c1, total, acc, 0, n);
    }
  }

  lemma {:induction false} LengthsGrow(cl: seq<nat>, acc: seq<nat>, items: seq<S.Item>)
    requires S.ItemsOk(cl, acc, items)
    ensures |acc| <= |S.AllLengths(cl, acc, items)|
    decreases |items|
  {
    hide S.Used, S.ItemPart;
    if items != [] {
      LengthsGrow(cl, S.Extended(acc, items[0]), items[1..]);
    }
  }

  /** All items are read. */
  lemma {:induction false} ItemsRead(cl: seq<nat>, s: seq<byte>, c: nat, acc: seq<nat>, items: seq<S.Item>)
    requires S.Prefixes(cl) && S.ItemsOk(cl, acc, items) && Carries(s, c, S.AllItems(cl, acc, items))
    ensures |acc| <= |S.AllLengths(cl, acc, items)|
    ensures Lengths(cl, s, c, |S.AllLengths(cl, acc, items)|, acc)
         == Some((S.AllLengths(cl, acc, items), c + |S.AllItems(cl, acc, items)|))
    decreases |items|
  {
    hide Decode, Carries, S.Prefixes, S.OneItem, Lengths, Repeat, S.Used, S.ItemPart, S.Extended;
    var total := |S.AllLengths(cl, acc, items)|;
    LengthsGrow(cl, acc, items);
    if items == [] {
      LengthsStep(cl, s, c, total, acc);
    } else {
      var t, next := items[0], S.Extended(acc, items[0]);
      CarriesSplit(s, c, S.OneItem(cl, acc, t), S.AllItems(cl, next, items[1..]));
      LengthsGrow(cl, next, items[1..]);
      ItemRead(cl, s, c, total, acc, t);
      ItemsRead(cl, s, c + |S.OneItem(cl, acc, t)|, next, items[1..]);
    }
  }

  lemma {:induction false} PlacesCarried(cl: seq<nat>, s: seq<byte>, c: nat, p: nat, n: nat, k: nat)
    requires |cl| == 19 && p <= k < n <= 19 && cl[S.SymbolAt(k)] <= 7
    requires Carries(s, c, S.PlacesFrom(cl, p, n))
    ensures Peek(s, c + 3 * (k - p), 3) == cl[S.SymbolAt(k)]
    decreases n - p
  {
    hide Carries, Peek, LowFirst, S.SymbolAt;
    CarriesSplit(s, c, LowFirst(cl[S.SymbolAt(p)], 3), S.PlacesFrom(cl, p + 1, n));
    if k == p {
      NumberCarried(s, c, cl[S.SymbolAt(p)], 3);
    } else {
      PlacesCarried(cl, s, c + 3, p + 1, n, k);
    }
  }

  lemma OrderAgrees(p: nat)
    requires p < 19
    ensures LENGTH_DEZIGZAG[p] == S.SymbolAt(p)
  {
  }

  /** The place of a symbol in the order. */
  ghost function PlaceOf(i: nat): (p: nat)
    requires i < 19
    ensures p < 19 && S.SymbolAt(p) == i
  {
    if i >= 16 then i - 16 else if i == 0 then 3 else if i >= 8 then 4 + 2 * (i - 8) else 5 + 2 * (7 - i)
  }

  lemma OnePlace(p: nat, k: nat)
    requires p < 19 && k < 19 && p != k
    ensures S.SymbolAt(p) != S.SymbolAt(k)
  {
  }

  lemma {:induction false} SizesAre(cl: seq<nat>, s: seq<byte>, c: nat, n: nat, k: nat, p: nat)
    requires |cl| == 19 && k <= n <= 19 && p < 19 && (forall i :: 0 <= i < 19 ==> cl[i] <= 7)
    requires Carries(s, c, S.PlacesFrom(cl, 0, n))
    ensures CodeLengthSizes(s, c, k)[S.SymbolAt(p)] == if p < k then cl[S.SymbolAt(p)] else 0
    decreases k
  {
    hide Carries, Peek, S.SymbolAt, S.PlacesFrom;
    if k > 0 {
      hide CodeLengthSizes;
      SizesAre(cl, s, c, n, k - 1, p);
      SizesStep(s, c, k - 1);
      OrderAgrees(k - 1);
      PlacesCarried(cl, s, c, 0, n, k - 1);
      if p != k - 1 {
        OnePlace(p, k - 1);
      }
    }
  }

  lemma SizesRead(h: S.Header, s: seq<byte>, c: nat)
    requires S.HeaderFits(h) && Carries(s, c, S.PlacesFrom(h.cl, 0, h.n))
    ensures CodeLengthSizes(s, c, h.n) == h.cl
  {
    hide CodeLengthSizes, Carries, S.PlacesFrom, S.Prefixes, S.Used, S.ItemsOk, S.AllLengths, S.SymbolAt;
    forall i | 0 <= i < 19
      ensures CodeLengthSizes(s, c, h.n)[i] == h.cl[i]
    {
      SizesAre(h.cl, s, c, h.n, h.n, PlaceOf(i));
    }
  }

  /** The parts of a header stand one after the other. */
  lemma HeaderParts(h: S.Header, s: seq<byte>, c: nat)
    requires S.HeaderFits(h) && Carries(s, c, S.HeaderBits(h))
    ensures Peek(s, c, 5) == |h.ll| - 257 && Peek(s, c + 5, 5) == |h.dd| - 1 && Peek(s, c + 10, 4) == h.n - 4
    ensures Carries(s, c + 14, S.PlacesFrom(h.cl, 0, h.n))
    ensures Carries(s, c + 14 + 3 * h.n, S.AllItems(h.cl, [], h.items))
    ensures |S.HeaderBits(h)| == 14 + 3 * h.n + |S.AllItems(h.cl, [], h.items)|
  {
    hide Carries, Peek, LowFirst, S.PlacesFrom, S.AllItems, S.Prefixes, S.Used, S.ItemsOk, S.AllLengths, S.SymbolAt, Pow2;
    var e4, e5 := S.PlacesFrom(h.cl, 0, h.n), S.AllItems(h.cl, [], h.items);
    var e1, e2, e3 := LowFirst(|h.ll| - 257, 5), LowFirst(|h.dd| - 1, 5), LowFirst(h.n - 4, 4);
    CarriesSplit(s, c, e1, e2 + (e3 + (e4 + e5)));
    CarriesSplit(s, c + 5, e2, e3 + (e4 + e5));
    CarriesSplit(s, c + 10, e3, e4 + e5);
    CarriesSplit(s, c + 14, e4, e5);
    NumberCarried(s, c, |h.ll| - 257, 5);
    NumberCarried(s, c + 5, |h.dd| - 1, 5);
    NumberCarried(s, c + 10, h.n - 4, 4);
  }

  /** The header of a dynamic block is read as the two codes it was written for. */
  lemma HeaderRead(h: S.Header, s: seq<byte>, c: nat)
    requires S.HeaderFits(h) && Carries(s, c, S.HeaderBits(h))
    ensures Dynamic(s, c) == Some(Codebook(h.ll, h.dd, c + |S.HeaderBits(h)|))
  {
    hide Dynamic, Carries, Peek, S.HeaderBits, S.PlacesFrom, S.AllItems, S.Prefixes, S.Used, S.ItemsOk, S.AllLengths, S.SymbolAt,
      Pow2, Accepted, CodeLengthSizes, Lengths, CodeLengths;
    HeaderParts(h, s, c);
    SizesRead(h, s, c + 14);
    ItemsRead(h.cl, s, c + 14 + 3 * h.n, [], h.items);
    DynamicStep(s, c);
    PrefixesAccepted(h.cl);
    PrefixesAccepted(h.ll);
    PrefixesAccepted(h.dd);
    assert (h.ll + h.dd)[..|h.ll|] == h.ll && (h.ll + h.dd)[|h.ll|..] == h.dd;
  }

  // ---- Stored blocks -----------------------------------------------------------------------

  lemma ByteCarried(s: seq<byte>, i: nat, v: byte)
    requires Carries(s, 8 * i, LowFirst(v, 8))
    ensures ByteAt(s, i) == v
  {
    hide Carries, Peek, LowFirst;
    NumberCarried(s, 8 * i, v, 8);
    PeekByte(s, i);
  }

  lemma {:induction false} BytesCarried(s: seq<byte>, i: nat, data: seq<byte>)
    requires Carries(s, 8 * i, S.BytesBits(data)) && i + |data| <= |s|
    ensures s[i..i + |data|] == data
    decreases |data|
  {
    hide Carries, LowFirst;
    if data != [] {
      CarriesSplit(s, 8 * i, LowFirst(data[0], 8), S.BytesBits(data[1..]));
      ByteCarried(s, i, data[0]);
      BytesCarried(s, i + 1, data[1..]);
      assert s[i..i + |data|] == [s[i]] + s[i + 1..i + 1 + |data[1..]|];
    }
  }

  lemma WordCarried(s: seq<byte>, i: nat, v: nat)
    requires v < 65536 && Carries(s, 8 * i, LowFirst(v, 16))
    ensures Word(s, i) == v
  {
    hide Carries, Peek, LowFirst, Low, Shr, Pow2;
    NumberCarried(s, 8 * i, v, 16);
    PeekTake(s, 8 * i, 8, 8);
    LowByte(v);
    PeekByte(s, i);
    assert 8 * (i + 1) == 8 * i + 8;
    PeekByte(s, i + 1);
  }

  lemma Boundary(c: nat, n: nat)
    requires (c + n) % 8 == 0 && n < 8
    ensures c + n == 8 * ((c + 7) / 8)
  {
  }

  /** A stored block is read. */
  lemma StoredRead(s: seq<byte>, c: nat, out: seq<byte>, data: seq<byte>, v: nat)
    requires |data| <= 65535 && |out| + |data| <= UINT_MAX
    requires Carries(s, c, S.Filling(v, c) + (LowFirst(|data|, 16) + (LowFirst(65535 - |data|, 16) + S.BytesBits(data))))
    requires c + |S.Filling(v, c)| + 32 + 8 * |data| <= 8 * |s|
    ensures Stored(s, c, out) == Done(out + data, c + |S.Filling(v, c)| + 32 + 8 * |data|)
  {
    hide Carries, LowFirst, S.BytesBits, S.Filling, Word;
    var e1, e2, e3, e4 := S.Filling(v, c), LowFirst(|data|, 16), LowFirst(65535 - |data|, 16), S.BytesBits(data);
    var b := (c + 7) / 8;
    Boundary(c, |e1|);
    CarriesSplit(s, c, e1, e2 + (e3 + e4));
    CarriesSplit(s, 8 * b, e2, e3 + e4);
    CarriesSplit(s, 8 * (b + 2), e3, e4);
    WordCarried(s, b, |data|);
    WordCarried(s, b + 2, 65535 - |data|);
    BytesCarried(s, b + 4, data);
  }

  // ---- Blocks ------------------------------------------------------------------------------

  lemma FixedAgree()
    ensures S.FixedLits() == FixedLengths() && S.FixedDists() == FixedDistances()
  {
  }

  lemma FixedPrefixes()
    ensures S.Prefixes(S.FixedLits()) && S.Prefixes(S.FixedDists())
  {
    hide S.Taken, S.FixedLits, S.FixedDists;
    FixedTaken(288);
    DistancesTaken(32);
  }

  lemma {:induction false} FixedTaken(k: nat)
    requires k <= 288
    ensures S.Lengths15(S.FixedLits())
    ensures S.Taken(S.FixedLits(), k)
         == if k <= 144 then 128 * k else if k <= 256 then 18432 + 64 * (k - 144) else if k <= 280 then 25600 + 256 * (k - 256)
            else 31744 + 128 * (k - 280)
    decreases k
  {
    if k > 0 {
      FixedTaken(k - 1);
    }
  }

  lemma {:induction false} DistancesTaken(k: nat)
    requires k <= 32
    ensures S.Lengths15(S.FixedDists()) && S.Taken(S.FixedDists(), k) == 1024 * k
    decreases k
  {
    if k > 0 {
      DistancesTaken(k - 1);
    }
  }

  lemma KindRead(s: seq<byte>, c: nat, last: bool, kind: nat, rest: seq<nat>)
    requires kind < 3 && Carries(s, c, LowFirst(if last then 1 else 0, 1) + (LowFirst(kind, 2) + rest))
    ensures Peek(s, c, 1) == (if last then 1 else 0) && Peek(s, c + 1, 2) == kind && Carries(s, c + 3, rest)
  {
    hide Carries, LowFirst, Peek;
    var v := if last then 1 else 0;
    CarriesSplit(s, c, LowFirst(v, 1), LowFirst(kind, 2) + rest);
    CarriesSplit(s, c + 1, LowFirst(kind, 2), rest);
    NumberCarried(s, c, v, 1);
    NumberCarried(s, c + 1, kind, 2);
  }

  lemma BlockGrows(out: seq<byte>, b: S.Block)
    requires S.BlockFits(out, b)
    ensures |out| <= |S.Grown(out, b)|
  {
    hide S.AllSendable, S.Spread, S.HeaderFits, S.FixedLits, S.FixedDists, S.Used;
    match b {
      case Plain(data, _) =>
      case Fixed(tokens) => SpreadGrows(S.FixedLits(), S.FixedDists(), out, tokens);
      case Own(h, tokens) => SpreadGrows(h.ll, h.dd, out, tokens);
    }
  }

  /** A block of any of the three kinds is read as what it carries. */
  lemma BlockRead(s: seq<byte>, c: nat, out: seq<byte>, b: S.Block, last: bool)
    requires S.BlockFits(out, b) && |S.Grown(out, b)| <= UINT_MAX && |out| <= UINT_MAX
    requires Carries(s, c, S.BlockBits(out, b, last, c)) && c + |S.BlockBits(out, b, last, c)| <= 8 * |s|
    ensures Peek(s, c, 1) == if last then 1 else 0
    ensures Block(s, c, out) == Done(S.Grown(out, b), c + |S.BlockBits(out, b, last, c)|)
  {
    hide Carries, LowFirst, Peek, S.AllSendable, S.Spread, S.AllTokens, S.HeaderBits, S.FixedLits, S.FixedDists, S.Prefixes, S.Used,
      S.BytesBits, Codes, Stored, Dynamic, FixedLengths, FixedDistances, Pow2, S.Filling, S.ItemsOk, S.AllLengths, S.SymbolAt;
    match b {
      case Plain(data, v) =>
        var rest := S.Filling(v, c + 3) + (LowFirst(|data|, 16) + (LowFirst(65535 - |data|, 16) + S.BytesBits(data)));
        KindRead(s, c, last, 0, rest);
        StoredRead(s, c + 3, out, data, v);
      case Fixed(tokens) =>
        KindRead(s, c, last, 1, S.AllTokens(S.FixedLits(), S.FixedDists(), out, tokens));
        FixedAgree();
        FixedPrefixes();
        TokensRead(S.FixedLits(), S.FixedDists(), s, c + 3, out, tokens);
      case Own(h, tokens) =>
        var rest := S.AllTokens(h.ll, h.dd, out, tokens);
        KindRead(s, c, last, 2, S.HeaderBits(h) + rest);
        CarriesSplit(s, c + 3, S.HeaderBits(h), rest);
        HeaderRead(h, s, c + 3);
        TokensRead(h.ll, h.dd, s, c + 3 + |S.HeaderBits(h)|, out, tokens);
    }
  }

  lemma {:induction false} CarriedGrows(out: seq<byte>, blocks: seq<S.Block>)
    requires S.BlocksFit(out, blocks)
    ensures |out| <= |S.Carried(out, blocks)|
    decreases |blocks|
  {
    hide S.BlockFits, S.Grown;
    if blocks != [] {
      BlockGrows(out, blocks[0]);
      CarriedGrows(S.Grown(out, blocks[0]), blocks[1..]);
    }
  }

  lemma {:induction false} BlocksRead(s: seq<byte>, c: nat, out: seq<byte>, blocks: seq<S.Block>)
    requires blocks != [] && S.BlocksFit(out, blocks) && |S.Carried(out, blocks)| <= UINT_MAX && |out| <= UINT_MAX
    requires Carries(s, c, S.BlocksBits(out, blocks, c)) && c + |S.BlocksBits(out, blocks, c)| <= 8 * |s|
    ensures Blocks(s, c, out) == Done(S.Carried(out, blocks), c + |S.BlocksBits(out, blocks, c)|)
    decreases |blocks|
  {
    hide Carries, Peek, S.BlockFits, S.Grown, S.BlockBits, Block, Blocks, Pow2;
    var next, last := S.Grown(out, blocks[0]), |blocks| == 1;
    var first := S.BlockBits(out, blocks[0], last, c);
    var rest := S.BlocksBits(next, blocks[1..], c + |first|);
    assert S.BlocksBits(out, blocks, c) == first + rest;
    CarriesSplit(s, c, first, rest);
    CarriedGrows(next, blocks[1..]);
    BlockRead(s, c, out, blocks[0], last);
    BlocksStep(s, c, out);
    if last {
      assert blocks[1..] == [] && rest == [];
    } else {
      BlocksRead(s, c + |first|, next, blocks[1..]);
    }
  }

  // ---- Whole streams -----------------------------------------------------------------------

  lemma HeaderAnds(v: nat)
    ensures And(v, 15) == v % 16 && And(v, 32) == 32 * (v / 32 % 2)
  {
    hide And;
    AndOdd(v, 7);
    AndOdd(v / 2, 3);
    AndOdd(v / 4, 1);
    AndOdd(v / 8, 0);
    AndZero(v / 16);
    AndEven(v, 16);
    AndEven(v / 2, 8);
    AndEven(v / 4, 4);
    AndEven(v / 8, 2);
    AndEven(v / 16, 1);
    AndOdd(v / 32, 0);
    AndZero(v / 64);
  }

  lemma StreamHeader(z: seq<byte>, blocks: seq<S.Block>, data: seq<byte>, tail: seq<byte>)
    requires S.IsStream(z, blocks, data, tail)
    ensures HeaderOk(z)
  {
    hide S.BlocksFit, S.BlocksBits, S.Carried, S.Grown, S.BlockBits, S.BlockFits, Pack, And;
    HeaderAnds(z[0]);
    HeaderAnds(z[1]);
    SomeBits([], blocks, 16);
  }

  lemma SomeBits(out: seq<byte>, blocks: seq<S.Block>, c: nat)
    requires blocks != [] && S.BlocksFit(out, blocks)
    ensures |S.BlocksBits(out, blocks, c)| > 0
  {
    hide S.BlockFits, S.Grown, S.BlockBits;
  }

  /** What a sender puts into a stream is what the stream means. */
  lemma StreamMeans(z: seq<byte>, blocks: seq<S.Block>, data: seq<byte>, tail: seq<byte>)
    requires S.IsStream(z, blocks, data, tail) && |data| <= UINT_MAX
    ensures var r := Inflated(z, true); r.Done? && r.out == data && r.pos <= 8 * |z|
  {
    hide S.BlocksFit, S.BlocksBits, S.Carried, Blocks, HeaderOk, Carries, Pack;
    StreamHeader(z, blocks, data, tail);
    var bits := S.BlocksBits([], blocks, 16);
    PackCarries(z[..2], bits, tail);
    BlocksRead(z, 16, [], blocks);
  }

  /** The inflater gives back whatever was sent, in any blocks and with any codes. */
  method InflateSent(z: seq<byte>, initial_size: nat, ghost blocks: seq<S.Block>, ghost data: seq<byte>, ghost tail: seq<byte>)
    returns (ok: bool, out: seq<byte>)
    requires 0 < initial_size <= INT_MAX
    requires S.IsStream(z, blocks, data, tail) && |data| <= INT_MAX
    ensures ok && out == data
  {
    hide S.IsStream, Inflated;
    StreamMeans(z, blocks, data, tail);
    ok, out := DecodeMalloc(z, initial_size, true);
  }
}
