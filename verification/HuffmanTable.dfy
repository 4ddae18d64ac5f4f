/** `stbi__zhuffman`: the tables `stbi__zbuild_huffman` fills from code lengths, and the two table
    lookups.  A 512-entry table answers all codes of at most 9 bits; longer codes are found by
    comparing the bits, most significant first, with the end of the codes of each length. */
module HuffmanTable {
  import opened Bits
  import opened Huffman

  const ZFAST_BITS := 9
  const ZFAST_SIZE := 512
  const ZNSYMS := 288

  /** What the fast table holds for a window of 9 bits that starts with the code of symbol `i`. */
  function FastValue(l: seq<nat>, i: nat): nat
    requires i < |l|
  {
    512 * l[i] + i
  }

  /** Entries of the fast table for the first `k` symbols. */
  ghost predicate FastFor(fast: seq<uint16>, l: seq<nat>, k: nat)
  {
    && |fast| == ZFAST_SIZE && k <= |l|
    && (forall i: nat, b: nat :: i < k && b < ZFAST_SIZE && Hit(l, i, b) && l[i] <= ZFAST_BITS
          ==> fast[b] == FastValue(l, i))
    && (forall b :: 0 <= b < ZFAST_SIZE && fast[b] != 0 ==> FastSource(fast[b], l, k, b))
  }

  ghost predicate FastSource(v: nat, l: seq<nat>, k: nat, b: nat) {
    exists i: nat :: i < k && k <= |l| && Hit(l, i, b) && l[i] <= ZFAST_BITS && v == FastValue(l, i)
  }

  /** Entries of the sorted symbol tables for the first `k` symbols. */
  ghost predicate SlotsFor(size: seq<byte>, value: seq<uint16>, l: seq<nat>, k: nat) {
    && |size| == ZNSYMS && |value| == ZNSYMS && k <= |l|
    && forall i: nat :: i < k && l[i] > 0 ==>
         Slot(l, i) < ZNSYMS && size[Slot(l, i)] == l[i] && value[Slot(l, i)] == i
  }

  ghost predicate LimitsFor(firstcode: seq<uint16>, maxcode: seq<int>, firstsymbol: seq<uint16>, l: seq<nat>, n: nat) {
    && |firstcode| == 16 && |maxcode| == 17 && |firstsymbol| == 16 && n <= 16
    && forall s :: 1 <= s < n ==>
         && firstcode[s] == FirstCode(l, s)
         && maxcode[s] == Shl(EndCode(l, s), 16 - s)
         && firstsymbol[s] == FirstSymbol(l, s)
  }

  /** Setting every entry whose low `s` bits are `j0`. */
  ghost predicate Filled(after: seq<uint16>, before: seq<uint16>, j0: nat, s: nat, v: nat) {
    && |after| == |before| == ZFAST_SIZE
    && forall b :: 0 <= b < ZFAST_SIZE ==> after[b] == if Low(b, s) == j0 then v else before[b]
  }

  lemma FillExtendsFast(before: seq<uint16>, after: seq<uint16>, l: seq<nat>, k: nat)
    requires FastFor(before, l, k) && k < |l| && CodeLengths(l) && Accepted(l)
    requires 1 <= l[k] <= ZFAST_BITS
    requires Filled(after, before, Rev(CodeOf(l, k), l[k]), l[k], FastValue(l, k))
    ensures FastFor(after, l, k + 1)
  {
    var s, code := l[k], CodeOf(l, k);
    CodeFits(l, k);
    forall b: nat | b < ZFAST_SIZE
      ensures Low(b, s) == Rev(code, s) <==> Hit(l, k, b)
    {
      LowIsRev(b, code, s);
    }
    forall i: nat, b: nat | i < k + 1 && b < ZFAST_SIZE && Hit(l, i, b) && l[i] <= ZFAST_BITS
      ensures after[b] == FastValue(l, i)
    {
      if i < k && Hit(l, k, b) {
        PrefixFree(l, i, k, b);
      }
    }
    forall b | 0 <= b < ZFAST_SIZE && after[b] != 0
      ensures FastSource(after[b], l, k + 1, b)
    {
      if !Hit(l, k, b) {
        assert FastSource(before[b], l, k, b);
        var i: nat :| i < k && Hit(l, i, b) && l[i] <= ZFAST_BITS && before[b] == FastValue(l, i);
        assert i < k + 1;
      }
    }
  }

  lemma LowIsRev(b: nat, code: nat, s: nat)
    requires code < Pow2(s)
    ensures Low(b, s) == Rev(code, s) <==> Rev(b, s) == code
  {
    hide Low, Rev;
    RevRev(b, s);
    RevRev(code, s);
    LowOfSmall(code, s);
    Recompose(b, s);
    RevLow(Shr(b, s), Low(b, s), s);
  }

  lemma LowOfSmall(v: nat, s: nat)
    requires v < Pow2(s)
    ensures Low(v, s) == v
  {
    ShlZero(s);
    SplitAt(0, v, s);
  }

  lemma SkipFastSymbol(fast: seq<uint16>, l: seq<nat>, k: nat)
    requires FastFor(fast, l, k) && k < |l|
    requires l[k] == 0 || l[k] > ZFAST_BITS
    ensures FastFor(fast, l, k + 1)
  {
    forall b | 0 <= b < ZFAST_SIZE && fast[b] != 0
      ensures FastSource(fast[b], l, k + 1, b)
    {
      assert FastSource(fast[b], l, k, b);
      var i: nat :| i < k && Hit(l, i, b) && l[i] <= ZFAST_BITS && fast[b] == FastValue(l, i);
      assert i < k + 1;
    }
  }

  lemma StoreExtendsSlots(size: seq<byte>, value: seq<uint16>, l: seq<nat>, k: nat, size': seq<byte>, value': seq<uint16>)
    requires SlotsFor(size, value, l, k) && k < |l| && CodeLengths(l) && l[k] > 0
    requires |size'| == |value'| == ZNSYMS && Slot(l, k) < ZNSYMS
    requires forall j :: 0 <= j < ZNSYMS ==> size'[j] == if j == Slot(l, k) then l[k] else size[j]
    requires forall j :: 0 <= j < ZNSYMS ==> value'[j] == if j == Slot(l, k) then k else value[j]
    ensures SlotsFor(size', value', l, k + 1)
  {
    forall i: nat | i < k && l[i] > 0
      ensures Slot(l, i) != Slot(l, k)
    {
      if Slot(l, i) == Slot(l, k) {
        SlotInjective(l, i, k);
      }
    }
  }

  /** What the two lookups do with a window of 16 bits whose code of more than 9 bits, if any,
      has to be found by length. */
  ghost predicate FirstBelow(l: seq<nat>, w: nat, s: nat) {
    && 10 <= s <= 16
    && (s < 16 ==> Rev(w, s) < EndCode(l, s))
    && forall t :: 10 <= t < s ==> Rev(w, t) >= EndCode(l, t)
  }

  lemma SlowFinds(l: seq<nat>, w: nat, s: nat) returns (i: nat)
    requires CodeLengths(l) && FirstBelow(l, w, s) && s < 16
    requires forall i: nat :: Hit(l, i, w) ==> l[i] > ZFAST_BITS
    ensures Hit(l, i, w) && l[i] == s
  {
    if s == 10 {
      NoHitBounds(l, w, 9);
    }
    i := HitAtLength(l, w, s);
  }

  lemma SlowMisses(l: seq<nat>, w: nat, i: nat)
    requires CodeLengths(l) && FirstBelow(l, w, 16)
    requires forall i: nat :: Hit(l, i, w) ==> l[i] > ZFAST_BITS
    ensures !Hit(l, i, w)
  {
    if Hit(l, i, w) {
      HitBounds(l, i, w, l[i]);
    }
  }

  /** Comparing the reversed 16-bit window with a pre-shifted limit compares `s` bits. */
  lemma PreshiftedLimit(w: nat, s: nat, x: nat)
    requires s <= 16
    ensures Rev(w, 16) < Shl(x, 16 - s) <==> Rev(w, s) < x
    ensures Shr(Rev(w, 16), 16 - s) == Rev(w, s)
  {
    hide Rev, Shl, Shr;
    RevSplit(w, s, 16 - s);
    SplitAt(Rev(w, s), Rev(Shr(w, s), 16 - s), 16 - s);
    if Rev(w, s) < x {
      ShlLess(Rev(w, s), x, 16 - s);
    } else {
      ShlAtMost(x, Rev(w, s), 16 - s);
    }
  }

  class ZHuffman {
    const fast: array<uint16>
    const firstcode: array<uint16>
    const maxcode: array<int>
    const firstsymbol: array<uint16>
    const size: array<byte>
    const value: array<uint16>

    ghost predicate Shape() {
      && fast.Length == ZFAST_SIZE && firstcode.Length == 16 && maxcode.Length == 17
      && firstsymbol.Length == 16 && size.Length == ZNSYMS && value.Length == ZNSYMS
      && fast != firstcode && fast != firstsymbol && fast != value
      && firstcode != firstsymbol && firstcode != value && firstsymbol != value
    }

    ghost function Repr(): set<object> {
      {fast as object, firstcode as object, maxcode as object,
       firstsymbol as object, size as object, value as object}
    }

    /** The tables are those of the code lengths `l`. */
    ghost predicate Represents(l: seq<nat>)
      reads Repr()
    {
      && Shape() && CodeLengths(l) && Accepted(l)
      && FastFor(fast[..], l, |l|)
      && SlotsFor(size[..], value[..], l, |l|)
      && LimitsFor(firstcode[..], maxcode[..], firstsymbol[..], l, 16)
      && maxcode[16] == 0x1_0000
    }

    constructor ()
      ensures Shape() && fresh(Repr())
    {
      fast := new uint16[ZFAST_SIZE](_ => 0);
      firstcode := new uint16[16](_ => 0);
      maxcode := new int[17](_ => 0);
      firstsymbol := new uint16[16](_ => 0);
      size := new byte[ZNSYMS](_ => 0);
      value := new uint16[ZNSYMS](_ => 0);
    }

    /** `stbi__zbuild_huffman`: succeeds exactly when no length is over-subscribed. */
    method Build(sizelist: seq<byte>) returns (ok: bool)
      requires Shape() && CodeLengths(sizelist)
      modifies Repr()
      ensures ok <==> Accepted(sizelist)
      ensures ok ==> Represents(sizelist)
    {
      forall j | 0 <= j < ZFAST_SIZE {
        fast[j] := 0;
      }
      var sizes := CountSizes(sizelist);
      var bad := SizesTooBig(sizelist, sizes);
      if bad {
        return false;
      }
      var next_code;
      ok, next_code := AssignCodes(sizelist, sizes);
      if ok {
        maxcode[16] := 0x1_0000;
        AssignSymbols(sizelist, next_code);
      }
    }

    static method CountSizes(sizelist: seq<byte>) returns (sizes: seq<nat>)
      requires CodeLengths(sizelist)
      ensures |sizes| == 17 && sizes[0] == 0
      ensures forall s :: 1 <= s <= 16 ==> sizes[s] == Count(sizelist, s)
    {
      sizes := seq(17, _ => 0);
      for i := 0 to |sizelist|
        invariant |sizes| == 17
        invariant forall s :: 0 <= s <= 16 ==> sizes[s] == Count(sizelist[..i], s)
      {
        forall s: nat ensures Count(sizelist[..i + 1], s) == Count(sizelist[..i], s) + (if sizelist[i] == s then 1 else 0) {
          CountNext(sizelist, i, s);
        }
        sizes := sizes[sizelist[i] := sizes[sizelist[i]] + 1];
      }
      assert sizelist[..|sizelist|] == sizelist;
      sizes := sizes[0 := 0];
    }

    /** The first rejection: more codes of one length than that length has. */
    static method SizesTooBig(sizelist: seq<byte>, sizes: seq<nat>) returns (bad: bool)
      requires CodeLengths(sizelist) && |sizes| == 17
      requires forall s :: 1 <= s <= 16 ==> sizes[s] == Count(sizelist, s)
      ensures bad ==> !Accepted(sizelist)
      ensures !bad ==> forall s :: 1 <= s <= 15 ==> sizes[s] <= Pow2(s)
    {
      for i := 1 to 16
        invariant forall s :: 1 <= s < i ==> sizes[s] <= Pow2(s)
      {
        if sizes[i] > Pow2(i) {
          assert EndCode(sizelist, i) > Pow2(i);
          return true;
        }
      }
      bad := false;
    }

    method AssignCodes(sizelist: seq<byte>, sizes: seq<nat>) returns (ok: bool, next_code: seq<nat>)
      requires Shape() && CodeLengths(sizelist) && |sizes| == 17
      requires forall s :: 1 <= s <= 16 ==> sizes[s] == Count(sizelist, s)
      modifies firstcode, maxcode, firstsymbol
      ensures ok <==> Accepted(sizelist)
      ensures ok ==> LimitsFor(firstcode[..], maxcode[..], firstsymbol[..], sizelist, 16)
      ensures |next_code| == 16
      ensures ok ==> forall s :: 1 <= s <= 15 ==> next_code[s] == FirstCode(sizelist, s)
    {
      hide Count, Pow2, Shl, FirstCode, FirstSymbol;
      AssignStart(sizelist);
      next_code := seq(16, _ => 0);
      var code, k := 0, 0;
      for i := 1 to 16
        invariant |next_code| == 16
        invariant code == FirstCode(sizelist, i) && code <= Pow2(i)
        invariant k == FirstSymbol(sizelist, i) && k <= |sizelist|
        invariant forall s :: 1 <= s < i ==> EndCode(sizelist, s) <= Pow2(s) && next_code[s] == FirstCode(sizelist, s)
        invariant LimitsFor(firstcode[..], maxcode[..], firstsymbol[..], sizelist, i)
      {
        AssignBounds(sizelist, i);
        next_code := next_code[i := code];
        firstcode[i] := code;
        firstsymbol[i] := k;
        code := code + sizes[i];
        if sizes[i] > 0 && code - 1 >= Pow2(i) {
          assert EndCode(sizelist, i) > Pow2(i);
          return false, next_code;
        }
        maxcode[i] := Shl(code, 16 - i);
        code := 2 * code;
        k := k + sizes[i];
      }
      ok := true;
    }

    method AssignSymbols(sizelist: seq<byte>, codes: seq<nat>)
      requires Shape() && CodeLengths(sizelist) && Accepted(sizelist)
      requires LimitsFor(firstcode[..], maxcode[..], firstsymbol[..], sizelist, 16)
      requires |codes| == 16 && forall s :: 1 <= s <= 15 ==> codes[s] == FirstCode(sizelist, s)
      requires forall b :: 0 <= b < ZFAST_SIZE ==> fast[b] == 0
      modifies fast, size, value
      ensures FastFor(fast[..], sizelist, |sizelist|)
      ensures SlotsFor(size[..], value[..], sizelist, |sizelist|)
    {
      TablesStart(fast[..], size[..], value[..], sizelist);
      hide Count, FirstCode, FirstSymbol, FastFor, SlotsFor, LimitsFor, Accepted;
      var next_code := codes;
      for i := 0 to |sizelist|
        invariant |next_code| == 16
        invariant forall s :: 1 <= s <= 15 ==> next_code[s] == FirstCode(sizelist, s) + Count(sizelist[..i], s)
        invariant FastFor(fast[..], sizelist, i)
        invariant SlotsFor(size[..], value[..], sizelist, i)
      {
        var s := sizelist[i];
        if s != 0 {
          StoreSymbol(sizelist, i, next_code[s]);
          next_code := next_code[s := next_code[s] + 1];
        } else {
          SkipFastSymbol(fast[..], sizelist, i);
        }
        forall t: nat ensures Count(sizelist[..i + 1], t) == Count(sizelist[..i], t) + (if s == t then 1 else 0) {
          CountNext(sizelist, i, t);
        }
      }
    }

    method StoreSymbol(sizelist: seq<byte>, i: nat, code: nat)
      requires Shape() && CodeLengths(sizelist) && Accepted(sizelist)
      requires LimitsFor(firstcode[..], maxcode[..], firstsymbol[..], sizelist, 16)
      requires i < |sizelist| && sizelist[i] > 0 && code == CodeOf(sizelist, i)
      requires FastFor(fast[..], sizelist, i) && SlotsFor(size[..], value[..], sizelist, i)
      modifies fast, size, value
      ensures FastFor(fast[..], sizelist, i + 1) && SlotsFor(size[..], value[..], sizelist, i + 1)
    {
      hide Count, Pow2, Shl, Low, Rev, FirstCode, FirstSymbol, FastFor, SlotsFor, Filled, BitReverse, Hit, Accepted;
      var s := sizelist[i];
      var c := code - firstcode[s] + firstsymbol[s];
      assert c == Slot(sizelist, i);
      SlotInRange(sizelist, i);
      ghost var size0, value0, before := size[..], value[..], fast[..];
      size[c] := s;
      value[c] := i;
      StoreExtendsSlots(size0, value0, sizelist, i, size[..], value[..]);
      assert fast[..] == before;
      if s <= ZFAST_BITS {
        CodeFits(sizelist, i);
        BitReverseIsRev(code, s);
        FillFast(BitReverse(code, s), s, FastValue(sizelist, i));
        FillExtendsFast(before, fast[..], sizelist, i);
      } else {
        SkipFastSymbol(before, sizelist, i);
      }
    }

    method FillFast(j0: nat, s: nat, v: uint16)
      requires Shape() && 1 <= s && j0 < Pow2(s)
      modifies fast
      ensures Filled(fast[..], old(fast[..]), j0, s, v)
    {
      var j := j0;
      ghost var m := 0;
      ShlZero(s);
      forall b: nat | b < j0 ensures Low(b, s) != j0 {
        LowOfSmall(b, s);
      }
      while j < ZFAST_SIZE
        invariant j == Shl(m, s) + j0
        invariant forall b :: 0 <= b < ZFAST_SIZE ==> fast[b] == if b < j && Low(b, s) == j0 then v else old(fast[b])
        decreases ZFAST_SIZE - j
      {
        SplitAt(m, j0, s);
        fast[j] := v;
        forall b | j < b < j + Pow2(s) ensures Low(b, s) != j0 {
          NotBetween(b, j, m, j0, s);
        }
        ShlPow2(0, s);
        ShlPlus(m, 1, s);
        j := j + Pow2(s);
        m := m + 1;
      }
    }
  }

  lemma TablesStart(fast: seq<uint16>, size: seq<byte>, value: seq<uint16>, l: seq<nat>)
    requires |fast| == ZFAST_SIZE && |size| == |value| == ZNSYMS
    requires forall b :: 0 <= b < ZFAST_SIZE ==> fast[b] == 0
    ensures FastFor(fast, l, 0) && SlotsFor(size, value, l, 0)
    ensures forall s :: Count(l[..0], s) == 0
  {
  }

  lemma AssignStart(l: seq<nat>)
    ensures FirstCode(l, 1) == 0 && FirstSymbol(l, 1) == 0
  {
  }

  lemma AssignBounds(l: seq<nat>, i: nat)
    requires 1 <= i <= 15
    ensures Pow2(i) <= 0x8000 && Pow2(i + 1) == 2 * Pow2(i)
    ensures FirstSymbol(l, i + 1) == FirstSymbol(l, i) + Count(l, i) <= |l|
    ensures FirstCode(l, i + 1) == 2 * EndCode(l, i)
  {
    Pow2Monotone(i, 15);
    Pow2Values();
    assert l[..|l|] == l;
    UsedSymbols(l, |l|, i + 1);
  }

  lemma NotBetween(b: nat, j: nat, m: nat, j0: nat, s: nat)
    requires j == Shl(m, s) + j0 && j < b < j + Pow2(s)
    ensures Low(b, s) != j0
  {
    Recompose(b, s);
    if m < Shr(b, s) {
      ShlLess(m, Shr(b, s), s);
    } else {
      ShlAtMost(Shr(b, s), m, s);
    }
  }
}
