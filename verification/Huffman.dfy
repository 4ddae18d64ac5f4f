/** Canonical Huffman codes as section 3.2.2 of RFC 1951 defines them from code lengths alone,
    and the facts about them on which a table-driven decoder rests. */
module Huffman {
  import opened Bits

  /** Code lengths of the symbols 0, 1, ...; length 0 means the symbol is not used. */
  ghost predicate CodeLengths(l: seq<nat>) {
    |l| <= 288 && forall i :: 0 <= i < |l| ==> l[i] <= 15
  }

  /** How many symbols have length `s`. */
  function Count(l: seq<nat>, s: nat): (n: nat)
    ensures n <= |l|
  {
    if l == [] then 0 else Count(l[..|l| - 1], s) + (if l[|l| - 1] == s then 1 else 0)
  }

  /** The numerically smallest code of length `s` (step 2 of the algorithm in the standard). */
  function FirstCode(l: seq<nat>, s: nat): nat {
    if s <= 1 then 0 else 2 * (FirstCode(l, s - 1) + Count(l, s - 1))
  }

  /** The number of used symbols with codes shorter than `s`. */
  function FirstSymbol(l: seq<nat>, s: nat): nat {
    if s <= 1 then 0 else FirstSymbol(l, s - 1) + Count(l, s - 1)
  }

  /** One past the last code of length `s`. */
  function EndCode(l: seq<nat>, s: nat): nat {
    FirstCode(l, s) + Count(l, s)
  }

  /** The code of symbol `i`: codes of one length are consecutive in symbol order (step 3). */
  function CodeOf(l: seq<nat>, i: nat): nat
    requires i < |l|
  {
    FirstCode(l, l[i]) + Count(l[..i], l[i])
  }

  /** No length is over-subscribed, so every code fits in its length. */
  ghost predicate Accepted(l: seq<nat>) {
    forall s :: 1 <= s <= 15 ==> EndCode(l, s) <= Pow2(s)
  }

  /** The codeword of symbol `i` is the next thing in the stream at position `c`. */
  ghost predicate CodeAt(l: seq<nat>, i: nat, s: seq<byte>, c: nat) {
    i < |l| && l[i] > 0 && PeekMsb(s, c, l[i]) == CodeOf(l, i)
  }

  /** The symbol whose codeword starts at position `c`, if there is one. */
  ghost function Decode(l: seq<nat>, s: seq<byte>, c: nat): (r: Option<nat>)
    ensures r.Some? ==> CodeAt(l, r.value, s, c)
    ensures r.None? ==> forall i :: !CodeAt(l, i, s, c)
  {
    if i :| CodeAt(l, i, s, c) then Some(i) else None
  }

  /** The same with the next bits held in a window, first bit least significant. */
  ghost predicate Hit(l: seq<nat>, i: nat, w: nat) {
    i < |l| && l[i] > 0 && Rev(w, l[i]) == CodeOf(l, i)
  }

  lemma HitIsCodeAt(l: seq<nat>, i: nat, s: seq<byte>, c: nat, n: nat)
    requires i < |l| && l[i] <= n
    ensures Hit(l, i, Peek(s, c, n)) <==> CodeAt(l, i, s, c)
  {
    RevOfWindow(s, c, l[i], n);
  }

  // ---- Counting ----------------------------------------------------------------------------

  lemma {:induction false} CountPrefix(l: seq<nat>, i: nat, j: nat, s: nat)
    requires i <= j <= |l|
    ensures Count(l[..i], s) <= Count(l[..j], s)
    decreases j
  {
    if i < j {
      assert l[..j][..j - 1] == l[..j - 1];
      CountPrefix(l, i, j - 1, s);
    }
  }

  lemma CountNext(l: seq<nat>, i: nat, s: nat)
    requires i < |l|
    ensures Count(l[..i + 1], s) == Count(l[..i], s) + (if l[i] == s then 1 else 0)
  {
    assert l[..i + 1][..i] == l[..i];
  }

  lemma RankBelowCount(l: seq<nat>, i: nat)
    requires i < |l|
    ensures Count(l[..i], l[i]) < Count(l, l[i])
  {
    CountNext(l, i, l[i]);
    CountPrefix(l, i + 1, |l|, l[i]);
    assert l[..|l|] == l;
  }

  lemma RankInjective(l: seq<nat>, i: nat, j: nat)
    requires i < |l| && j < |l| && l[i] == l[j]
    requires Count(l[..i], l[i]) == Count(l[..j], l[j])
    ensures i == j
  {
    if i < j {
      CountNext(l, i, l[i]);
      CountPrefix(l, i + 1, j, l[i]);
    } else if j < i {
      CountNext(l, j, l[j]);
      CountPrefix(l, j + 1, i, l[j]);
    }
  }

  /** Every rank below the count belongs to a symbol. */
  lemma {:induction false} SymbolOfRank(l: seq<nat>, k: nat, s: nat, r: nat) returns (i: nat)
    requires k <= |l| && r < Count(l[..k], s)
    ensures i < k && l[i] == s && Count(l[..i], s) == r
    decreases k
  {
    CountNext(l, k - 1, s);
    if r < Count(l[..k - 1], s) {
      i := SymbolOfRank(l, k - 1, s, r);
    } else {
      i := k - 1;
    }
  }

  // ---- Ordering of codes -------------------------------------------------------------------

  lemma {:induction false} FirstCodeGrows(l: seq<nat>, a: nat, b: nat)
    requires 1 <= a < b
    ensures FirstCode(l, b) >= Shl(EndCode(l, a), b - a)
    decreases b
  {
    if a + 1 == b {
      assert Shl(EndCode(l, a), 1) == 2 * EndCode(l, a);
    } else {
      FirstCodeGrows(l, a, b - 1);
    }
  }

  lemma {:induction false} FirstSymbolGrows(l: seq<nat>, a: nat, b: nat)
    requires 1 <= a < b
    ensures FirstSymbol(l, b) >= FirstSymbol(l, a) + Count(l, a)
    decreases b
  {
    if a + 1 < b {
      FirstSymbolGrows(l, a, b - 1);
    }
  }

  lemma CodeBelowEnd(l: seq<nat>, i: nat)
    requires i < |l| && l[i] > 0
    ensures FirstCode(l, l[i]) <= CodeOf(l, i) < EndCode(l, l[i])
  {
    RankBelowCount(l, i);
  }

  /** A window that starts with the code of `i` lies below every longer code. */
  lemma HitBounds(l: seq<nat>, i: nat, w: nat, t: nat)
    requires Hit(l, i, w) && l[i] <= t
    ensures Rev(w, t) < EndCode(l, t)
    ensures l[i] < t ==> Rev(w, t) < FirstCode(l, t)
  {
    CodeBelowEnd(l, i);
    if l[i] < t {
      RevSplit(w, l[i], t - l[i]);
      ShlLess(Rev(w, l[i]), EndCode(l, l[i]), t - l[i]);
      FirstCodeGrows(l, l[i], t);
    }
  }

  /** No codeword is a prefix of another one: a window holds at most one symbol. */
  lemma PrefixFree(l: seq<nat>, i: nat, j: nat, w: nat)
    requires Hit(l, i, w) && Hit(l, j, w)
    ensures i == j
  {
    if l[i] == l[j] {
      RankInjective(l, i, j);
    } else if l[i] < l[j] {
      HitBounds(l, i, w, l[j]);
    } else {
      HitBounds(l, j, w, l[i]);
    }
  }

  lemma DecodeUnique(l: seq<nat>, i: nat, s: seq<byte>, c: nat)
    requires CodeLengths(l) && CodeAt(l, i, s, c)
    ensures Decode(l, s, c) == Some(i)
  {
    var j := Decode(l, s, c).value;
    HitIsCodeAt(l, i, s, c, 15);
    HitIsCodeAt(l, j, s, c, 15);
    PrefixFree(l, i, j, Peek(s, c, 15));
  }

  /** A window below the end of the codes of length `t`, and below no shorter end, starts with a
      code of length exactly `t`. */
  lemma {:induction false} HitAtLength(l: seq<nat>, w: nat, t: nat) returns (i: nat)
    requires 1 <= t && Rev(w, t) < EndCode(l, t)
    requires t > 1 ==> Rev(w, t - 1) >= EndCode(l, t - 1)
    ensures Hit(l, i, w) && l[i] == t
  {
    if t > 1 {
      RevSplit(w, t - 1, 1);
      assert Shl(Rev(w, t - 1), 1) == 2 * Rev(w, t - 1);
    }
    assert l[..|l|] == l;
    assert Rev(w, t) >= FirstCode(l, t);
    i := SymbolOfRank(l, |l|, t, Rev(w, t) - FirstCode(l, t));
  }

  /** When no code of at most `t` bits starts the window, the window lies at or above the end of
      the codes of length `t`. */
  lemma {:induction false} NoHitBounds(l: seq<nat>, w: nat, t: nat)
    requires 1 <= t && forall i: nat :: Hit(l, i, w) ==> l[i] > t
    ensures Rev(w, t) >= EndCode(l, t)
    decreases t
  {
    if t > 1 {
      NoHitBounds(l, w, t - 1);
    }
    if Rev(w, t) < EndCode(l, t) {
      var i := HitAtLength(l, w, t);
      assert false;
    }
  }

  lemma CodeFits(l: seq<nat>, i: nat)
    requires CodeLengths(l) && Accepted(l) && i < |l| && l[i] > 0
    ensures CodeOf(l, i) < Pow2(l[i])
  {
    CodeBelowEnd(l, i);
  }

  lemma {:induction false} UsedSymbols(l: seq<nat>, k: nat, s: nat)
    requires k <= |l|
    ensures FirstSymbol(l[..k], s) <= k
    decreases k
  {
    if k == 0 {
      NoSymbols(s);
      assert l[..0] == [];
    } else {
      UsedSymbols(l, k - 1, s);
      OneMoreSymbol(l, k - 1, s);
    }
  }

  lemma {:induction false} NoSymbols(s: nat)
    ensures FirstSymbol([], s) == 0
  {
    if s > 1 {
      NoSymbols(s - 1);
    }
  }

  lemma {:induction false} OneMoreSymbol(l: seq<nat>, k: nat, s: nat)
    requires k < |l|
    ensures FirstSymbol(l[..k + 1], s) == FirstSymbol(l[..k], s) + (if 1 <= l[k] < s then 1 else 0)
    decreases s
  {
    if s > 1 {
      OneMoreSymbol(l, k, s - 1);
      CountNext(l, k, s - 1);
    }
  }

  /** Where the sorted tables keep symbol `i`. */
  function Slot(l: seq<nat>, i: nat): nat
    requires i < |l|
  {
    FirstSymbol(l, l[i]) + Count(l[..i], l[i])
  }

  lemma SlotInjective(l: seq<nat>, i: nat, j: nat)
    requires i < |l| && j < |l| && l[i] > 0 && l[j] > 0 && Slot(l, i) == Slot(l, j)
    ensures i == j
  {
    RankBelowCount(l, i);
    RankBelowCount(l, j);
    if l[i] == l[j] {
      RankInjective(l, i, j);
    } else if l[i] < l[j] {
      FirstSymbolGrows(l, l[i], l[j]);
    } else {
      FirstSymbolGrows(l, l[j], l[i]);
    }
  }

  lemma SlotInRange(l: seq<nat>, i: nat)
    requires i < |l| && 0 < l[i]
    ensures Slot(l, i) < |l|
  {
    RankBelowCount(l, i);
    FirstSymbolGrows(l, l[i], l[i] + 1);
    assert l[..|l|] == l;
    UsedSymbols(l, |l|, l[i] + 1);
  }
}
