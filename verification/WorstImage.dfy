/** Images that the PNG writer cannot make smaller: a sequence of letters in which every two neighbours
    determine where they stand, so that no three bytes of the filtered rows come again within the window. */
module WorstImage {
  import opened Bits
  import opened Layout
  import opened InflateSpec
  import opened WorstCase

  // ---- The letters -------------------------------------------------------------------------

  /** A prime below 256.  For every step width from 1 to 250, one round of multiples of it. */
  const PRIME := 251
  const PERIOD := 62750

  function Step(k: nat): (d: nat)
    ensures 1 <= d < PRIME
  {
    1 + (k / 251) % 250
  }

  function Residue(k: nat): (r: nat)
    ensures r < PRIME
  {
    ((k % 251) * Step(k)) % 251
  }

  function Letter(k: nat): (b: byte)
    ensures b >= 5
  {
    255 - Residue(k)
  }

  /** 251 is prime: it has no factor up to 15, and 16 * 16 is more. */
  lemma NoDivisor(a: nat)
    requires 1 < a < PRIME
    ensures PRIME % a != 0
  {
    var q := PRIME / a;
    if a <= 15 {
      NoFactor(a, q);
    } else {
      assert q <= 15 by { QuotientBound(a); }
      NoFactor(q, a);
    }
  }

  lemma QuotientBound(a: nat)
    requires 16 <= a < PRIME
    ensures 1 <= PRIME / a <= 15
  {
  }

  lemma NoFactor(q: nat, a: nat)
    requires 1 <= q <= 15 && 1 <= a < PRIME
    ensures q * a != PRIME && a * q != PRIME
  {
    if q == 1 {
    } else if q == 2 {
    } else if q == 3 {
    } else if q == 4 {
    } else if q == 5 {
    } else if q == 6 {
    } else if q == 7 {
    } else if q == 8 {
    } else if q == 9 {
    } else if q == 10 {
    } else if q == 11 {
    } else if q == 12 {
    } else if q == 13 {
    } else if q == 14 {
    } else if q == 15 {
    }
  }

  /** A product of two numbers below the prime is a multiple of it only if it is zero. */
  lemma {:induction false} ZeroProduct(a: nat, d: nat)
    requires a < PRIME && 0 < d < PRIME && (a * d) % PRIME == 0
    ensures a == 0
    decreases a
  {
    if a == 1 {
      assert false;
    } else if a > 1 {
      Remainder(a, d);
      ZeroProduct(PRIME % a, d);
      NoDivisor(a);
      assert false;
    }
  }

  lemma Remainder(a: nat, d: nat)
    requires 0 < a && (a * d) % PRIME == 0
    ensures ((PRIME % a) * d) % PRIME == 0
  {
    var q, r, m := PRIME / a, PRIME % a, (a * d) / PRIME;
    assert a * d == PRIME * m;
    assert PRIME == q * a + r;
    assert r * d == PRIME * d - q * (a * d) by { assert (q * a + r) * d == q * (a * d) + r * d; }
    assert q * (PRIME * m) == PRIME * (q * m);
    assert r * d == PRIME * (d - q * m);
  }

  // ---- Neighbours --------------------------------------------------------------------------

  lemma NextResidue(k: nat)
    ensures Residue(k + 1) == (Residue(k) + Step(k)) % PRIME
  {
    var i, d := k % 251, Step(k);
    if i < 250 {
      assert (k + 1) / 251 == k / 251 && (k + 1) % 251 == i + 1;
      assert (i + 1) * d == i * d + d;
      ModAdd(i * d, d);
    } else {
      assert (k + 1) % 251 == 0;
      assert 250 * d + d == PRIME * d;
      ModAdd(250 * d, d);
    }
  }

  lemma ModAdd(a: nat, d: nat)
    ensures (a + d) % PRIME == (a % PRIME + d) % PRIME
  {
  }

  /** Two neighbouring letters determine the place, up to the period. */
  lemma Located(k: nat, l: nat)
    requires Letter(k) == Letter(l) && Letter(k + 1) == Letter(l + 1)
    ensures k % PERIOD == l % PERIOD
  {
    hide Step;
    NextResidue(k);
    NextResidue(l);
    SameSum(Residue(k), Step(k), Step(l));
    if k % 251 <= l % 251 {
      SameMultiple(k % 251, l % 251, Step(k));
    } else {
      SameMultiple(l % 251, k % 251, Step(k));
    }
    SamePlaces(k, l);
  }

  lemma SameSum(r: nat, d: nat, e: nat)
    requires d < PRIME && e < PRIME && (r + d) % PRIME == (r + e) % PRIME
    ensures d == e
  {
  }

  lemma SamePlaces(k: nat, l: nat)
    requires Step(k) == Step(l) && k % 251 == l % 251
    ensures k % PERIOD == l % PERIOD
  {
    PlaceOf(k);
    PlaceOf(l);
  }

  lemma SameMultiple(i: nat, j: nat, d: nat)
    requires i <= j < PRIME && 0 < d < PRIME && (i * d) % PRIME == (j * d) % PRIME
    ensures i == j
  {
    assert j * d - i * d == (j - i) * d;
    ZeroProduct(j - i, d);
  }

  lemma PlaceOf(k: nat)
    ensures k % PERIOD == 251 * ((k / 251) % 250) + k % 251
  {
  }

  lemma FarApart(k: nat, l: nat)
    requires k < l && k % PERIOD == l % PERIOD
    ensures l - k >= PERIOD
  {
  }

  // ---- Filtered rows -----------------------------------------------------------------------

  /** The number of the pixel byte at place `p` of rows of a filter byte and `nk` pixel bytes. */
  function PixelAt(p: nat, nk: nat): nat
    requires p % (nk + 1) != 0
  {
    p / (nk + 1) * nk + p % (nk + 1) - 1
  }

  /** Rows of letters, each behind a filter byte of zero. */
  ghost predicate LetterRows(data: seq<byte>, nk: nat) {
    forall p :: 0 <= p < |data| ==> data[p] == if p % (nk + 1) == 0 then 0 else Letter(PixelAt(p, nk))
  }

  function LetterPixels(size: nat): (pixels: seq<byte>)
    ensures |pixels| == size
  {
    seq(size, k requires 0 <= k < size => Letter(k))
  }

  lemma NextPlace(p: nat, w: nat)
    requires w > 0
    ensures if p % w + 1 < w then (p + 1) / w == p / w && (p + 1) % w == p % w + 1
            else (p + 1) / w == p / w + 1 && (p + 1) % w == 0
  {
    var a, r := p / w, p % w;
    assert p == a * w + r;
    if r + 1 < w {
      DivModOf(a, w, r + 1);
    } else {
      assert p + 1 == (a + 1) * w;
      DivModOf(a + 1, w, 0);
    }
  }

  /** Any three bytes hold two neighbouring letters, if rows have two at least. */
  function FirstLetter(p: nat, nk: nat): nat {
    if p % (nk + 1) == 0 then p + 1 else p
  }

  lemma TwoLetters(data: seq<byte>, nk: nat, p: nat)
    requires LetterRows(data, nk) && nk >= 2 && p + 3 <= |data|
    ensures var f := FirstLetter(p, nk);
            && f % (nk + 1) != 0 && data[f] == Letter(PixelAt(f, nk))
            && (data[f + 1] == 0 <==> (f + 1) % (nk + 1) == 0)
            && (data[f + 1] != 0 ==> data[f + 1] == Letter(PixelAt(f, nk) + 1))
            && (data[f + 1] == 0 ==> f == p && data[f + 2] == Letter(PixelAt(f, nk) + 1))
  {
    hide Letter;
    var w, f := nk + 1, FirstLetter(p, nk);
    NextPlace(p, w);
    NextPlace(f, w);
    NextPlace(f + 1, w);
    assert (f / w + 1) * nk == f / w * nk + nk;
  }

  lemma QuotientGrows(p: nat, q: nat, w: nat)
    requires p <= q && w > 0
    ensures p / w <= q / w
    decreases q - p
  {
    if p < q {
      NextPlace(q - 1, w);
      QuotientGrows(p, q - 1, w);
    }
  }

  /** Later letters come from later pixels, which are no further away. */
  lemma PixelsInOrder(p: nat, q: nat, nk: nat)
    requires p < q && p % (nk + 1) != 0 && q % (nk + 1) != 0
    ensures PixelAt(p, nk) < PixelAt(q, nk) <= PixelAt(p, nk) + (q - p)
  {
    var w, a, b := nk + 1, p / (nk + 1), q / (nk + 1);
    assert p == a * w + p % w && q == b * w + q % w;
    QuotientGrows(p, q, w);
    if a < b {
      MulAtMost(a + 1, b, nk);
      assert (a + 1) * nk == a * nk + nk;
    }
    assert b * w - a * w == (b * nk - a * nk) + (b - a);
  }

  /** In rows of letters no three bytes come again within the window. */
  lemma LettersNeverRepeat(data: seq<byte>, nk: nat)
    requires LetterRows(data, nk) && nk >= 2
    ensures NoRepeats(data)
  {
    hide LetterRows, PixelAt;
    forall p: nat, q: nat | p < q <= p + 32767
      ensures !Again(data, p, q)
    {
      if Again(data, p, q) {
        SamePlace(data, nk, p, q);
        assert false;
      }
    }
  }

  lemma SamePlace(data: seq<byte>, nk: nat, p: nat, q: nat)
    requires LetterRows(data, nk) && nk >= 2 && Again(data, p, q)
    ensures q - p >= PERIOD
  {
    hide Letter, PixelAt;
    TwoLetters(data, nk, p);
    TwoLetters(data, nk, q);
    var f, g := FirstLetter(p, nk), FirstLetter(q, nk);
    assert data[p] == 0 <==> p % (nk + 1) == 0;
    assert data[q] == 0 <==> q % (nk + 1) == 0;
    assert g - f == q - p;
    PixelsInOrder(f, g, nk);
    Located(PixelAt(f, nk), PixelAt(g, nk));
    FarApart(PixelAt(f, nk), PixelAt(g, nk));
  }

  // ---- Their cost --------------------------------------------------------------------------

  /** How many of the first `k` letters are the first one, which takes nine bits. */
  function Dear(k: nat): nat {
    (k + 250) / 251
  }

  lemma DearLetter(k: nat)
    ensures Dear(k + 1) <= Dear(k) + 1
    ensures Dear(k + 1) == Dear(k) || Letter(k) == 255
  {
    if k % 251 == 0 {
      assert Residue(k) == 0;
    }
  }

  lemma {:induction false} LettersCost(size: nat, a: nat, b: nat)
    requires a <= b <= size
    ensures LiteralCost(LetterPixels(size)[a..b]) >= 8 * (b - a) + Dear(b) - Dear(a)
    decreases b
  {
    hide Letter, Dear;
    if a < b {
      var s := LetterPixels(size)[a..b];
      LettersCost(size, a, b - 1);
      DearLetter(b - 1);
      assert s[..|s| - 1] == LetterPixels(size)[a..b - 1];
      assert s[|s| - 1] == Letter(b - 1);
    }
  }

  /** One more row of letters behind its filter byte. */
  lemma RowAdded(data: seq<byte>, nk: nat, size: nat, j: nat)
    requires LetterRows(data, nk) && |data| == j * (nk + 1) && j * nk + nk <= size
    ensures LetterRows(data + [0] + LetterPixels(size)[j * nk..j * nk + nk], nk)
    ensures LiteralCost(data + [0] + LetterPixels(size)[j * nk..j * nk + nk])
         >= LiteralCost(data) + 8 * (nk + 1) + Dear(j * nk + nk) - Dear(j * nk)
  {
    hide Letter, Dear, LiteralCost, LetterPixels, LetterRows;
    var row := LetterPixels(size)[j * nk..j * nk + nk];
    RowPlaced(data, nk, size, j);
    CostJoins(data + [0], row);
    CostJoins(data, [0]);
    ZeroCost();
    LettersCost(size, j * nk, j * nk + nk);
  }

  lemma RowPlaced(data: seq<byte>, nk: nat, size: nat, j: nat)
    requires LetterRows(data, nk) && |data| == j * (nk + 1) && j * nk + nk <= size
    ensures LetterRows(data + [0] + LetterPixels(size)[j * nk..j * nk + nk], nk)
  {
    hide Letter, PixelAt;
    var row := LetterPixels(size)[j * nk..j * nk + nk];
    var more := data + [0] + row;
    forall p | 0 <= p < |more|
      ensures more[p] == if p % (nk + 1) == 0 then 0 else Letter(PixelAt(p, nk))
    {
      if p >= |data| {
        AddedPlace(j, nk, p - |data|);
      }
    }
  }

  lemma AddedPlace(j: nat, nk: nat, r: nat)
    requires r <= nk
    ensures var p := j * (nk + 1) + r;
            if r == 0 then p % (nk + 1) == 0 else p % (nk + 1) != 0 && PixelAt(p, nk) == j * nk + r - 1
  {
    DivModOf(j, nk + 1, r);
  }

  lemma ZeroCost()
    ensures LiteralCost([0]) == 8
  {
    assert [0][..0] == [];
  }
}
