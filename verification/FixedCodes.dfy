/** The fixed Huffman codes of RFC 1951 (section 3.2.6): what the canonical construction makes of
    the fixed code lengths, in closed form. */
module FixedCodes {
  import opened Bits
  import opened Huffman
  import opened InflateSpec

  function FixedCount(k: nat, s: nat): nat
    requires k <= 288
  {
    if s == 7 then if k <= 256 then 0 else if k <= 280 then k - 256 else 24
    else if s == 8 then if k <= 144 then k else if k <= 280 then 144 else k - 136
    else if s == 9 then if k <= 144 then 0 else if k <= 256 then k - 144 else 112
    else 0
  }

  lemma {:induction false} CountFixed(k: nat, s: nat)
    requires k <= 288
    ensures Count(FixedLengths()[..k], s) == FixedCount(k, s)
  {
    if k > 0 {
      CountFixed(k - 1, s);
      CountNext(FixedLengths(), k - 1, s);
    }
  }

  lemma {:induction false} CountDistances(k: nat, s: nat)
    requires k <= 32
    ensures Count(FixedDistances()[..k], s) == if s == 5 then k else 0
  {
    if k > 0 {
      CountDistances(k - 1, s);
      CountNext(FixedDistances(), k - 1, s);
    }
  }

  lemma {:induction false} FirstFixed(s: nat)
    requires 1 <= s <= 15
    ensures FirstCode(FixedLengths(), s)
         == if s <= 7 then 0 else if s == 8 then 0x30 else if s == 9 then 0x190 else Pow2(s)
  {
    hide Count;
    if s > 1 {
      FirstFixed(s - 1);
      CountFixed(288, s - 1);
      assert FixedLengths()[..288] == FixedLengths();
      Pow2Values();
    }
  }

  lemma {:induction false} FirstDistance(s: nat)
    requires 1 <= s <= 15
    ensures FirstCode(FixedDistances(), s) == if s <= 5 then 0 else Pow2(s)
  {
    hide Count;
    if s > 1 {
      FirstDistance(s - 1);
      CountDistances(32, s - 1);
      assert FixedDistances()[..32] == FixedDistances();
      Pow2Values();
    }
  }

  /** Both fixed codes are accepted, and use up the whole code space. */
  lemma FixedAccepted()
    ensures CodeLengths(FixedLengths()) && CodeLengths(FixedDistances())
    ensures Accepted(FixedLengths()) && Accepted(FixedDistances())
  {
    hide Count, FirstCode;
    forall s | 1 <= s <= 15
      ensures EndCode(FixedLengths(), s) <= Pow2(s) && EndCode(FixedDistances(), s) <= Pow2(s)
    {
      FirstFixed(s);
      CountFixed(288, s);
      FirstDistance(s);
      CountDistances(32, s);
      assert FixedLengths()[..288] == FixedLengths() && FixedDistances()[..32] == FixedDistances();
      Pow2Values();
    }
  }

  /** The code of literal or length symbol `n`, as the table in the standard gives it. */
  function FixedCode(n: nat): nat
    requires n < 288
  {
    if n <= 143 then 0x30 + n
    else if n <= 255 then 0x190 + n - 144
    else if n <= 279 then n - 256
    else 0xc0 + n - 280
  }

  lemma FixedCodeOf(n: nat)
    requires n < 288
    ensures CodeOf(FixedLengths(), n) == FixedCode(n)
  {
    hide Count, FirstCode;
    FirstFixed(FixedLength(n));
    CountFixed(n, FixedLength(n));
  }

  lemma DistanceCodeOf(n: nat)
    requires n < 32
    ensures CodeOf(FixedDistances(), n) == n
  {
    hide Count, FirstCode;
    FirstDistance(5);
    CountDistances(n, 5);
  }
}
