/** Rows of equal length in memory, and the arithmetic of places in them. */
module Layout {
  ghost predicate Distinct<T>(s: seq<T>) {
    forall i, j :: 0 <= i < j < |s| ==> s[i] != s[j]
  }

  lemma DistinctWithout<T>(s: seq<T>, i: nat)
    requires i < |s| && Distinct(s)
    ensures Distinct(s[..i] + s[i + 1..]) && s[i] !in s[..i] + s[i + 1..]
    ensures forall x :: x in s[..i] + s[i + 1..] ==> x in s
  {
    var r := s[..i] + s[i + 1..];
    assert forall k :: 0 <= k < |r| ==> r[k] == s[if k < i then k else k + 1];
  }

  /** Where row `j` starts if rows are `w` long: `j * w`, by repeated addition. */
  function Start(j: nat, w: nat): nat {
    if j == 0 then 0 else Start(j - 1, w) + w
  }

  lemma {:induction false} StartIsProduct(j: nat, w: nat)
    ensures Start(j, w) == j * w
  {
    if j > 0 {
      StartIsProduct(j - 1, w);
    }
  }

  lemma StartNext(j: nat, w: nat)
    ensures Start(j + 1, w) == Start(j, w) + w
  {
  }

  lemma {:induction false} StartMonotone(i: nat, j: nat, w: nat)
    requires i < j
    ensures Start(i, w) + w <= Start(j, w)
    decreases j
  {
    if i + 1 < j {
      StartMonotone(i, j - 1, w);
    }
  }

  lemma StartAtMost(i: nat, j: nat, w: nat)
    requires i <= j
    ensures Start(i, w) <= Start(j, w)
  {
    hide Start;
    if i < j {
      StartMonotone(i, j, w);
    }
  }

  lemma MulAtMost(a: int, b: int, c: nat)
    requires a <= b
    ensures a * c <= b * c
  {
  }

  lemma DivModOf(i: nat, d: nat, r: nat)
    requires r < d
    ensures (i * d + r) % d == r && (i * d + r) / d == i
  {
    var q := (i * d + r) / d;
    if q < i {
      MulAtMost(q + 1, i, d);
    } else if q > i {
      MulAtMost(i + 1, q, d);
    }
  }
}
