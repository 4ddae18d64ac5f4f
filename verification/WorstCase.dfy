/** Inputs on which the compressor gains nothing: no three bytes come again within the window. */
module WorstCase {
  import opened Bits
  import opened InflateSpec
  import opened DeflateSpec

  /** Three bytes come again at position `q`. */
  predicate Again(data: seq<byte>, p: nat, q: nat) {
    && p < q && q + 3 <= |data|
    && data[p] == data[q] && data[p + 1] == data[q + 1] && data[p + 2] == data[q + 2]
  }

  /** No three bytes come again within the reach of a back-reference. */
  ghost predicate NoRepeats(data: seq<byte>) {
    forall p: nat, q: nat :: p < q <= p + 32767 ==> !Again(data, p, q)
  }

  /** The bits of all bytes as literals of the fixed code. */
  function LiteralCost(data: seq<byte>): (c: nat)
    ensures c >= 8 * |data|
  {
    if data == [] then 0 else LiteralCost(data[..|data| - 1]) + if data[|data| - 1] < 144 then 8 else 9
  }

  lemma {:induction false} CostJoins(a: seq<byte>, b: seq<byte>)
    ensures LiteralCost(a + b) == LiteralCost(a) + LiteralCost(b)
    decreases |b|
  {
    if b == [] {
      assert a + b == a;
    } else {
      assert (a + b)[..|a + b| - 1] == a + b[..|b| - 1];
      CostJoins(a, b[..|b| - 1]);
    }
  }

  /** What a back-reference appends is there already. */
  lemma {:induction false} CopyRepeats(out: seq<byte>, dist: nat, len: nat, k: nat)
    requires 1 <= dist <= |out| && k < len
    ensures var r := CopyBack(out, dist, len);
            |out| + k < |r| && r[|out| + k] == r[|out| - dist + k]
    decreases len
  {
    var more := out + [out[|out| - dist]];
    if k > 0 {
      CopyRepeats(more, dist, len - 1, k - 1);
    } else {
      assert more <= CopyBack(more, dist, len - 1);
    }
  }

  lemma CopyIsAgain(out: seq<byte>, t: Token, data: seq<byte>)
    requires t.Copy? && TokenOk(out, t) && Apply(out, t) <= data
    ensures Again(data, |out| - t.dist, |out|)
  {
    hide CopyBack;
    CopyRepeats(out, t.dist, t.len, 0);
    CopyRepeats(out, t.dist, t.len, 1);
    CopyRepeats(out, t.dist, t.len, 2);
  }

  /** Any tokens for such an input are its literals, whatever search produced them. */
  lemma {:induction false} OnlyLiterals(out: seq<byte>, tokens: seq<Token>, data: seq<byte>)
    requires NoRepeats(data) && Sound(out, tokens) && Expand(out, tokens) == data
    ensures forall t :: t in tokens ==> t.Literal?
    ensures LiteralCost(out) + |TokensBits(out, tokens)| == LiteralCost(data)
    decreases |tokens|
  {
    hide SymbolBits, CopyBack, LiteralCost, Again;
    if tokens != [] {
      var t, rest := tokens[0], tokens[1..];
      if t.Copy? {
        CopyIsAgain(out, t, data);
        assert false;
      }
      OnlyLiterals(out + [t.b], rest, data);
      CostJoins(out, [t.b]);
      OneCost(t.b);
      assert TokensBits(out, tokens) == TokenBits(t) + TokensBits(out + [t.b], rest);
    } else {
      assert TokensBits(out, tokens) == [];
    }
  }

  lemma OneCost(b: byte)
    ensures LiteralCost([b]) == |SymbolBits(b)|
  {
    assert [b][..0] == [];
  }
}
