/** The sender's side of GIF rasters (GIF89a Appendix F): whatever way an encoder divides the indices into
    strings of its dictionary, the raster it writes is read as those indices. */
module GifLaw {
  import opened Bits
  import opened InflateSpec
  import opened DeflateSpec
  import opened Packing
  import opened PngFile
  import opened GifRaster
  import opened GifLzw

  // ---- The encoder -------------------------------------------------------------------------

  /** A code and the string of indices it is sent for. */
  datatype Sent = Sent(code: nat, text: seq<byte>)

  /** Since the last clear code, code number `k` stands for itself if it is an index, and code `2^cs + 2 + j`
      for the `j`-th string sent and the first index of the one after it, which may be this very string. */
  predicate Stands(run: seq<Sent>, k: nat, cs: nat)
    requires k < |run| && cs <= 8
  {
    var n, c := POWERS[cs], run[k].code;
    && run[k].text != [] && c <= 4095
    && (if c < n then run[k].text == [c]
        else c >= n + 2 && c - n - 2 < k && run[c - n - 2 + 1].text != []
             && run[k].text == run[c - n - 2].text + [run[c - n - 2 + 1].text[0]])
  }

  /** The codes between two clear codes; there is room for 8192 entries. */
  predicate RunOk(run: seq<Sent>, cs: nat)
    requires cs <= 8
  {
    && |run| + POWERS[cs] < 8192 && (forall k :: 0 <= k < |run| ==> Stands(run, k, cs))
  }

  /** The bits of a code while the dictionary has `n` entries, the two control codes among them. */
  function BitsFor(n: nat): (w: nat)
    ensures 3 <= w <= 12
  {
    if n < 8 then 3 else if n < 16 then 4 else if n < 32 then 5 else if n < 64 then 6 else if n < 128 then 7
    else if n < 256 then 8 else if n < 512 then 9 else if n < 1024 then 10 else if n < 2048 then 11 else 12
  }

  /** The entries when code number `k` is sent: every code but the first one has added one. */
  function Entries(cs: nat, k: nat): nat
    requires cs <= 8
  {
    POWERS[cs] + 2 + if k == 0 then 0 else k - 1
  }

  function RunBits(run: seq<Sent>, cs: nat, k: nat): (b: seq<nat>)
    requires cs <= 8 && k <= |run|
    ensures AreBits(b)
    decreases |run| - k
  {
    if k == |run| then [] else LowFirst(run[k].code, BitsFor(Entries(cs, k))) + RunBits(run, cs, k + 1)
  }

  /** The runs from number `m` on, with clear codes between them and the end code behind the last one. */
  function RunsBits(runs: seq<seq<Sent>>, cs: nat, m: nat): (b: seq<nat>)
    requires cs <= 8 && m < |runs|
    ensures AreBits(b)
    decreases |runs| - m
  {
    var w := BitsFor(Entries(cs, |runs[m]|));
    RunBits(runs[m], cs, 0)
    + if m + 1 < |runs| then LowFirst(POWERS[cs], w) + RunsBits(runs, cs, m + 1) else LowFirst(POWERS[cs] + 1, w)
  }

  /** The whole code stream: it starts with a clear code. */
  function StreamBits(runs: seq<seq<Sent>>, cs: nat): (b: seq<nat>)
    requires cs <= 8 && runs != []
    ensures AreBits(b)
  {
    LowFirst(POWERS[cs], cs + 1) + RunsBits(runs, cs, 0)
  }

  function RunText(run: seq<Sent>, k: nat): seq<byte>
    requires k <= |run|
    decreases |run| - k
  {
    if k == |run| then [] else run[k].text + RunText(run, k + 1)
  }

  /** The indices sent. */
  function RunsText(runs: seq<seq<Sent>>, m: nat): seq<byte>
    requires m <= |runs|
    decreases |runs| - m
  {
    if m == |runs| then [] else RunText(runs[m], 0) + RunsText(runs, m + 1)
  }

  /** Data in sub-blocks of one to 255 bytes, with an empty one at the end. */
  function SubBlocks(chunks: seq<seq<byte>>): (r: seq<byte>)
    requires forall k :: 0 <= k < |chunks| ==> 1 <= |chunks[k]| <= 255
  {
    if chunks == [] then [0] else [|chunks[0]|] + chunks[0] + SubBlocks(chunks[1..])
  }

  function Joined(chunks: seq<seq<byte>>): seq<byte> {
    if chunks == [] then [] else chunks[0] + Joined(chunks[1..])
  }

  // ---- Reading it --------------------------------------------------------------------------

  predicate Added(text: seq<byte>, run: seq<Sent>, j: nat) {
    j + 1 < |run| && run[j + 1].text != [] && text == run[j].text + [run[j + 1].text[0]]
  }

  /** After `k` codes of a run the dictionary holds the indices and what each code but the last has added. */
  ghost predicate Synced(d: Dictionary, run: seq<Sent>, k: nat, cs: nat)
    requires cs <= 8 && k <= |run|
  {
    var n := POWERS[cs];
    && d.cleared && |d.strings| == Entries(cs, k) && d.width == BitsFor(|d.strings|)
    && (forall c :: 0 <= c < n ==> d.strings[c] == [c])
    && (forall i :: n + 2 <= i < |d.strings| ==> Added(d.strings[i], run, i - n - 2))
    && d.last == if k == 0 then None else Some(run[k - 1].text)
  }

  lemma SmallPower(cs: nat)
    requires 2 <= cs <= 8
    ensures Pow2(cs) == POWERS[cs] && 4 <= POWERS[cs] <= 256 && BitsFor(POWERS[cs] + 2) == cs + 1
    ensures POWERS[cs] < POWERS[cs + 1] == 2 * POWERS[cs]
  {
    PowersAre(cs);
  }

  lemma FreshSynced(cs: nat, run: seq<Sent>)
    requires 2 <= cs <= 8
    ensures Synced(Fresh(cs, true), run, 0, cs)
  {
    SmallPower(cs);
  }

  /** The width follows the number of entries. */
  lemma WidthFollows(n: nat, w: nat)
    requires 6 <= n && w == BitsFor(n)
    ensures Grow(w, n + 1) == BitsFor(n + 1) && Grow(w, n) == BitsFor(n) && (n < POWERS[w] || w == 12)
  {
    hide Low;
    PowersAre(w);
    LowIs(n + 1, w);
    LowIs(n, w);
  }

  lemma LowIs(n: nat, w: nat)
    requires 3 <= w <= 12
    ensures Pow2(w) == POWERS[w] && (n < POWERS[w] ==> Low(n, w) == n) && Low(POWERS[w], w) == 0
  {
    hide Low;
    PowersAre(w);
    if n < POWERS[w] {
      ShrSmall(n, w);
      Recompose(n, w);
      ShlZero(w);
    }
    LowPow2(w);
  }

  lemma CodeFits(d: Dictionary, run: seq<Sent>, k: nat, cs: nat)
    requires 2 <= cs <= 8 && k < |run| && RunOk(run, cs) && Synced(d, run, k, cs)
    ensures var n, c := POWERS[cs], run[k].code;
            && c <= |d.strings| < 8192 && c < POWERS[d.width] && c != n && c != n + 1 && (k == 0 ==> c < n)
            && Pow2(cs) == n && run[k].text != []
            && Grow(d.width, |d.strings| + 1) == BitsFor(|d.strings| + 1) && Grow(d.width, |d.strings|) == d.width
  {
    hide Grow, BitsFor;
    SmallPower(cs);
    WidthFollows(|d.strings|, d.width);
    assert Stands(run, k, cs);
    assert POWERS[12] == 4096;
  }

  /** The decoder turns the next code into its string and keeps up with the encoder. */
  lemma OneCode(d: Dictionary, run: seq<Sent>, k: nat, cs: nat)
    requires 2 <= cs <= 8 && k < |run| && RunOk(run, cs) && Synced(d, run, k, cs)
    ensures run[k].code < POWERS[d.width]
    ensures var t := Decoded(d, Pow2(cs), run[k].code);
            t.Emit? && t.text == run[k].text && Synced(t.next, run, k + 1, cs)
  {
    hide Grow, BitsFor, Fresh, RunOk;
    CodeFits(d, run, k, cs);
    var n, c := POWERS[cs], run[k].code;
    if k > 0 {
      OneText(d, run, k, cs);
      var longer := d.strings + [run[k - 1].text + Head(run[k].text)];
      forall i | n + 2 <= i < |longer|
        ensures Added(longer[i], run, i - n - 2)
      {
        assert i < |d.strings| ==> Added(d.strings[i], run, i - n - 2);
      }
    } else {
      FirstText(run, cs);
    }
  }

  lemma FirstText(run: seq<Sent>, cs: nat)
    requires cs <= 8 && run != [] && RunOk(run, cs)
    ensures run[0].code < POWERS[cs] && run[0].text == [run[0].code]
  {
    assert Stands(run, 0, cs);
  }

  lemma OneText(d: Dictionary, run: seq<Sent>, k: nat, cs: nat)
    requires 2 <= cs <= 8 && 0 < k < |run| && RunOk(run, cs) && Synced(d, run, k, cs) && run[k].code <= |d.strings|
    ensures Text(d.strings, run[k - 1].text, run[k].code) == run[k].text
  {
    hide BitsFor;
    SmallPower(cs);
    assert Stands(run, k, cs) && Stands(run, k - 1, cs);
    var n, c := POWERS[cs], run[k].code;
    if c >= n + 2 {
      var j := c - n - 2;
      if j < k - 1 {
        assert Added(d.strings[c], run, j);
      } else {
        assert run[k].text[0] == run[k - 1].text[0];
      }
    }
  }

  /** A run of codes, and what stands behind it. */
  lemma {:induction false} RunRead(p: seq<byte>, cs: nat, at: nat, d: Dictionary, run: seq<Sent>, k: nat, rest: seq<nat>, out: seq<byte>)
    returns (d': Dictionary)
    requires 2 <= cs <= 8 && k <= |run| && RunOk(run, cs) && Synced(d, run, k, cs) && d.width > 0
    requires Carries(p, at, RunBits(run, cs, k) + rest) && at + |RunBits(run, cs, k)| + |rest| <= 8 * |p|
    ensures Synced(d', run, |run|, cs) && d'.width > 0
    ensures Lzw(p, cs, at, d, out) == Lzw(p, cs, at + |RunBits(run, cs, k)|, d', out + RunText(run, k))
    ensures Carries(p, at + |RunBits(run, cs, k)|, rest)
    decreases |run| - k
  {
    hide Decoded, Peek, Carries, Lzw, RunOk, Pow2, LowFirst;
    CarriesSplit(p, at, RunBits(run, cs, k), rest);
    d' := d;
    if k == |run| {
      assert out + RunText(run, k) == out;
    } else {
      hide Synced;
      var w, more := d.width, RunBits(run, cs, k + 1);
      assert w == BitsFor(Entries(cs, k)) by { WidthNow(d, run, k, cs); }
      CarriesSplit(p, at, LowFirst(run[k].code, w), more);
      OneCode(d, run, k, cs);
      NumberCarried(p, at, run[k].code, w);
      LzwStep(p, cs, at, d, out);
      var next := Decoded(d, Pow2(cs), run[k].code).next;
      assert next.width > 0 by { WidthNow(next, run, k + 1, cs); }
      CarriesJoin(p, at + w, more, rest);
      d' := RunRead(p, cs, at + w, next, run, k + 1, rest, out + run[k].text);
      assert out + run[k].text + RunText(run, k + 1) == out + RunText(run, k);
    }
  }

  lemma WidthNow(d: Dictionary, run: seq<Sent>, k: nat, cs: nat)
    requires cs <= 8 && k <= |run| && Synced(d, run, k, cs)
    ensures d.width == BitsFor(Entries(cs, k)) >= 3
  {
  }

  /** A control code. */
  lemma ControlRead(p: seq<byte>, cs: nat, at: nat, d: Dictionary, out: seq<byte>, code: nat)
    requires 2 <= cs <= 8 && d.width > cs && d.width <= 12 && (code == POWERS[cs] || code == POWERS[cs] + 1)
    requires Carries(p, at, LowFirst(code, d.width)) && at + d.width <= 8 * |p|
    ensures Lzw(p, cs, at, d, out) == if code == POWERS[cs] then Lzw(p, cs, at + d.width, Fresh(cs, true), out) else Indices(out)
  {
    hide Peek, Carries, Lzw, Fresh;
    SmallPower(cs);
    PowersGrow(cs + 1, d.width);
    NumberCarried(p, at, code, d.width);
    LzwStep(p, cs, at, d, out);
  }

  lemma PowersGrow(i: nat, j: nat)
    requires i <= j <= 16
    ensures POWERS[i] <= POWERS[j]
  {
  }

  lemma WidthBounds(d: Dictionary, run: seq<Sent>, k: nat, cs: nat)
    requires 2 <= cs <= 8 && k <= |run| && Synced(d, run, k, cs)
    ensures cs < d.width <= 12
  {
    SmallPower(cs);
  }

  lemma {:induction false} RunsRead(p: seq<byte>, cs: nat, at: nat, runs: seq<seq<Sent>>, m: nat, out: seq<byte>)
    requires 2 <= cs <= 8 && m < |runs| && forall i :: 0 <= i < |runs| ==> RunOk(runs[i], cs)
    requires Carries(p, at, RunsBits(runs, cs, m)) && at + |RunsBits(runs, cs, m)| <= 8 * |p|
    ensures Fresh(cs, true).width > 0 && Lzw(p, cs, at, Fresh(cs, true), out) == Indices(out + RunsText(runs, m))
    decreases |runs| - m
  {
    hide Carries, Lzw, RunOk, Fresh, RunBits, Synced, LowFirst, BitsFor;
    var run := runs[m];
    var d := Fresh(cs, true);
    FreshSynced(cs, run);
    WidthBounds(d, run, 0, cs);
    var w := BitsFor(Entries(cs, |run|));
    var last := m + 1 == |runs|;
    var code := if last then POWERS[cs] + 1 else POWERS[cs];
    var rest := if last then LowFirst(code, w) else LowFirst(code, w) + RunsBits(runs, cs, m + 1);
    var d' := RunRead(p, cs, at, d, run, 0, rest, out);
    var at' := at + |RunBits(run, cs, 0)|;
    WidthNow(d', run, |run|, cs);
    WidthBounds(d', run, |run|, cs);
    var so_far := out + RunText(run, 0);
    if !last {
      CarriesSplit(p, at', LowFirst(code, w), RunsBits(runs, cs, m + 1));
      ControlRead(p, cs, at', d', so_far, code);
      RunsRead(p, cs, at' + w, runs, m + 1, so_far);
      assert so_far + RunsText(runs, m + 1) == out + RunsText(runs, m);
    } else {
      ControlRead(p, cs, at', d', so_far, code);
      assert RunsText(runs, m + 1) == [];
      assert so_far == out + RunsText(runs, m);
    }
  }

  lemma {:induction false} BlocksRead(s: seq<byte>, pos: nat, chunks: seq<seq<byte>>)
    requires forall k :: 0 <= k < |chunks| ==> 1 <= |chunks[k]| <= 255
    requires At(s, pos, SubBlocks(chunks))
    ensures Payload(s, pos, 0) == Joined(chunks) && BlocksEnd(s, pos, 0) == pos + |SubBlocks(chunks)|
    decreases |chunks|
  {
    hide Payload, BlocksEnd;
    var t := SubBlocks(chunks);
    assert s[pos..pos + |t|][0] == s[pos];
    OpenBlock(s, pos);
    if chunks == [] {
      assert BlocksEnd(s, pos, 0) == Next(s, pos) by { EndHere(s, pos); }
    } else {
      var n := |chunks[0]|;
      AtSplit(s, pos, [n] + chunks[0], SubBlocks(chunks[1..]));
      AtSplit(s, pos, [n], chunks[0]);
      BlocksRead(s, pos + 1 + n, chunks[1..]);
      ChunkRead(s, pos + 1, chunks[0]);
    }
  }

  lemma EndHere(s: seq<byte>, pos: nat)
    requires pos < |s| && s[pos] == 0
    ensures BlocksEnd(s, pos, 0) == pos + 1
  {
  }

  lemma {:induction false} ChunkRead(s: seq<byte>, pos: nat, chunk: seq<byte>)
    requires At(s, pos, chunk)
    ensures Payload(s, pos, |chunk|) == chunk + Payload(s, pos + |chunk|, 0)
    ensures BlocksEnd(s, pos, |chunk|) == BlocksEnd(s, pos + |chunk|, 0)
    decreases |chunk|
  {
    if chunk != [] {
      hide Payload, BlocksEnd;
      DataByte(s, pos, |chunk|);
      assert s[pos..pos + |chunk|][0] == s[pos];
      AtSplit(s, pos, [chunk[0]], chunk[1..]) by { assert chunk == [chunk[0]] + chunk[1..]; }
      ChunkRead(s, pos + 1, chunk[1..]);
      assert chunk + Payload(s, pos + |chunk|, 0) == [chunk[0]] + (chunk[1..] + Payload(s, pos + |chunk|, 0));
    } else {
      assert chunk + Payload(s, pos, 0) == Payload(s, pos, 0);
    }
  }

  /** A raster as an encoder writes it: the code size, and the code stream in sub-blocks. */
  ghost predicate IsRaster(t: seq<byte>, cs: nat, runs: seq<seq<Sent>>, chunks: seq<seq<byte>>) {
    && 2 <= cs <= 8 && runs != [] && (forall i :: 0 <= i < |runs| ==> RunOk(runs[i], cs))
    && (forall k :: 0 <= k < |chunks| ==> 1 <= |chunks[k]| <= 255)
    && Joined(chunks) == Pack(StreamBits(runs, cs)) && t == [cs] + SubBlocks(chunks)
  }

  /** Main result: it is accepted, and the indices are those sent. */
  lemma RasterRead(s: seq<byte>, pos: nat, t: seq<byte>, cs: nat, runs: seq<seq<Sent>>, chunks: seq<seq<byte>>)
    requires IsRaster(t, cs, runs, chunks) && At(s, pos, t)
    ensures RasterIndices(s, pos) == Indices(RunsText(runs, 0))
    ensures Next(s, pos) == pos + 1 && BlocksEnd(s, pos + 1, 0) == pos + |t|
  {
    hide Payload, BlocksEnd, Lzw, Fresh, SubBlocks, RunsBits, LowFirst, Carries, RunOk, Joined;
    AtSplit(s, pos, [cs], SubBlocks(chunks));
    assert s[pos..pos + 1][0] == s[pos] == cs;
    BlocksRead(s, pos + 1, chunks);
    var bits := StreamBits(runs, cs);
    var p := Payload(s, pos + 1, 0);
    PackCarries([], bits, []);
    assert [] + Pack(bits) + [] == Pack(bits);
    CarriesSplit(p, 0, LowFirst(POWERS[cs], cs + 1), RunsBits(runs, cs, 0));
    FreshWidth(cs);
    ControlRead(p, cs, 0, Fresh(cs, false), [], POWERS[cs]);
    RunsRead(p, cs, cs + 1, runs, 0, []);
    assert [] + RunsText(runs, 0) == RunsText(runs, 0);
  }

  /** Five bytes: code size 2, the codes clear, 0 and end. */
  lemma SmallestRaster()
    ensures IsRaster([2, 2, 0x44, 1, 0], 2, [[Sent(0, [0])]], [[0x44, 1]]) && RunsText([[Sent(0, [0])]], 0) == [0]
  {
    hide StreamBits, Pack, RunOk;
    var run := [Sent(0, [0])];
    SmallestBits(run);
    SmallestBytes();
    assert RunOk(run, 2) by { SmallestRun(run); }
    assert [[0x44, 1]][1..] == [] && Joined([[0x44, 1]]) == [0x44, 1];
    assert SubBlocks([[0x44, 1]]) == [2, 0x44, 1, 0];
    assert RunText(run, 1) == [] && RunText(run, 0) == [0] && RunsText([run], 1) == [];
  }

  lemma SmallestRun(run: seq<Sent>)
    requires run == [Sent(0, [0])]
    ensures RunOk(run, 2)
  {
    assert Stands(run, 0, 2);
  }

  lemma SmallestBits(run: seq<Sent>)
    requires run == [Sent(0, [0])]
    ensures StreamBits([run], 2) == [0, 0, 1, 0, 0, 0, 1, 0, 1]
  {
    hide LowFirst;
    assert LowFirst(4, 3) == [0, 0, 1] && LowFirst(5, 3) == [1, 0, 1] && LowFirst(0, 3) == [0, 0, 0] by { ThreeBits(); }
    assert RunBits(run, 2, 1) == [] && RunBits(run, 2, 0) == [0, 0, 0];
    assert RunsBits([run], 2, 0) == [0, 0, 0] + [1, 0, 1];
  }

  lemma ThreeBits()
    ensures LowFirst(4, 3) == [0, 0, 1] && LowFirst(5, 3) == [1, 0, 1] && LowFirst(0, 3) == [0, 0, 0]
  {
  }

  lemma SmallestBytes()
    ensures Pack([0, 0, 1, 0, 0, 0, 1, 0, 1]) == [0x44, 1]
  {
    var b: seq<nat> := [0, 0, 1, 0, 0, 0, 1, 0, 1];
    assert b[..8] == [0, 0, 1, 0, 0, 0, 1, 0] && b[8..] == [1];
    assert [1] + seq(7, _ => 0) == [1, 0, 0, 0, 0, 0, 0, 0];
    assert Pack([1]) == [1];
  }

  lemma FreshWidth(cs: nat)
    ensures Fresh(cs, false).width == cs + 1
  {
  }

  /** `stbi__process_gif_raster` on such a raster. */
  method ReadSent(gif: Gif, s: Context, ghost t: seq<byte>, ghost cs: nat, ghost runs: seq<seq<Sent>>, ghost chunks: seq<seq<byte>>)
    returns (ok: bool)
    requires IsRaster(t, cs, runs, chunks) && At(s.buffer, s.pos, t)
    requires gif.codes.Length == 8192 && gif.raster.Valid() && gif.raster.emitted == []
    modifies s, gif.codes, gif.raster`cur_x, gif.raster`cur_y, gif.raster`step, gif.raster`parse, gif.raster`emitted, gif.raster`done, gif.raster.out, gif.raster.history
    ensures ok && gif.raster.Valid() && gif.raster.emitted == RunsText(runs, 0)
    ensures old(s.pos) + |t| < |s.buffer| ==> s.pos == old(s.pos) + |t|
  {
    hide RasterIndices, BlocksEnd, IsRaster, GifRaster.Raster.Valid;
    RasterRead(s.buffer, s.pos, t, cs, runs, chunks);
    ok := gif.ProcessRaster(s);
  }

  /** Every sequence of indices can be sent, if only code by code. */
  lemma {:induction false} EveryIndexSent(indices: seq<byte>, cs: nat) returns (runs: seq<seq<Sent>>)
    requires 2 <= cs <= 8 && forall i :: 0 <= i < |indices| ==> indices[i] < POWERS[cs]
    ensures |runs| == |indices| + 1 && (forall i :: 0 <= i < |runs| ==> RunOk(runs[i], cs)) && RunsText(runs, 0) == indices
    decreases |indices|
  {
    SmallPower(cs);
    if indices == [] {
      runs := [[]];
      assert RunsText(runs, 1) == [];
    } else {
      var rest := EveryIndexSent(indices[1..], cs);
      var run := [Sent(indices[0], [indices[0]])];
      assert Stands(run, 0, cs);
      runs := [run] + rest;
      RunsLater(run, rest, 0);
      assert RunText(run, 0) == [indices[0]] + RunText(run, 1) && RunText(run, 1) == [];
    }
  }

  lemma {:induction false} RunsLater(run: seq<Sent>, rest: seq<seq<Sent>>, m: nat)
    requires m <= |rest|
    ensures RunsText([run] + rest, m + 1) == RunsText(rest, m)
    decreases |rest| - m
  {
    hide RunText;
    var all := [run] + rest;
    assert |all| == |rest| + 1;
    if m < |rest| {
      assert all[m + 1] == rest[m];
      RunsLater(run, rest, m + 1);
    }
  }
}
