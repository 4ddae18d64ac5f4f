/** The file frame: `SYNC`, 36 bytes of file id, eight bytes of size (big-endian), then the data; over a
    connection that may split every transfer. */
module FtFrame {
  import opened Bits

  const MAGIC: seq<byte> := [83, 89, 78, 67]
  const UUID_LEN := 36
  const CHUNK_SIZE := 256 * 1024
  const HEADER_LEN := 48

  // ---- The connection ----------------------------------------------------------------------

  /** One end of a connection: what was sent through it, and what arrives from the other end.  `splits`
      decides how much each call moves; zero or less is an error. */
  class Socket {
    const incoming: seq<byte>
    const splits: nat -> int
    var sent: seq<byte>
    var pos: nat
    var tick: nat

    constructor (incoming: seq<byte>, splits: nat -> int)
      ensures this.incoming == incoming && this.splits == splits && sent == [] && pos == 0 && tick == 0
    {
      this.incoming, this.splits := incoming, splits;
      sent, pos, tick := [], 0, 0;
    }

    /** No call from `from` on fails. */
    ghost predicate Steady(from: nat)
    {
      forall t :: t >= from ==> splits(t) > 0
    }

    /** `send`. */
    method Send(buf: seq<byte>) returns (n: int)
      requires buf != []
      modifies `sent, `tick
      ensures n <= |buf| && sent == old(sent) + buf[..if n > 0 then n else 0]
      ensures tick > old(tick) && (Steady(old(tick)) ==> n > 0)
    {
      n := splits(tick);
      tick := tick + 1;
      if n > |buf| {
        n := |buf|;
      }
      if n > 0 {
        sent := sent + buf[..n];
      }
    }

    /** `recv` of at most `len` bytes; at the end of the stream it returns zero. */
    method Recv(len: nat) returns (n: int, bytes: seq<byte>)
      requires len > 0 && pos <= |incoming|
      modifies `pos, `tick
      ensures pos <= |incoming| && tick > old(tick)
      ensures n > 0 ==> n <= len && pos == old(pos) + n && bytes == incoming[old(pos)..pos]
      ensures n <= 0 ==> pos == old(pos)
      ensures Steady(old(tick)) && old(pos) < |incoming| ==> n > 0
    {
      n := splits(tick);
      tick := tick + 1;
      bytes := [];
      if n > len {
        n := len;
      }
      if n > |incoming| - pos {
        n := |incoming| - pos;
      }
      if n > 0 {
        bytes := incoming[pos..pos + n];
        pos := pos + n;
      }
    }

    /** `ft_send_all`. */
    method SendAll(buf: seq<byte>) returns (ok: bool)
      requires |buf| <= INT_MAX
      modifies `sent, `tick
      ensures ok ==> sent == old(sent) + buf
      ensures tick >= old(tick) && (Steady(old(tick)) ==> ok)
    {
      var done := 0;
      assert buf[..0] == [];
      while done < |buf|
        invariant 0 <= done <= |buf| && sent == old(sent) + buf[..done] && tick >= old(tick)
      {
        var n := Send(buf[done..]);
        if n <= 0 {
          return false;
        }
        assert buf[..done] + buf[done..][..n] == buf[..done + n];
        done := done + n;
      }
      assert buf[..done] == buf;
      return true;
    }

    /** `ft_recv_all`: fills a buffer, or fails. */
    method RecvAll(buf: array<byte>, len: nat) returns (ok: bool)
      requires len <= buf.Length && pos <= |incoming|
      modifies `pos, `tick, buf
      ensures pos <= |incoming| && tick >= old(tick) && old(pos) <= pos <= old(pos) + len
      ensures ok ==> pos == old(pos) + len && buf[..len] == incoming[old(pos)..pos]
      ensures Steady(old(tick)) && old(pos) + len <= |incoming| ==> ok
    {
      var got := 0;
      while got < len
        invariant 0 <= got <= len && pos == old(pos) + got <= |incoming| && tick >= old(tick)
        invariant forall k :: 0 <= k < got ==> buf[k] == incoming[old(pos) + k]
      {
        var n, bytes := Recv(len - got);
        if n <= 0 {
          return false;
        }
        forall k | 0 <= k < n {
          buf[got + k] := bytes[k];
        }
        got := got + n;
      }
      return true;
    }
  }

  // ---- The frame ---------------------------------------------------------------------------

  /** Big-endian, `n` bytes. */
  function BigEndian(v: nat, n: nat): (r: seq<byte>)
    ensures |r| == n
    decreases n
  {
    if n == 0 then [] else BigEndian(v / 256, n - 1) + [v % 256]
  }

  function Value(b: seq<byte>): nat {
    if b == [] then 0 else 256 * Value(b[..|b| - 1]) + b[|b| - 1] as int
  }

  lemma {:induction false} BigEndianValue(v: nat, n: nat)
    requires v < Pow2(8 * n)
    ensures Value(BigEndian(v, n)) == v
    decreases n
  {
    if n > 0 {
      Eight(n - 1);
      BigEndianValue(v / 256, n - 1);
      assert BigEndian(v, n)[..n - 1] == BigEndian(v / 256, n - 1);
    }
  }

  lemma Eight(n: nat)
    ensures Pow2(8 * (n + 1)) == 256 * Pow2(8 * n)
  {
    var m := 8 * n;
    assert Pow2(m + 2) == 4 * Pow2(m) && Pow2(m + 4) == 4 * Pow2(m + 2) && Pow2(m + 6) == 4 * Pow2(m + 4) && Pow2(m + 8) == 4 * Pow2(m + 6);
  }

  function Frame(id: seq<byte>, size: nat, data: seq<byte>): seq<byte> {
    MAGIC + id + BigEndian(size, 8) + data
  }

  /** Place values written out: the first byte counts 2^56. */
  function Number64(b: seq<byte>): nat
    requires |b| == 8
  {
    72057594037927936 * b[0] as int + 281474976710656 * b[1] as int + 1099511627776 * b[2] as int + 4294967296 * b[3] as int
    + 16777216 * b[4] as int + 65536 * b[5] as int + 256 * b[6] as int + b[7] as int
  }

  lemma ValueIsNumber(b: seq<byte>)
    requires |b| == 8
    ensures Value(b) == Number64(b)
  {
    hide Value;
    ValueStep(b, 0);
    ValueStep(b, 1);
    ValueStep(b, 2);
    ValueStep(b, 3);
    ValueStep(b, 4);
    ValueStep(b, 5);
    ValueStep(b, 6);
    ValueStep(b, 7);
    assert b[..0] == [] && b[..8] == b;
  }

  /** The bytes of a frame: the letters SYNC, the id, the size in eight bytes from the top, the data. */
  lemma FrameBytes(id: seq<byte>, size: nat, data: seq<byte>)
    requires |id| == 36 && size < 0x1_0000_0000_0000_0000
    ensures var f := Frame(id, size, data);
            && |f| == 48 + |data| && f[0] == 83 && f[1] == 89 && f[2] == 78 && f[3] == 67
            && f[4..40] == id && Number64(f[40..48]) == size && f[48..] == data
  {
    hide BigEndian, Number64, Pow2;
    var f, sb := Frame(id, size, data), BigEndian(size, 8);
    assert f[40..48] == sb && f[4..40] == id && f[48..] == data;
    Widths();
    BigEndianValue(size, 8);
    ValueIsNumber(sb);
  }

  lemma Widths()
    ensures Pow2(8 * 8) == 0x1_0000_0000_0000_0000
  {
    hide Pow2;
    assert Pow2(8 * 0) == 1 by { PowZero(); }
    Eight(0);
    Eight(1);
    Eight(2);
    Eight(3);
    Eight(4);
    Eight(5);
    Eight(6);
    Eight(7);
  }

  lemma PowZero()
    ensures Pow2(0) == 1
  {
  }

  /** The size as eight bytes, filled in from the last one, the low byte of what remains each time. */
  method PutSize(size: nat) returns (sb: array<byte>)
    ensures sb.Length == 8 && sb[..] == BigEndian(size, 8) && fresh(sb)
  {
    hide And, Shr, Low, BigEndian;
    sb := new byte[8];
    var fs := size;
    var i := 7;
    while i >= 0
      invariant -1 <= i <= 7 && BigEndian(size, 8) == BigEndian(fs, i + 1) + sb[i + 1..]
    {
      BigEndianStep(fs, i + 1);
      ghost var rest := sb[i + 1..];
      sb[i] := And(fs, 0xFF);
      assert sb[i..] == [sb[i]] + rest;
      fs := Shr(fs, 8);
      i := i - 1;
    }
    BigEndianStep(fs, 0);
  }

  lemma BigEndianStep(fs: nat, n: nat)
    ensures n == 0 ==> BigEndian(fs, n) == []
    ensures n > 0 ==> BigEndian(fs, n) == BigEndian(Shr(fs, 8), n - 1) + [And(fs, 0xFF)] && And(fs, 0xFF) < 256
  {
    hide And, Low, Shr;
    Pow2Values();
    AndMask(fs, 8);
    assert Low(fs, 8) == fs % 256 && Shr(fs, 8) == fs / 256 by { LowByte(fs); }
  }

  /** The size from its eight bytes, each one shifted in from below. */
  method GetSize(sb: array<byte>) returns (fs: nat)
    requires sb.Length == 8
    ensures fs == Value(sb[..])
  {
    hide Or, Shl, Value;
    fs := 0;
    ValueStep(sb[..], 0);
    for i := 0 to 8
      invariant fs == Value(sb[..i])
    {
      ValueStep(sb[..], i);
      ShiftIn(fs, sb[i]);
      fs := Or(Shl(fs, 8), sb[i]);
    }
    assert sb[..8] == sb[..];
  }

  lemma ValueStep(b: seq<byte>, i: nat)
    requires i <= |b|
    ensures i == 0 ==> Value(b[..i]) == 0
    ensures i < |b| ==> Value(b[..i + 1]) == 256 * Value(b[..i]) + b[i] as int
  {
    if i < |b| {
      assert b[..i + 1][..i] == b[..i];
    }
  }

  lemma ShiftIn(fs: nat, b: byte)
    ensures Or(Shl(fs, 8), b) == 256 * fs + b as int
  {
    hide Or, Shl;
    Pow2Values();
    OrCommutes(Shl(fs, 8), b);
    OrShifted(b, fs, 8);
    ShlFour(fs);
    ShlFour(16 * fs);
    ShlShl(fs, 4, 4);
  }

  // ---- Sending -----------------------------------------------------------------------------

  /** `ft_send_file`: on success exactly one frame has been sent. */
  method SendFile(sock: Socket, file_id: seq<byte>, file_size: nat, data: seq<byte>) returns (ok: bool)
    requires |file_id| >= UUID_LEN && |data| <= INT_MAX
    modifies sock`sent, sock`tick
    ensures ok ==> sock.sent == old(sock.sent) + Frame(file_id[..UUID_LEN], file_size, data)
    ensures sock.tick >= old(sock.tick) && (sock.Steady(old(sock.tick)) ==> ok)
  {
    hide BigEndian;
    ok := SendHeader(sock, file_id, file_size);
    if !ok {
      return;
    }
    ok := sock.SendAll(data);
    assert old(sock.sent) + (MAGIC + file_id[..UUID_LEN] + BigEndian(file_size, 8)) + data
        == old(sock.sent) + Frame(file_id[..UUID_LEN], file_size, data);
  }

  /** The part of the frame that both senders write first. */
  method SendHeader(sock: Socket, file_id: seq<byte>, file_size: nat) returns (ok: bool)
    requires |file_id| >= UUID_LEN
    modifies sock`sent, sock`tick
    ensures ok ==> sock.sent == old(sock.sent) + (MAGIC + file_id[..UUID_LEN] + BigEndian(file_size, 8))
    ensures sock.tick >= old(sock.tick) && (sock.Steady(old(sock.tick)) ==> ok)
  {
    hide BigEndian;
    ok := sock.SendAll(MAGIC);
    if !ok {
      return;
    }
    ok := sock.SendAll(file_id[..UUID_LEN]);
    if !ok {
      return;
    }
    var sb := PutSize(file_size);
    ok := sock.SendAll(sb[..]);
    assert old(sock.sent) + MAGIC + file_id[..UUID_LEN] + BigEndian(file_size, 8)
        == old(sock.sent) + (MAGIC + file_id[..UUID_LEN] + BigEndian(file_size, 8));
  }

  /** `ft_send_file_from_path`: the file is read in chunks; one that is too short fails. */
  method SendFromPath(sock: Socket, file_id: seq<byte>, file_size: nat, content: seq<byte>) returns (ok: bool)
    requires |file_id| >= UUID_LEN
    modifies sock`sent, sock`tick
    ensures ok ==> file_size <= |content| && sock.sent == old(sock.sent) + Frame(file_id[..UUID_LEN], file_size, content[..file_size])
    ensures sock.tick >= old(sock.tick) && (sock.Steady(old(sock.tick)) ==> (ok <==> file_size <= |content|))
  {
    hide BigEndian;
    ok := SendHeader(sock, file_id, file_size);
    if !ok {
      return;
    }
    ghost var head := sock.sent;
    var remaining, at := file_size, 0;
    assert content[..0] == [];
    while remaining > 0
      invariant remaining + at == file_size && 0 <= at <= |content| && remaining >= 0
      invariant sock.sent == head + content[..at] && sock.tick >= old(sock.tick)
      decreases remaining
    {
      var to_read := if remaining > CHUNK_SIZE then CHUNK_SIZE else remaining;
      var n := if to_read <= |content| - at then to_read else |content| - at;
      if n != to_read {
        return false;
      }
      ok := sock.SendAll(content[at..at + n]);
      if !ok {
        return;
      }
      assert content[..at] + content[at..at + n] == content[..at + n];
      remaining, at := remaining - n, at + n;
    }
    assert head + content[..file_size] == old(sock.sent) + Frame(file_id[..UUID_LEN], file_size, content[..file_size]);
    return true;
  }

  // ---- Receiving ---------------------------------------------------------------------------

  datatype File = File(file_id: cstring, file_size: nat, data: seq<byte>)

  /** A frame header at `p` that a receiver with the given limit accepts. */
  predicate Acceptable(s: seq<byte>, p: nat, max_size: nat)
    requires p + HEADER_LEN <= |s|
  {
    s[p..p + 4] == MAGIC && 0 < Value(s[p + 40..p + 48]) <= max_size
  }

  /** The file whose frame is at `p`. */
  function FileAt(s: seq<byte>, p: nat): File
    requires p + HEADER_LEN <= |s| && p + HEADER_LEN + Value(s[p + 40..p + 48]) <= |s|
  {
    var size := Value(s[p + 40..p + 48]);
    File(Truncate(s[p + 4..p + 40]), size, s[p + HEADER_LEN..p + HEADER_LEN + size])
  }

  /** The part of the frame that both receivers read first.  A wrong magic, a zero size or a size over the
      limit is rejected before any byte of data is read. */
  method RecvHeader(sock: Socket, max_size: nat) returns (ok: bool, file_id: cstring, fs: nat)
    requires sock.pos <= |sock.incoming|
    modifies sock`pos, sock`tick
    ensures old(sock.pos) <= sock.pos <= |sock.incoming| && sock.tick >= old(sock.tick)
    ensures sock.pos <= old(sock.pos) + HEADER_LEN
    ensures old(sock.pos) + 4 <= |sock.incoming| && sock.incoming[old(sock.pos)..old(sock.pos) + 4] != MAGIC ==>
              sock.pos <= old(sock.pos) + 4
    ensures ok ==> sock.pos == old(sock.pos) + HEADER_LEN && Acceptable(sock.incoming, old(sock.pos), max_size)
    ensures ok ==> file_id == Truncate(sock.incoming[old(sock.pos) + 4..old(sock.pos) + 40])
    ensures ok ==> fs == Value(sock.incoming[old(sock.pos) + 40..old(sock.pos) + 48])
    ensures sock.Steady(old(sock.tick)) && old(sock.pos) + HEADER_LEN <= |sock.incoming| ==>
              (ok <==> Acceptable(sock.incoming, old(sock.pos), max_size))
  {
    hide Value, Truncate;
    file_id, fs := [], 0;
    var magic := new byte[4];
    ok := sock.RecvAll(magic, 4);
    if !ok {
      return;
    }
    if magic[..] != MAGIC {
      assert magic[..4] == magic[..];
      return false, [], 0;
    }
    assert magic[..4] == magic[..];
    var fid := new byte[UUID_LEN + 1];
    ok := sock.RecvAll(fid, UUID_LEN);
    if !ok {
      return;
    }
    fid[UUID_LEN] := 0;
    file_id := Truncate(fid[..UUID_LEN]);
    var sb := new byte[8];
    ok := sock.RecvAll(sb, 8);
    if !ok {
      return;
    }
    assert sb[..8] == sb[..];
    fs := GetSize(sb);
    ok := !(fs == 0 || fs > max_size);
  }

  /** `ft_recv_file`. */
  method RecvFile(sock: Socket, max_size: nat) returns (r: Option<File>)
    requires sock.pos <= |sock.incoming| && max_size <= INT_MAX
    modifies sock`pos, sock`tick
    ensures sock.pos <= |sock.incoming|
    ensures r.Some? ==> Delivered(sock.incoming, old(sock.pos), sock.pos, max_size, r.value)
    ensures sock.Steady(old(sock.tick)) && Complete(sock.incoming, old(sock.pos)) ==>
              (r.Some? <==> Acceptable(sock.incoming, old(sock.pos), max_size))
    ensures r.None? && Refused(sock.incoming, old(sock.pos), max_size) ==> sock.pos <= old(sock.pos) + HEADER_LEN
  {
    hide Value, Truncate;
    var ok, id, fs := RecvHeader(sock, max_size);
    if !ok {
      return None;
    }
    var data := new byte[fs];
    ok := sock.RecvAll(data, fs);
    if !ok {
      return None;
    }
    assert data[..fs] == data[..];
    return Some(File(id, fs, data[..]));
  }

  /** The whole frame that is announced at `p` arrives. */
  predicate Complete(s: seq<byte>, p: nat) {
    p + HEADER_LEN <= |s| && p + HEADER_LEN + Value(s[p + 40..p + 48]) <= |s|
  }

  /** The frame at `p` has been received, and nothing after it. */
  predicate Delivered(s: seq<byte>, p: nat, q: nat, max_size: nat, file: File) {
    Complete(s, p) && Acceptable(s, p, max_size) && file == FileAt(s, p) && q == p + HEADER_LEN + file.file_size
  }

  predicate Refused(s: seq<byte>, p: nat, max_size: nat) {
    p + HEADER_LEN <= |s| && !Acceptable(s, p, max_size)
  }

  /** `ft_recv_file_to_path`: `r` is what the output file then holds; a failed file is removed. */
  method RecvToPath(sock: Socket, max_size: nat) returns (r: Option<File>)
    requires sock.pos <= |sock.incoming|
    modifies sock`pos, sock`tick
    ensures sock.pos <= |sock.incoming|
    ensures r.Some? ==> Delivered(sock.incoming, old(sock.pos), sock.pos, max_size, r.value)
    ensures sock.Steady(old(sock.tick)) && Complete(sock.incoming, old(sock.pos)) ==>
              (r.Some? <==> Acceptable(sock.incoming, old(sock.pos), max_size))
    ensures r.None? && Refused(sock.incoming, old(sock.pos), max_size) ==> sock.pos <= old(sock.pos) + HEADER_LEN
  {
    hide Value, Truncate;
    ghost var p := sock.pos;
    var ok, id, fs := RecvHeader(sock, max_size);
    if !ok {
      return None;
    }
    var chunk := new byte[CHUNK_SIZE];
    var written := [];
    var remaining := fs;
    while remaining > 0
      invariant 0 <= remaining <= fs && sock.pos == p + HEADER_LEN + (fs - remaining) <= |sock.incoming| && sock.tick >= old(sock.tick)
      invariant written == sock.incoming[p + HEADER_LEN..sock.pos]
      decreases remaining
    {
      var to_read := if remaining > CHUNK_SIZE then CHUNK_SIZE else remaining;
      ghost var q := sock.pos;
      ok := sock.RecvAll(chunk, to_read);
      if !ok {
        return None;
      }
      written := written + chunk[..to_read];
      assert sock.incoming[p + HEADER_LEN..q] + sock.incoming[q..q + to_read] == sock.incoming[p + HEADER_LEN..q + to_read];
      remaining := remaining - to_read;
    }
    return Some(File(id, fs, written));
  }

  // ---- End to end --------------------------------------------------------------------------

  /** A frame as the senders build it is complete, names its file, and is accepted exactly if its size is
      positive and within the limit. */
  lemma FrameBack(s: seq<byte>, p: nat, file_id: cstring, data: seq<byte>, max_size: nat)
    requires |file_id| == UUID_LEN && |data| <= INT_MAX && At(s, p, Frame(file_id, |data|, data))
    ensures Complete(s, p) && FileAt(s, p) == File(file_id, |data|, data)
    ensures Acceptable(s, p, max_size) <==> 0 < |data| <= max_size
  {
    hide BigEndian, Truncate, Value, Pow2;
    var sb := BigEndian(|data|, 8);
    AtSplit(s, p, MAGIC + file_id + sb, data);
    AtSplit(s, p, MAGIC + file_id, sb);
    AtSplit(s, p, MAGIC, file_id);
    assert Pow2(8 * 8) > INT_MAX by { Wide(); }
    BigEndianValue(|data|, 8);
    assert Value(s[p + 40..p + 48]) == |data|;
  }

  lemma Wide()
    ensures Pow2(64) > INT_MAX
  {
    Pow2Values();
    Pow2Monotone(32, 64);
  }

  /** Either sender with either receiver, over any splitting of the stream and with anything behind the
      frame: what is received is the file that was sent, and nothing behind it is touched.  If no call
      fails, the file arrives exactly when its size is positive and within the receiver's limit. */
  method Transfer(file_id: cstring, data: seq<byte>, from_path: bool, to_path: bool, max_size: nat,
                  sends: nat -> int, recvs: nat -> int, rest: seq<byte>)
    returns (sent: bool, r: Option<File>, ghost left: seq<byte>)
    requires |file_id| == UUID_LEN && |data| <= INT_MAX && max_size <= INT_MAX
    ensures r.Some? ==> sent && r.value == File(file_id, |data|, data) && left == rest && 0 < |data| <= max_size
    ensures (forall t :: sends(t) > 0) ==> sent
    ensures sent && (forall t :: recvs(t) > 0) ==> (r.Some? <==> 0 < |data| <= max_size)
  {
    hide Frame, Complete, Acceptable, FileAt;
    var a := new Socket([], sends);
    if from_path {
      sent := SendFromPath(a, file_id, |data|, data);
    } else {
      sent := SendFile(a, file_id, |data|, data);
    }
    r, left := None, rest;
    if !sent {
      return;
    }
    assert file_id[..UUID_LEN] == file_id && data[..|data|] == data;
    assert [] + Frame(file_id, |data|, data) == Frame(file_id, |data|, data) == a.sent;
    var b := new Socket(a.sent + rest, recvs);
    assert b.incoming[0..|a.sent|] == a.sent;
    FrameBack(b.incoming, 0, file_id, data, max_size);
    FrameLength(file_id, data);
    if to_path {
      r := RecvToPath(b, max_size);
    } else {
      r := RecvFile(b, max_size);
    }
    left := b.incoming[b.pos..];
  }

  lemma FrameLength(file_id: seq<byte>, data: seq<byte>)
    requires |file_id| == UUID_LEN
    ensures |Frame(file_id, |data|, data)| == HEADER_LEN + |data|
  {
  }
}
