/** `ft_lan_transfer_auth`: the race between an accepted connection, outgoing connections to the peer's
    candidate addresses and a punched socket.  The first one to authenticate wins. */
module FtRace {
  const INVALID := -1

  /** One call of `poll`: the descriptors waited for, those that were open, and how long it may take. */
  datatype Wait = Wait(asked: set<int>, open: set<int>, ms: int)

  /** What the outside world saw of the race, in order: the sockets `poll` reported, those looked at by
      `accept` or by reading the socket error, those that were then due to authenticate, those that did and
      whether they passed, the waits, the readings of the clock, and the number of calls of `socket`. */
  datatype Log = Log(ready: seq<nat>, seen: seq<nat>, due: seq<nat>, tried: seq<nat>, outcomes: seq<bool>,
                     waits: seq<Wait>, times: seq<int>, sockets: nat)

  // ---- Descriptors -------------------------------------------------------------------------

  /** The operating system and the peers, as far as the race can see them: `events` decides every
      outcome, `clock` every reading of the time.  A descriptor may be reused once it is closed, so each
      socket also has a number of its own. */
  class Kernel {
    const events: nat -> int
    const clock: seq<int>
    var tick: nat
    var reading: nat

    /** The open descriptors and the sockets behind them. */
    var who: map<int, nat>
    /** The number of the next socket. */
    var next: nat
    /** The sockets that passed authentication. */
    var passed: set<nat>
    /** The sockets closed so far, in order. */
    ghost var closed: seq<nat>
    ghost var log: Log

    /** Every socket there ever was is open under one descriptor or was closed exactly once. */
    ghost predicate Valid()
      reads this`who, this`next, this`closed
    {
      && (forall s :: s in who ==> 0 <= s && who[s] < next && who[s] !in closed)
      && (forall s, t :: s in who && t in who && s != t ==> who[s] != who[t])
      && (forall i, j :: 0 <= i < j < |closed| ==> closed[i] != closed[j])
      && (forall x :: x in closed ==> x < next)
      && (forall x: nat :: x < next ==> x in closed || Open(x))
    }

    ghost predicate Open(x: nat)
      reads this`who
    {
      exists s :: s in who && who[s] == x
    }

    /** The next thing that happens. */
    method Event() returns (v: int)
      modifies `tick
    {
      v := events(tick);
      tick := tick + 1;
    }

    /** A new socket: fails, or gives any descriptor that is not open. */
    method New() returns (s: int)
      requires Valid()
      modifies `tick, `who, `next
      ensures Valid() && (s == INVALID || s >= 0)
      ensures s == INVALID ==> who == old(who) && next == old(next)
      ensures s != INVALID ==> s !in old(who) && who == old(who)[s := old(next)] && next == old(next) + 1
    {
      var v := Event();
      if v < 0 || v in who {
        return INVALID;
      }
      s := v;
      ghost var before := who;
      who := who[s := next];
      next := next + 1;
      forall x: nat | x < next
        ensures x in closed || Open(x)
      {
        if x < next - 1 {
          assert x in closed || old(Open(x));
          if x !in closed {
            var t :| t in before && before[t] == x;
            assert t in who && who[t] == x;
          }
        } else {
          assert s in who && who[s] == x;
        }
      }
    }

    /** `ft_close`: only an open descriptor may be closed. */
    method Close(s: int)
      requires Valid() && (s == INVALID || s in who)
      modifies `who, `closed
      ensures Valid() && who == old(who) - {s}
      ensures s == INVALID ==> closed == old(closed)
      ensures s != INVALID ==> closed == old(closed) + [old(who)[s]]
    {
      if s == INVALID {
        assert s !in who;
        return;
      }
      ghost var before := who;
      closed := closed + [who[s]];
      who := who - {s};
      forall x: nat | x < next
        ensures x in closed || Open(x)
      {
        assert x in old(closed) || old(Open(x));
        if x !in closed {
          var t :| t in before && before[t] == x;
          assert t in who && who[t] == x;
        }
      }
    }

    /** `socket`. */
    method Socket() returns (s: int)
      requires Valid()
      modifies `tick, `who, `next, `log
      ensures Valid() && (s == INVALID || s >= 0)
      ensures s == INVALID ==> who == old(who) && next == old(next)
      ensures s != INVALID ==> s !in old(who) && who == old(who)[s := old(next)] && next == old(next) + 1
      ensures log == old(log).(sockets := old(log).sockets + 1)
    {
      s := New();
      log := log.(sockets := log.sockets + 1);
    }

    /** `accept` on an open listener: a new socket is due to authenticate. */
    method Accept(listener: int) returns (s: int)
      requires Valid() && listener in who
      modifies `tick, `who, `next, `log
      ensures Valid() && (s == INVALID || s >= 0)
      ensures s == INVALID ==> who == old(who) && next == old(next)
      ensures s != INVALID ==> s !in old(who) && who == old(who)[s := old(next)] && next == old(next) + 1
      ensures log == old(log).(seen := old(log).seen + [old(who)[listener]],
                               due := old(log).due + if s != INVALID then [old(next)] else [])
    {
      log := log.(seen := log.seen + [who[listener]]);
      s := New();
      if s != INVALID {
        log := log.(due := log.due + [who[s]]);
      }
    }

    /** Reading the error of an open socket: without one it is due to authenticate. */
    method SocketError(s: int) returns (err: int)
      requires s in who
      modifies `tick, `log
      ensures log == old(log).(seen := old(log).seen + [who[s]], due := old(log).due + if err == 0 then [who[s]] else [])
    {
      err := Event();
      log := log.(seen := log.seen + [who[s]], due := log.due + if err == 0 then [who[s]] else []);
    }

    /** `ft_auth_send` or `ft_auth_recv` on an open socket. */
    method Authenticate(s: int) returns (ok: bool)
      requires s in who
      modifies `tick, `passed, `log
      ensures passed == old(passed) + if ok then {who[s]} else {}
      ensures log == old(log).(tried := old(log).tried + [who[s]], outcomes := old(log).outcomes + [ok])
    {
      var v := Event();
      ok := v == 0;
      if ok {
        passed := passed + {who[s]};
      }
      log := log.(tried := log.tried + [who[s]], outcomes := log.outcomes + [ok]);
    }

    /** `poll` on the listed descriptors; negative ones are ignored. */
    method Poll(fds: seq<int>, ms: int) returns (revents: seq<bool>)
      requires forall i :: 0 <= i < |fds| && fds[i] >= 0 ==> fds[i] in who
      modifies `tick, `log
      ensures |revents| == |fds| && forall i :: 0 <= i < |fds| && revents[i] ==> fds[i] >= 0
      ensures log == old(log).(ready := old(log).ready + ReadyFrom(who, fds, revents, 0),
                               waits := old(log).waits + [Wait(Asked(fds), who.Keys, ms)])
    {
      revents := [];
      for i := 0 to |fds|
        invariant |revents| == i && log == old(log) && forall j :: 0 <= j < i && revents[j] ==> fds[j] >= 0
      {
        var v := Event();
        revents := revents + [fds[i] >= 0 && v != 0];
      }
      log := log.(ready := log.ready + ReadyFrom(who, fds, revents, 0), waits := log.waits + [Wait(Asked(fds), who.Keys, ms)]);
    }

    /** `ft_now_ms`; when the readings are used up, `late` has come. */
    method Now(late: int) returns (ms: int)
      modifies `reading, `log
      ensures reading == old(reading) + 1
      ensures old(reading) >= |clock| ==> ms == late
      ensures log == old(log).(times := old(log).times + [ms])
    {
      ms := if reading < |clock| then clock[reading] else late;
      reading := reading + 1;
      log := log.(times := log.times + [ms]);
    }
  }

  /** The sockets reported from descriptor number `i` on. */
  ghost function ReadyFrom(who: map<int, nat>, fds: seq<int>, revents: seq<bool>, i: nat): seq<nat>
    requires i <= |fds| == |revents|
    decreases |fds| - i
  {
    if i == |fds| then []
    else (if revents[i] && fds[i] in who then [who[fds[i]]] else []) + ReadyFrom(who, fds, revents, i + 1)
  }

  ghost function Asked(fds: seq<int>): set<int> {
    set i | 0 <= i < |fds| && fds[i] >= 0 :: fds[i]
  }

  // ---- Ownership ---------------------------------------------------------------------------

  ghost function Held(socks: seq<int>): set<int> {
    set i | 0 <= i < |socks| && socks[i] != INVALID :: socks[i]
  }

  ghost predicate NoneTwice(socks: seq<int>) {
    forall i, j :: 0 <= i < j < |socks| && socks[i] != INVALID ==> socks[i] != socks[j]
  }

  /** The race holds `socks`, each once, and nothing else changed: the other descriptors are those of
      `base`.  What it holds are sockets numbered `start` or later, or the punched socket `punched`. */
  ghost predicate Holding(k: Kernel, base: map<int, nat>, start: nat, punched: int, socks: seq<int>)
    reads k`who, k`next, k`closed
  {
    && k.Valid() && start <= k.next && NoneTwice(socks)
    && base.Keys !! Held(socks) && k.who.Keys == base.Keys + Held(socks)
    && (forall s :: s in base ==> k.who[s] == base[s])
    && (forall s :: s in Held(socks) ==> k.who[s] >= start || k.who[s] == punched)
  }

  /** An empty place filled. */
  lemma HeldFill(socks: seq<int>, i: nat, c: int)
    requires i < |socks| && socks[i] == INVALID && NoneTwice(socks) && (c == INVALID || c !in Held(socks))
    ensures Held(socks[i := c]) == (if c == INVALID then Held(socks) else Held(socks) + {c}) && NoneTwice(socks[i := c])
  {
    var more := socks[i := c];
    if c == INVALID {
      assert more == socks;
    } else {
      forall x
        ensures x in Held(more) <==> x in Held(socks) || x == c
      {
        if x in Held(socks) {
          var j :| 0 <= j < |socks| && socks[j] == x;
          assert more[j] == x;
        }
        assert more[i] == c;
      }
    }
  }

  /** One more empty place. */
  lemma HeldPad(socks: seq<int>)
    requires NoneTwice(socks)
    ensures Held(socks + [INVALID]) == Held(socks) && NoneTwice(socks + [INVALID])
  {
    var more := socks + [INVALID];
    forall x | x in Held(socks)
      ensures x in Held(more)
    {
      var j :| 0 <= j < |socks| && socks[j] == x;
      assert more[j] == x;
    }
  }

  /** A place given up. */
  lemma HeldLess(socks: seq<int>, i: nat)
    requires i < |socks| && NoneTwice(socks)
    ensures Held(socks[i := INVALID]) == Held(socks) - {socks[i]} && NoneTwice(socks[i := INVALID])
  {
    var less := socks[i := INVALID];
    forall x
      ensures x in Held(less) <==> x in Held(socks) && x != socks[i]
    {
      if x in Held(socks) && x != socks[i] {
        var j :| 0 <= j < |socks| && socks[j] == x;
        assert less[j] == x;
      }
    }
  }

  // ---- The race ----------------------------------------------------------------------------

  /** Descriptors were closed at most: the others belong to the same sockets. */
  ghost predicate Fewer(now: map<int, nat>, before: map<int, nat>) {
    now.Keys <= before.Keys && forall s :: s in now ==> now[s] == before[s]
  }

  /** What was reported and not looked at yet is `waiting`; whoever was due has authenticated; and all failed,
      or all but the last one, which is the winner. */
  ghost predicate Fair(log: Log, waiting: seq<nat>, winner: int) {
    && log.ready == log.seen + waiting && log.due == log.tried && Decided(log.tried, log.outcomes, winner)
  }

  ghost predicate Decided(tried: seq<nat>, outcomes: seq<bool>, winner: int) {
    && |outcomes| == |tried|
    && (forall i :: 0 <= i < |outcomes| - 1 ==> !outcomes[i])
    && (outcomes == [] ==> winner < 0)
    && (outcomes != [] ==> (outcomes[|outcomes| - 1] <==> winner >= 0))
    && (winner >= 0 ==> tried[|tried| - 1] == winner)
  }

  ghost function Winner(k: Kernel, result: int): int
    reads k`who
  {
    if result != INVALID && result in k.who then k.who[result] else -1
  }

  /** The places: the punched socket, the result, and the candidates. */
  ghost function Places(nat_sock: int, result: int, conn: seq<int>): seq<int> {
    [nat_sock, result] + conn
  }

  /** The race holds its sockets, is fair so far, and only the result passed. */
  ghost predicate Racing(k: Kernel, base: map<int, nat>, start: nat, punched: int, nat_sock: int, result: int, conn: seq<int>, waiting: seq<nat>)
    reads k`who, k`next, k`closed, k`passed, k`log
  {
    && Holding(k, base, start, punched, Places(nat_sock, result, conn)) && (result == INVALID || result in k.who)
    && Fair(k.log, waiting, Winner(k, result)) && k.passed == if result == INVALID then {} else {Winner(k, result)}
  }

  /** A new socket takes an empty place. */
  lemma Placed(k: Kernel, before: map<int, nat>, base: map<int, nat>, start: nat, punched: int, socks: seq<int>, i: nat, c: int)
    requires k.Valid() && start <= k.next && NoneTwice(socks) && i < |socks| && socks[i] == INVALID
    requires base.Keys !! Held(socks) && before.Keys == base.Keys + Held(socks) && (forall s :: s in base ==> before[s] == base[s])
    requires forall s :: s in Held(socks) ==> before[s] >= start || before[s] == punched
    requires if c == INVALID then k.who == before else c !in before && start <= k.next - 1 && k.who == before[c := k.next - 1]
    ensures Holding(k, base, start, punched, socks[i := c])
  {
    hide Held, NoneTwice, Kernel.Valid;
    HeldFill(socks, i, c);
  }

  /** The socket at a place is closed. */
  method CloseAt(k: Kernel, s: int, ghost base: map<int, nat>, ghost start: nat, ghost punched: int, ghost socks: seq<int>, ghost i: nat)
    requires Holding(k, base, start, punched, socks) && i < |socks| && socks[i] == s != INVALID
    modifies k`who, k`closed
    ensures Holding(k, base, start, punched, socks[i := INVALID]) && k.who == old(k.who) - {s}
  {
    hide NoneTwice, Kernel.Valid;
    HeldLess(socks, i);
    assert s in Held(socks);
    k.Close(s);
  }

  /** `try_authenticate` on the socket at a place: it passes, or it is closed. */
  method TryAuthenticate(k: Kernel, c: int, ghost base: map<int, nat>, ghost start: nat, ghost punched: int, ghost socks: seq<int>, ghost i: nat)
    returns (r: int)
    requires Holding(k, base, start, punched, socks) && i < |socks| && socks[i] == c != INVALID && c in k.who
    modifies k`tick, k`passed, k`who, k`closed, k`log
    ensures r == 0 || r == -1
    ensures r == 0 ==> Holding(k, base, start, punched, socks) && k.who == old(k.who)
    ensures r == -1 ==> Holding(k, base, start, punched, socks[i := INVALID]) && k.who == old(k.who) - {c}
    ensures k.passed == old(k.passed) + if r == 0 then {old(k.who)[c]} else {}
    ensures k.log == old(k.log).(tried := old(k.log).tried + [old(k.who)[c]], outcomes := old(k.log).outcomes + [r == 0])
  {
    hide Held, NoneTwice, Kernel.Valid;
    var ok := k.Authenticate(c);
    if ok {
      return 0;
    }
    CloseAt(k, c, base, start, punched, socks, i);
    return -1;
  }

  /** After an attempt on the socket that was due. */
  lemma Tried(tried: seq<nat>, outcomes: seq<bool>, x: nat, ok: bool)
    requires Decided(tried, outcomes, -1)
    ensures Decided(tried + [x], outcomes + [ok], if ok then x else -1)
  {
  }

  /** Sockets for the candidate addresses that can be parsed, one call of `socket` each. */
  method ConnectAll(k: Kernel, parsed: seq<bool>, ghost base: map<int, nat>, ghost start: nat, ghost punched: int, ghost others: seq<int>)
    returns (conn_socks: array<int>)
    requires Holding(k, base, start, punched, others)
    modifies k`tick, k`who, k`next, k`log
    ensures fresh(conn_socks) && conn_socks.Length == |parsed|
    ensures Holding(k, base, start, punched, others + conn_socks[..])
    ensures k.log == old(k.log).(sockets := old(k.log).sockets + Trues(parsed))
    ensures forall i :: 0 <= i < |parsed| && !parsed[i] ==> conn_socks[i] == INVALID
  {
    hide Held, NoneTwice, Kernel.Valid;
    conn_socks := new int[|parsed|];
    assert others + conn_socks[..0] == others;
    for i := 0 to |parsed|
      invariant Holding(k, base, start, punched, others + conn_socks[..i])
      invariant k.log == old(k.log).(sockets := old(k.log).sockets + Trues(parsed[..i]))
      invariant forall j :: 0 <= j < i && !parsed[j] ==> conn_socks[j] == INVALID
    {
      ghost var socks := others + conn_socks[..i];
      HeldPad(socks);
      ghost var before := k.who;
      var c := INVALID;
      if parsed[i] {
        c := k.Socket();
      }
      Placed(k, before, base, start, punched, socks + [INVALID], |socks|, c);
      conn_socks[i] := c;
      assert (socks + [INVALID])[|socks| := c] == socks + [c];
      assert others + conn_socks[..i + 1] == socks + [c];
      assert parsed[..i + 1][..i] == parsed[..i];
    }
    assert conn_socks[..|parsed|] == conn_socks[..] && parsed[..|parsed|] == parsed;
  }

  function Trues(s: seq<bool>): nat {
    if s == [] then 0 else Trues(s[..|s| - 1]) + if s[|s| - 1] then 1 else 0
  }

  /** The listener's turn: an accepted connection may become the result. */
  method AcceptTurn(k: Kernel, listen_fd: int, ghost base: map<int, nat>, ghost start: nat, ghost punched: int,
                    ghost nat_sock: int, ghost conn: seq<int>, ghost waiting: seq<nat>)
    returns (result: int)
    requires listen_fd in k.who && Racing(k, base, start, punched, nat_sock, INVALID, conn, [k.who[listen_fd]] + waiting)
    modifies k`tick, k`who, k`next, k`passed, k`closed, k`log
    ensures Racing(k, base, start, punched, nat_sock, result, conn, waiting) && Fewer(old(k.who), k.who)
    ensures k.log.waits == old(k.log).waits && k.log.times == old(k.log).times && k.log.sockets == old(k.log).sockets
  {
    hide Held, NoneTwice, Kernel.Valid, Decided;
    result := INVALID;
    ghost var socks := Places(nat_sock, INVALID, conn);
    ghost var before := k.who;
    ghost var ready := k.log.ready;
    assert INVALID !in before by { NoInvalid(k); }
    var c := k.Accept(listen_fd);
    Placed(k, before, base, start, punched, socks, 1, c);
    assert socks[1 := c] == Places(nat_sock, c, conn);
    assert ready == k.log.seen + waiting;
    if c != INVALID {
      ghost var log := k.log;
      var r := TryAuthenticate(k, c, base, start, punched, socks[1 := c], 1);
      Tried(log.tried, log.outcomes, before[c := k.next - 1][c], r == 0);
      assert socks[1 := c][1 := INVALID] == socks;
      if r == 0 {
        result := c;
      } else {
        assert k.who == before;
      }
    }
  }

  lemma NoInvalid(k: Kernel)
    requires k.Valid()
    ensures INVALID !in k.who
  {
  }

  /** The socket at place `i` becomes the result. */
  lemma Promoted(k: Kernel, base: map<int, nat>, start: nat, punched: int, socks: seq<int>, i: nat)
    requires Holding(k, base, start, punched, socks) && 1 < |socks| && i < |socks| && i != 1 && socks[1] == INVALID
    ensures Holding(k, base, start, punched, socks[i := INVALID][1 := socks[i]])
  {
    HeldLess(socks, i);
    HeldFill(socks[i := INVALID], 1, socks[i]);
    if socks[i] != INVALID {
      assert socks[i] in Held(socks);
    }
  }

  /** A connecting socket's turn, when it is writable or has failed: it authenticates and becomes the
      result, or it is closed. */
  method ConnectTurn(k: Kernel, s: int, ghost base: map<int, nat>, ghost start: nat, ghost punched: int, ghost socks: seq<int>, ghost i: nat,
                     ghost waiting: seq<nat>)
    returns (result: int)
    requires Holding(k, base, start, punched, socks) && 1 < |socks| && i < |socks| && i != 1 && socks[1] == INVALID && socks[i] == s != INVALID
    requires s in k.who && Fair(k.log, [k.who[s]] + waiting, -1) && k.passed == {}
    modifies k`tick, k`who, k`passed, k`closed, k`log
    ensures Holding(k, base, start, punched, socks[i := INVALID][1 := result]) && Fewer(k.who, old(k.who))
    ensures result == INVALID || (result == s && s in k.who)
    ensures Fair(k.log, waiting, if result == INVALID then -1 else k.who[s])
    ensures k.passed == if result == INVALID then {} else {k.who[s]}
    ensures k.log.waits == old(k.log).waits && k.log.times == old(k.log).times && k.log.sockets == old(k.log).sockets
  {
    hide Holding, Decided;
    result := INVALID;
    assert socks[i := INVALID][1 := INVALID] == socks[i := INVALID];
    ghost var ready, x := k.log.ready, k.who[s];
    var err := k.SocketError(s);
    assert ready == k.log.seen + waiting;
    if err == 0 {
      ghost var log := k.log;
      var r := TryAuthenticate(k, s, base, start, punched, socks, i);
      Tried(log.tried, log.outcomes, x, r == 0);
      if r == 0 {
        Promoted(k, base, start, punched, socks, i);
        result := s;
      }
    } else {
      CloseAt(k, s, base, start, punched, socks, i);
    }
  }

  /** What `poll` was asked for: the listener, the candidates, and the punched socket. */
  function Waited(listen_fd: int, conn: seq<int>, nat_sock: int): seq<int> {
    (if listen_fd != INVALID then [listen_fd] else []) + conn + if nat_sock != INVALID then [nat_sock] else []
  }

  /** Both maps know the same sockets, as far as they know the descriptor. */
  ghost predicate Agree(now: map<int, nat>, before: map<int, nat>) {
    forall s :: s in now && s in before ==> now[s] == before[s]
  }

  lemma ReadyHead(who: map<int, nat>, fds: seq<int>, revents: seq<bool>, i: nat)
    requires i < |fds| == |revents| && (revents[i] ==> fds[i] in who)
    ensures ReadyFrom(who, fds, revents, i)
         == if revents[i] then [who[fds[i]]] + ReadyFrom(who, fds, revents, i + 1) else ReadyFrom(who, fds, revents, i + 1)
  {
    assert [] + ReadyFrom(who, fds, revents, i + 1) == ReadyFrom(who, fds, revents, i + 1);
  }

  /** The candidates' turns, until there is a result: those reported ready, in order. */
  method ConnectTurns(k: Kernel, conn_socks: array<int>, ghost fds: seq<int>, revents: seq<bool>, first: nat, result0: int,
                      ghost base: map<int, nat>, ghost start: nat, ghost punched: int, ghost nat_sock: int, ghost polled: map<int, nat>)
    returns (result: int, ghost upto: nat)
    requires first + conn_socks.Length <= |revents| == |fds| && fds[first..first + conn_socks.Length] == conn_socks[..]
    requires forall i :: 0 <= i < |fds| && revents[i] ==> fds[i] >= 0 && fds[i] in polled
    requires Racing(k, base, start, punched, nat_sock, result0, conn_socks[..], ReadyFrom(polled, fds, revents, first))
    requires Agree(k.who, polled)
    modifies k`tick, k`who, k`passed, k`closed, k`log, conn_socks
    ensures upto <= |fds| && Racing(k, base, start, punched, nat_sock, result, conn_socks[..], ReadyFrom(polled, fds, revents, upto))
    ensures result == INVALID ==> upto == first + conn_socks.Length
    ensures Agree(k.who, polled)
    ensures k.log.waits == old(k.log).waits && k.log.times == old(k.log).times && k.log.sockets == old(k.log).sockets
  {
    hide Holding, Fair, ReadyFrom, Kernel.Valid;
    result := result0;
    var i, idx := 0, first;
    while i < conn_socks.Length && result == INVALID
      invariant 0 <= i <= conn_socks.Length && idx == first + i
      invariant forall j :: i <= j < conn_socks.Length ==> conn_socks[j] == fds[first + j]
      invariant Racing(k, base, start, punched, nat_sock, result, conn_socks[..], ReadyFrom(polled, fds, revents, idx))
      invariant Agree(k.who, polled)
      invariant k.log.waits == old(k.log).waits && k.log.times == old(k.log).times && k.log.sockets == old(k.log).sockets
      decreases conn_socks.Length - i
    {
      ReadyHead(polled, fds, revents, idx);
      if conn_socks[i] != INVALID && revents[idx] {
        ghost var conn := conn_socks[..];
        ghost var socks := Places(nat_sock, INVALID, conn);
        var c := conn_socks[i];
        HeldOpen(k, base, start, punched, socks, 2 + i);
        conn_socks[i] := INVALID;
        result := ConnectTurn(k, c, base, start, punched, socks, 2 + i, ReadyFrom(polled, fds, revents, idx + 1));
        assert socks[2 + i := INVALID][1 := result] == Places(nat_sock, result, conn_socks[..]);
      }
      idx := idx + 1;
      i := i + 1;
    }
    upto := idx;
  }

  lemma HeldOpen(k: Kernel, base: map<int, nat>, start: nat, punched: int, socks: seq<int>, i: nat)
    requires Holding(k, base, start, punched, socks) && i < |socks| && socks[i] != INVALID
    ensures socks[i] in k.who && socks[i] !in base
  {
    assert socks[i] in Held(socks);
  }

  /** The descriptors to wait for, and the place of the punched socket among them. */
  method Waiting(listen_fd: int, conn_socks: array<int>, nat_sock: int) returns (fds: seq<int>, nat_idx: int)
    ensures fds == Waited(listen_fd, conn_socks[..], nat_sock)
    ensures nat_idx == if nat_sock != INVALID then |fds| - 1 else -1
  {
    fds := [];
    if listen_fd != INVALID {
      fds := fds + [listen_fd];
    }
    ghost var front := fds;
    for i := 0 to conn_socks.Length
      invariant fds == front + conn_socks[..i]
    {
      fds := fds + [conn_socks[i]];
    }
    assert conn_socks[..conn_socks.Length] == conn_socks[..];
    nat_idx := -1;
    if nat_sock != INVALID {
      nat_idx := |fds|;
      fds := fds + [nat_sock];
    }
  }

  /** The race waits for the listener and for everything it holds, and for nothing else. */
  lemma WaitsForAll(k: Kernel, base: map<int, nat>, start: nat, punched: int, listen_fd: int, conn: seq<int>, nat_sock: int)
    requires Holding(k, base, start, punched, Places(nat_sock, INVALID, conn)) && (listen_fd == INVALID || listen_fd in base)
    ensures var fds := Waited(listen_fd, conn, nat_sock);
            && (forall i :: 0 <= i < |fds| && fds[i] >= 0 ==> fds[i] in k.who)
            && Asked(fds) == (k.who.Keys - base.Keys) + if listen_fd == INVALID then {} else {listen_fd}
  {
    var fds, socks := Waited(listen_fd, conn, nat_sock), Places(nat_sock, INVALID, conn);
    var first := if listen_fd != INVALID then 1 else 0;
    assert forall s :: s in k.who ==> s >= 0;
    forall i | 0 <= i < |fds| && fds[i] >= 0
      ensures fds[i] == listen_fd || fds[i] in Held(socks)
    {
      if i < first {
      } else if i < first + |conn| {
        assert socks[2 + i - first] == fds[i];
      } else {
        assert socks[0] == fds[i];
      }
    }
    forall s | s in Held(socks)
      ensures s in Asked(fds)
    {
      var j :| 0 <= j < |socks| && socks[j] == s;
      assert s in k.who;
      if j >= 2 {
        assert fds[first + j - 2] == s;
      } else if j == 0 {
        assert fds[|fds| - 1] == s;
      }
    }
    if listen_fd != INVALID {
      assert listen_fd in k.who && fds[0] == listen_fd;
    }
  }

  /** One turn of the race: wait, accept, look at the candidates, look at the punched socket.  Without a result
      everything reported was looked at; with one, everything reported before it. */
  method Turn(k: Kernel, listen_fd: int, conn_socks: array<int>, nat_sock: int, poll_ms: int,
              ghost base: map<int, nat>, ghost start: nat, ghost punched: int)
    returns (nat_sock': int, result: int, ghost waiting: seq<nat>)
    requires Racing(k, base, start, punched, nat_sock, INVALID, conn_socks[..], []) && (listen_fd == INVALID || listen_fd in base)
    modifies k`tick, k`who, k`next, k`passed, k`closed, k`log, conn_socks
    ensures Racing(k, base, start, punched, nat_sock', result, conn_socks[..], waiting) && (result == INVALID ==> waiting == [])
    ensures k.log.times == old(k.log).times && k.log.sockets == old(k.log).sockets
    ensures exists w :: k.log.waits == old(k.log).waits + [w] && WaitOk(w, base.Keys, listen_fd) && w.ms == poll_ms
  {
    hide Holding, Fair, ReadyFrom, Kernel.Valid, Asked, Waited;
    nat_sock', result := nat_sock, INVALID;
    var fds, nat_idx := Waiting(listen_fd, conn_socks, nat_sock);
    WaitsForAll(k, base, start, punched, listen_fd, conn_socks[..], nat_sock);
    WaitedParts(listen_fd, conn_socks[..], nat_sock);
    ghost var polled, before := k.who, k.log;
    var revents := k.Poll(fds, poll_ms);
    Reported(before, k.log, ReadyFrom(polled, fds, revents, 0));
    ghost var w := Wait(Asked(fds), polled.Keys, poll_ms);
    assert WaitOk(w, base.Keys, listen_fd) && k.log.waits == before.waits + [w];
    var idx := 0;
    if listen_fd != INVALID {
      ReadyHead(polled, fds, revents, 0);
      if revents[idx] {
        result := AcceptTurn(k, listen_fd, base, start, punched, nat_sock, conn_socks[..], ReadyFrom(polled, fds, revents, 1));
      }
      idx := idx + 1;
    }
    ghost var upto;
    result, upto := ConnectTurns(k, conn_socks, fds, revents, idx, result, base, start, punched, nat_sock, polled);
    waiting := ReadyFrom(polled, fds, revents, upto);
    if result == INVALID {
      ReadyNone(polled, fds, revents);
      if nat_idx >= 0 {
        ReadyHead(polled, fds, revents, nat_idx);
        if revents[nat_idx] {
          ghost var socks := Places(nat_sock, INVALID, conn_socks[..]);
          nat_sock' := INVALID;
          HeldOpen(k, base, start, punched, socks, 0);
          result := ConnectTurn(k, nat_sock, base, start, punched, socks, 0, []);
          assert socks[0 := INVALID][1 := result] == Places(INVALID, result, conn_socks[..]);
        }
        waiting := [];
      }
    }
  }

  /** A wait for the listener and for all open descriptors but the caller's. */
  ghost predicate WaitOk(w: Wait, others: set<int>, listen_fd: int) {
    w.asked == (w.open - others) + if listen_fd == INVALID then {} else {listen_fd}
  }

  lemma WaitedParts(listen_fd: int, conn: seq<int>, nat_sock: int)
    ensures var fds := Waited(listen_fd, conn, nat_sock);
            var first := if listen_fd != INVALID then 1 else 0;
            && |fds| == first + |conn| + (if nat_sock != INVALID then 1 else 0)
            && fds[first..first + |conn|] == conn
            && (listen_fd != INVALID ==> fds[0] == listen_fd) && (nat_sock != INVALID ==> fds[|fds| - 1] == nat_sock)
  {
  }

  lemma Reported(before: Log, after: Log, ready: seq<nat>)
    requires Fair(before, [], -1) && after.ready == before.ready + ready && after == before.(ready := after.ready, waits := after.waits)
    ensures Fair(after, ready, -1)
  {
    assert before.seen + [] == before.seen;
  }

  lemma ReadyNone(who: map<int, nat>, fds: seq<int>, revents: seq<bool>)
    requires |fds| == |revents|
    ensures ReadyFrom(who, fds, revents, |fds|) == []
  {
  }

  /** What is still held apart from the result is closed. */
  method CloseRest(k: Kernel, conn_socks: array<int>, nat_sock: int, ghost result: int,
                   ghost base: map<int, nat>, ghost start: nat, ghost punched: int, ghost waiting: seq<nat>)
    requires Racing(k, base, start, punched, nat_sock, result, conn_socks[..], waiting)
    modifies k`who, k`closed, conn_socks
    ensures Racing(k, base, start, punched, INVALID, result, conn_socks[..], waiting)
    ensures forall j :: 0 <= j < conn_socks.Length ==> conn_socks[j] == INVALID
  {
    hide Holding, Fair;
    for i := 0 to conn_socks.Length
      invariant Racing(k, base, start, punched, nat_sock, result, conn_socks[..], waiting)
      invariant forall j :: 0 <= j < i ==> conn_socks[j] == INVALID
    {
      if conn_socks[i] != INVALID {
        ghost var socks := Places(nat_sock, result, conn_socks[..]);
        ResultApart(k, base, start, punched, socks, 2 + i);
        CloseAt(k, conn_socks[i], base, start, punched, socks, 2 + i);
        conn_socks[i] := INVALID;
        assert socks[2 + i := INVALID] == Places(nat_sock, result, conn_socks[..]);
      }
    }
    if nat_sock != INVALID {
      ghost var socks := Places(nat_sock, result, conn_socks[..]);
      ResultApart(k, base, start, punched, socks, 0);
      CloseAt(k, nat_sock, base, start, punched, socks, 0);
      assert socks[0 := INVALID] == Places(INVALID, result, conn_socks[..]);
    }
  }

  lemma ResultApart(k: Kernel, base: map<int, nat>, start: nat, punched: int, socks: seq<int>, i: nat)
    requires Holding(k, base, start, punched, socks) && 1 < |socks| && i < |socks| && i != 1 && socks[i] != INVALID
    ensures socks[i] != socks[1]
  {
  }

  /** Only the result is left. */
  lemma OnlyResult(result: int, conn: seq<int>)
    requires forall j :: 0 <= j < |conn| ==> conn[j] == INVALID
    ensures Held(Places(INVALID, result, conn)) == if result == INVALID then {} else {result}
  {
    var socks := Places(INVALID, result, conn);
    assert socks[1] == result;
    forall i | 0 <= i < |socks| && i != 1
      ensures socks[i] == INVALID
    {
      assert i >= 2 ==> socks[i] == conn[i - 2];
    }
  }

  /** The sockets at the start: the punched one is handed over, everything else stays with the caller. */
  lemma HandOver(k: Kernel, nat_sock: int)
    requires k.Valid() && (nat_sock == INVALID || nat_sock in k.who)
    ensures Holding(k, k.who - {nat_sock}, k.next, if nat_sock == INVALID then -1 else k.who[nat_sock], [nat_sock, INVALID])
    ensures forall s :: s in k.who && s != nat_sock ==> k.who[s] < k.next && (nat_sock != INVALID ==> k.who[s] != k.who[nat_sock])
    ensures nat_sock != INVALID ==> k.who[nat_sock] < k.next
  {
    var socks := [nat_sock, INVALID];
    assert socks[0] == nat_sock;
    assert Held(socks) == if nat_sock == INVALID then {} else {nat_sock};
    assert INVALID !in k.who;
  }

  /** The waits so far: each for the listener and everything held, for at most 50 milliseconds and not beyond
      the deadline, and each after a reading of the clock before the deadline. */
  ghost predicate OnTime(log: Log, turns: nat, others: set<int>, listen_fd: int, timeout_ms: int) {
    && |log.waits| == turns && |log.times| >= 1 + turns
    && (forall i :: 0 <= i < turns ==>
          && WaitOk(log.waits[i], others, listen_fd)
          && log.times[i + 1] - log.times[0] < timeout_ms
          && 0 < log.waits[i].ms <= 50 && log.times[i + 1] + log.waits[i].ms <= log.times[0] + timeout_ms)
  }

  lemma OneTurn(before: Log, after: Log, turns: nat, others: set<int>, listen_fd: int, timeout_ms: int, now: int, w: Wait)
    requires OnTime(before, turns, others, listen_fd, timeout_ms) && |before.times| == 1 + turns && WaitOk(w, others, listen_fd)
    requires after.times == before.times + [now] && after.waits == before.waits + [w]
    requires 0 < w.ms <= 50 && now + w.ms <= before.times[0] + timeout_ms
    ensures OnTime(after, turns + 1, others, listen_fd, timeout_ms) && after.times[0] == before.times[0]
  {
    hide WaitOk;
    forall i | 0 <= i < turns + 1
      ensures var o := after;
              && WaitOk(o.waits[i], others, listen_fd) && o.times[i + 1] - o.times[0] < timeout_ms
              && 0 < o.waits[i].ms <= 50 && o.times[i + 1] + o.waits[i].ms <= o.times[0] + timeout_ms
    {
      if i < turns {
        assert after.waits[i] == before.waits[i] && after.times[i + 1] == before.times[i + 1];
      } else {
        assert after.waits[i] == w && after.times[i + 1] == now;
      }
    }
  }

  lemma AllTurns(log: Log, turns: nat, others: set<int>, listen_fd: int, timeout_ms: int)
    requires OnTime(log, turns, others, listen_fd, timeout_ms)
    ensures |log.waits| == turns
  {
    hide WaitOk;
  }

  lemma Finished(log: Log, waiting: seq<nat>, winner: int)
    requires Fair(log, waiting, winner)
    ensures log.seen <= log.ready && (waiting == [] ==> log.seen == log.ready) && log.tried == log.due && Decided(log.tried, log.outcomes, winner)
  {
  }

  lemma StartsFair(log: Log, others: set<int>, listen_fd: int, timeout_ms: int, t0: int, sockets: nat)
    requires log == Log([], [], [], [], [], [], [t0], sockets)
    ensures Fair(log, [], -1) && OnTime(log, 0, others, listen_fd, timeout_ms)
  {
  }

  lemma OneReading(before: Log, after: Log, waiting: seq<nat>, turns: nat, others: set<int>, listen_fd: int, timeout_ms: int)
    requires Fair(before, waiting, -1) && OnTime(before, turns, others, listen_fd, timeout_ms) && |before.times| == 1 + turns
    requires |after.times| == 2 + turns && before.times <= after.times && after == before.(times := after.times)
    ensures Fair(after, waiting, -1) && OnTime(after, turns, others, listen_fd, timeout_ms) && after.times[0] == before.times[0]
  {
    hide WaitOk;
  }

  /** `ft_lan_transfer_auth` with a file id and a key, for whatever happens.
      Ownership: it returns nothing or one open socket that passed authentication; every other socket it opened,
      accepted or was handed has been closed exactly once; the caller's other sockets, the listener among them,
      are untouched.
      Progress: it calls `socket` for every parsed address and always waits for the listener and all it holds;
      what is reported is looked at in order, all of it if there is no result; whoever connected without error
      authenticates; the first to pass is the result; and it gives up only at the deadline. */
  method LanTransferAuth(k: Kernel, listen_fd: int, parsed: seq<bool>, nat_sock0: int, timeout_ms: int) returns (result: int)
    requires k.Valid()
    requires nat_sock0 == INVALID || (nat_sock0 in k.who && nat_sock0 != listen_fd)
    requires listen_fd == INVALID || listen_fd in k.who
    requires k.passed == {} && k.log == Log([], [], [], [], [], [], [], 0)
    modifies k
    ensures k.Valid()
    ensures result == INVALID ==> k.who == old(k.who) - {nat_sock0} && k.passed == {}
    ensures result != INVALID ==>
              && result in k.who && k.passed == {k.who[result]}
              && result !in old(k.who) - {nat_sock0}
              && k.who == (old(k.who) - {nat_sock0})[result := k.who[result]]
              && (k.who[result] >= old(k.next) || (nat_sock0 != INVALID && k.who[result] == old(k.who)[nat_sock0]))
    ensures forall x: nat :: old(k.next) <= x < k.next || (nat_sock0 != INVALID && x == old(k.who)[nat_sock0]) ==>
              x in k.closed || (result != INVALID && x == k.who[result])
    ensures listen_fd != INVALID ==> listen_fd in k.who && k.who[listen_fd] == old(k.who)[listen_fd] && k.who[listen_fd] !in k.closed
    ensures k.log.seen <= k.log.ready && (result == INVALID ==> k.log.seen == k.log.ready)
    ensures k.log.tried == k.log.due && Decided(k.log.tried, k.log.outcomes, if result == INVALID then -1 else k.who[result])
    ensures k.log.sockets == Trues(parsed)
    ensures OnTime(k.log, |k.log.waits|, old(k.who).Keys - {nat_sock0}, listen_fd, timeout_ms)
    ensures |k.log.times| == |k.log.waits| + if result == INVALID then 2 else 1
    ensures result == INVALID ==> k.log.times[|k.log.times| - 1] - k.log.times[0] >= timeout_ms
  {
    hide Holding, Fair, OnTime, Kernel.Valid;
    ghost var base, start := k.who - {nat_sock0}, k.next;
    ghost var punched := if nat_sock0 == INVALID then -1 else k.who[nat_sock0];
    HandOver(k, nat_sock0);
    NoInvalid(k);
    var nat_sock := nat_sock0;
    var conn_socks := ConnectAll(k, parsed, base, start, punched, [nat_sock, INVALID]);
    result := INVALID;
    var late := 0;
    var t0 := k.Now(late);
    late := t0 + timeout_ms;
    var step := 50;
    ghost var turns: nat, waiting := 0, [];
    StartsFair(k.log, base.Keys, listen_fd, timeout_ms, t0, Trues(parsed));
    while result == INVALID
      invariant Racing(k, base, start, punched, nat_sock, result, conn_socks[..], waiting) && fresh(conn_socks)
      invariant result == INVALID ==> waiting == []
      invariant OnTime(k.log, turns, base.Keys, listen_fd, timeout_ms) && |k.log.times| == 1 + turns && k.log.times[0] == t0
      invariant k.log.sockets == Trues(parsed)
      decreases result == INVALID, |k.clock| - k.reading
    {
      ghost var before := k.log;
      var now := k.Now(late);
      OneReading(before, k.log, waiting, turns, base.Keys, listen_fd, timeout_ms);
      var remaining := timeout_ms - (now - t0);
      if remaining <= 0 {
        break;
      }
      var poll_ms := if step < remaining then step else remaining;
      nat_sock, result, waiting := Turn(k, listen_fd, conn_socks, nat_sock, poll_ms, base, start, punched);
      ghost var w :| k.log.waits == before.waits + [w] && WaitOk(w, base.Keys, listen_fd) && w.ms == poll_ms;
      OneTurn(before, k.log, turns, base.Keys, listen_fd, timeout_ms, now, w);
      turns := turns + 1;
    }
    CloseRest(k, conn_socks, nat_sock, result, base, start, punched, waiting);
    OnlyResult(result, conn_socks[..]);
    Settled(k, base, start, punched, result, conn_socks[..], waiting);
    Finished(k.log, waiting, Winner(k, result));
    AllTurns(k.log, turns, base.Keys, listen_fd, timeout_ms);
  }

  lemma SameMap(a: map<int, nat>, b: map<int, nat>)
    requires a.Keys == b.Keys && forall s :: s in b ==> a[s] == b[s]
    ensures a == b
  {
    assert forall s :: s in a.Keys ==> a[s] == b[s];
  }

  lemma Settled(k: Kernel, base: map<int, nat>, start: nat, punched: int, result: int, conn: seq<int>, waiting: seq<nat>)
    requires Racing(k, base, start, punched, INVALID, result, conn, waiting)
    requires Held(Places(INVALID, result, conn)) == if result == INVALID then {} else {result}
    ensures k.Valid() && start <= k.next
    ensures result == INVALID ==> k.who == base && k.passed == {} && Winner(k, result) == -1
    ensures result != INVALID ==>
              && result in k.who && k.passed == {k.who[result]} && result !in base && k.who == base[result := k.who[result]]
              && (k.who[result] >= start || k.who[result] == punched)
    ensures forall x: nat :: x < k.next ==> x in k.closed || (exists s :: s in base && base[s] == x) || (result != INVALID && x == k.who[result])
  {
    NoInvalid(k);
    assert k.who.Keys == base.Keys + Held(Places(INVALID, result, conn));
    if result == INVALID {
      assert k.who.Keys == base.Keys;
      SameMap(k.who, base);
    } else {
      assert result in Held(Places(INVALID, result, conn));
      assert k.who.Keys == base[result := k.who[result]].Keys;
      SameMap(k.who, base[result := k.who[result]]);
    }
    forall x: nat | x < k.next && x !in k.closed
      ensures (exists s :: s in base && base[s] == x) || (result != INVALID && x == k.who[result])
    {
      assert k.Open(x);
      var s :| s in k.who && k.who[s] == x;
      if s in base {
        assert base[s] == x;
      }
    }
  }
}
