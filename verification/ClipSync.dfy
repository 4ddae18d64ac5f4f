/** Clipboard sync as a step system: any number of polling Linux clients, the server, and the messages
    between them.  Each receipt, each poll and each server action is one step. */
module ClipSync {
  import opened Bits
  import opened ClipServer

  /** The cryptography, as functions: a digest of the text, and encryption under the key that the devices
      of one user share (with a nonce; it may fail).  Reading tries GCM first and then the older CBC. */
  datatype Crypto = Crypto(digest: cstring -> seq<byte>,
                           seal: (User, cstring, nat) -> Option<Cipher>,
                           openGcm: (User, Cipher) -> Option<cstring>,
                           openCbc: (User, Cipher) -> Option<cstring>)
  {
    function Open(user: User, c: Cipher): Option<cstring> {
      if openGcm(user, c).Some? then openGcm(user, c) else openCbc(user, c)
    }

    ghost predicate Inverse() {
      forall u, t, n :: seal(u, t, n).Some? ==> openGcm(u, seal(u, t, n).value) == Some(t)
    }
  }

  const SUPPRESS_MS := 2000

  // ---- A client ----------------------------------------------------------------------------

  /** The text path of the Linux client in polling mode. */
  class Client {
    const user: User
    const device: Device
    const crypto: Crypto
    var clip: Option<cstring>
    var lastHash: seq<byte>
    var suppressUntil: int
    var nonce: nat
    var session: Option<SessionId>
    var queue: seq<Cipher>

    /** The texts the user copied here, the messages ever queued, and which copy each of them carries. */
    ghost var copied: seq<cstring>
    ghost var sent: seq<Cipher>
    ghost var sources: seq<nat>

    /** The next poll would send. */
    predicate Pending()
      reads `clip, `lastHash
    {
      clip.Some? && crypto.digest(clip.value) != lastHash
    }

    /** Every message carries a copy of its own, and what the next poll would send is the latest copy, not
        sent before.  The queue is the end of what was queued. */
    ghost predicate Calm()
      reads `clip, `lastHash, `queue, `copied, `sent, `sources
    {
      && Faithful(crypto, user, copied, sent, sources)
      && (Pending() ==> |copied| > 0 && clip == Some(copied[|copied| - 1])
                        && (sources != [] ==> sources[|sources| - 1] < |copied| - 1))
      && |queue| <= |sent| && queue == sent[|sent| - |queue|..]
    }

    /** How many messages left the queue. */
    ghost function Posted(): nat
      requires |queue| <= |sent|
      reads `queue, `sent
    {
      |sent| - |queue|
    }

    /** Message `k` of those ever queued left the queue. */
    ghost predicate HasPosted(k: nat, m: Cipher)
      reads `queue, `sent
    {
      |queue| <= |sent| && k < Posted() && sent[k] == m
    }

    /** The start of the clipboard monitor. */
    constructor (user: User, device: Device, crypto: Crypto, initial: Option<cstring>)
      ensures Calm() && this.user == user && this.device == device && this.crypto == crypto
      ensures clip == initial && session == None && queue == [] && copied == [] && sent == []
    {
      this.user, this.device, this.crypto := user, device, crypto;
      clip := initial;
      lastHash := if initial.Some? then crypto.digest(initial.value) else [];
      suppressUntil, nonce, session, queue := 0, 0, None, [];
      copied, sent, sources := [], [], [];
    }

    /** The user copies a text. */
    method Copy(text: cstring)
      requires Calm()
      modifies `clip, `copied
      ensures Calm() && copied == old(copied) + [text] && clip == Some(text)
    {
      hide Faithful;
      CopyKeeps(crypto, user, copied, sent, sources, text);
      clip := Some(text);
      copied := copied + [text];
    }

    /** A clipboard message arrives: the text is put on the clipboard and remembered, so that the poll does
        not take it for a copy. */
    method Receive(content: Cipher, now: int)
      requires Calm()
      modifies `clip, `lastHash, `suppressUntil
      ensures Calm()
      ensures clip == if crypto.openGcm(user, content).Some? then crypto.openGcm(user, content)
                      else if crypto.openCbc(user, content).Some? then crypto.openCbc(user, content)
                      else old(clip)
      ensures clip == if crypto.Open(user, content).Some? then crypto.Open(user, content) else old(clip)
      ensures if crypto.Open(user, content).Some? then !Pending() && suppressUntil == now + 2000
              else lastHash == old(lastHash) && suppressUntil == old(suppressUntil)
    {
      hide Faithful;
      var dec := crypto.openGcm(user, content);
      if dec.None? {
        dec := crypto.openCbc(user, content);
      }
      if dec.Some? {
        lastHash := crypto.digest(dec.value);
        suppressUntil := now + SUPPRESS_MS;
        clip := dec;
      }
    }

    /** One turn of the polling loop, text branch of `process_clipboard_change`: a text that is not the
        remembered one is remembered, encrypted and queued, once. */
    method Poll(now: int)
      requires Calm()
      modifies `lastHash, `nonce, `queue, `sent, `sources
      ensures Calm()
      ensures if session.Some? && suppressUntil <= now && old(Pending()) then
                var enc := crypto.seal(user, clip.value, nonce);
                && !Pending() && nonce == old(nonce) + 1
                && sent == old(sent) + Listed(enc) && queue == old(queue) + Listed(enc)
              else lastHash == old(lastHash) && nonce == old(nonce) && queue == old(queue) && sent == old(sent)
    {
      hide Faithful, Carries;
      if session.None? {
        return;
      }
      if now < suppressUntil {
        return;
      }
      if clip.None? {
        return;
      }
      var hash := crypto.digest(clip.value);
      if hash != lastHash {
        lastHash := hash;
        nonce := nonce + 1;
        var enc := crypto.seal(user, clip.value, nonce);
        if enc.Some? {
          SendKeeps(crypto, user, copied, sent, sources, nonce);
          assert sent[|sent| - |queue|..] + [enc.value] == (sent + [enc.value])[|sent| - |queue|..];
          queue := queue + [enc.value];
          sent, sources := sent + [enc.value], sources + [|copied| - 1];
        }
      }
    }

    /** The next queued message goes out. */
    method Post() returns (m: Cipher)
      requires Calm() && queue != []
      modifies `queue
      ensures Calm() && queue == old(queue)[1..] && m == old(queue)[0] && m == sent[old(Posted())]
    {
      hide Faithful, Pending;
      m := queue[0];
      queue := queue[1..];
    }

    /** The connection is made or lost. */
    method Connected(s: Option<SessionId>)
      requires Calm()
      modifies `session
      ensures Calm() && session == s
    {
      hide Calm;
      session := s;
    }
  }

  function Listed<T>(o: Option<T>): seq<T> {
    match o
    case Some(x) => [x]
    case None => []
  }

  /** Every message carries a copy of its own, in the order of copying. */
  ghost predicate Faithful(crypto: Crypto, user: User, copied: seq<cstring>, sent: seq<Cipher>, sources: seq<nat>) {
    && |sources| == |sent| && Increasing(sources)
    && forall k :: 0 <= k < |sent| ==> sources[k] < |copied| && Carries(crypto, user, copied[sources[k]], sent[k])
  }

  ghost predicate Carries(crypto: Crypto, user: User, text: cstring, m: Cipher) {
    exists n :: crypto.seal(user, text, n) == Some(m)
  }

  lemma CopyKeeps(crypto: Crypto, user: User, copied: seq<cstring>, sent: seq<Cipher>, sources: seq<nat>, text: cstring)
    requires Faithful(crypto, user, copied, sent, sources)
    ensures Faithful(crypto, user, copied + [text], sent, sources)
    ensures sources != [] ==> sources[|sources| - 1] < |copied|
  {
    hide Carries;
  }

  lemma SendKeeps(crypto: Crypto, user: User, copied: seq<cstring>, sent: seq<Cipher>, sources: seq<nat>, n: nat)
    requires Faithful(crypto, user, copied, sent, sources) && copied != []
    requires sources != [] ==> sources[|sources| - 1] < |copied| - 1
    requires crypto.seal(user, copied[|copied| - 1], n).Some?
    ensures Faithful(crypto, user, copied, sent + [crypto.seal(user, copied[|copied| - 1], n).value], sources + [|copied| - 1])
    ensures Carries(crypto, user, copied[|copied| - 1], crypto.seal(user, copied[|copied| - 1], n).value)
  {
    assert Carries(crypto, user, copied[|copied| - 1], crypto.seal(user, copied[|copied| - 1], n).value);
    hide Carries;
  }

  ghost predicate Increasing(s: seq<nat>) {
    forall i, j :: 0 <= i < j < |s| ==> s[i] < s[j]
  }

  lemma {:induction false} IncreasingBound(s: seq<nat>, bound: nat)
    requires Increasing(s) && forall i :: 0 <= i < |s| ==> s[i] < bound
    ensures |s| <= bound
    decreases |s|
  {
    if s != [] {
      IncreasingBound(s[..|s| - 1], s[|s| - 1]);
    }
  }

  /** A client never queued more messages than its user copied texts. */
  lemma SentAtMostCopied(c: Client)
    requires c.Calm()
    ensures |c.sent| <= |c.copied|
  {
    IncreasingBound(c.sources, |c.copied|);
  }

  // ---- The whole system --------------------------------------------------------------------

  /** A clipboard message the server handled: number `number` of those its client queued. */
  datatype Accepted = Accepted(session: SessionId, number: nat, content: Cipher)

  /** A message passed to a session.  It is number `origin` of those the server handled. */
  datatype Delivery = Delivery(to: SessionId, message: Message, origin: nat, live: bool)

  function Deliveries(sent: seq<SessionId>, m: Message, origin: nat): (r: seq<Delivery>)
    ensures |r| == |sent| && forall i :: 0 <= i < |r| ==> r[i] == Delivery(sent[i], m, origin, true)
  {
    seq(|sent|, i requires 0 <= i < |sent| => Delivery(sent[i], m, origin, true))
  }

  /** What was passed to one session, in order. */
  function Passed(log: seq<Delivery>, s: SessionId): (r: seq<Message>) {
    if log == [] then []
    else
      var last := log[|log| - 1];
      Passed(log[..|log| - 1], s) + if last.to == s then [last.message] else []
  }

  lemma PassedMore(log: seq<Delivery>, d: Delivery, s: SessionId)
    ensures Passed(log + [d], s) == Passed(log, s) + if d.to == s then [d.message] else []
  {
    assert (log + [d])[..|log|] == log;
  }

  /** Everything passed to a session was logged for it. */
  lemma {:induction false} PassedLogged(log: seq<Delivery>, s: SessionId, k: nat) returns (i: nat)
    requires k < |Passed(log, s)|
    ensures i < |log| && log[i].to == s && log[i].message == Passed(log, s)[k]
    decreases |log|
  {
    i := |log| - 1;
    if k < |Passed(log[..i], s)| {
      i := PassedLogged(log[..i], s, k);
    }
  }

  /** Every reachable session of the set but the sender, each once. */
  ghost predicate Exactly(sent: seq<SessionId>, sessions: set<SessionId>, sender: SessionId, reachable: SessionId -> bool) {
    && (forall i, j :: 0 <= i < j < |sent| ==> sent[i] != sent[j])
    && (forall s :: s in sent <==> s in sessions && s != sender && reachable(s))
  }

  datatype Event =
    | Copy(c: nat, text: cstring)
    | Poll(c: nat, now: int)
    | Connect(c: nat, id: SessionId, now: int)
    | Disconnect(c: nat)
    | Closed(id: SessionId)
    | Dispatch(c: nat, now: int, reachable: SessionId -> bool)
    | Receive(c: nat, now: int)
    | Evict(now: int)

  /** The texts copied at client `c` in a run. */
  function CopiedAt(events: seq<Event>, c: nat): (r: seq<cstring>) {
    if events == [] then []
    else
      var e := events[|events| - 1];
      CopiedAt(events[..|events| - 1], c) + if e.Copy? && e.c == c then [e.text] else []
  }

  class World {
    const crypto: Crypto
    const clients: seq<Client>
    const manager: SessionManager
    const cache: ClipboardCache

    /** Messages on their way to the clients. */
    var inbox: map<SessionId, seq<Message>>

    /** The client of every session there ever was; a session id is used once. */
    var owner: map<SessionId, Client>
    /** What each user copied or had on a clipboard at the start. */
    ghost var owned: set<(User, cstring)>
    ghost var accepted: seq<Accepted>
    ghost var stored: map<User, nat>
    ghost var log: seq<Delivery>
    /** What the clients took from their connections. */
    ghost var received: map<SessionId, seq<Message>>

    function In(s: SessionId): seq<Message>
      reads this`inbox
    {
      if s in inbox then inbox[s] else []
    }

    ghost function Got(s: SessionId): seq<Message>
      reads this`received
    {
      if s in received then received[s] else []
    }

    /** The objects are all different. */
    ghost predicate Shape()
      reads this`owner
    {
      && (forall i, j :: 0 <= i < j < |clients| ==> clients[i] != clients[j])
      && (forall i :: 0 <= i < |clients| ==> clients[i].crypto == crypto)
      && (forall s :: s in owner ==> owner[s] in clients)
    }

    /** If the user can read the message, then one of the user's own texts. */
    ghost predicate Own(u: User, content: Cipher)
      reads this`owned
    {
      crypto.Open(u, content).Some? ==> (u, crypto.Open(u, content).value) in owned
    }

    ghost predicate ClientOk(c: Client)
      reads this`owner, this`owned, c
    {
      && c.Calm()
      && (c.session.Some? ==> c.session.value in owner && owner[c.session.value] == c)
      && (c.clip.Some? ==> (c.user, c.clip.value) in owned)
      && (forall t :: t in c.copied ==> (c.user, t) in owned)
    }

    ghost predicate ClientsOk()
      reads this`owner, this`owned, clients
    {
      forall c :: c in clients ==> ClientOk(c)
    }

    /** The sessions of the manager are those of their clients. */
    ghost predicate SessionsOk()
      reads this`owner, manager
    {
      && manager.Valid()
      && (forall s :: s in manager.sessions ==> s in owner && manager.sessions[s] == ClientSession(true, owner[s].user, owner[s].device))
    }

    /** Accepted message `i` came from client `c`. */
    ghost predicate By(i: nat, c: Client)
      requires i < |accepted|
      reads this`owner, this`accepted
    {
      accepted[i].session in owner && owner[accepted[i].session] == c
    }

    /** An accepted message is one that its client queued and that left its queue. */
    ghost predicate Sent(a: Accepted)
      reads this`owner, clients
    {
      a.session in owner && owner[a.session] in clients && owner[a.session].HasPosted(a.number, a.content)
    }

    /** All messages accepted from client `c` were queued before number `n`. */
    ghost predicate Before(c: Client, n: nat)
      reads this`owner, this`accepted
    {
      forall i: nat :: i < |accepted| && By(i, c) ==> accepted[i].number < n
    }

    /** Accepted messages of one client come in the order in which it queued them, each at most once. */
    ghost predicate AcceptedOk()
      reads this`owner, this`accepted, clients
    {
      && (forall i :: 0 <= i < |accepted| ==> Sent(accepted[i]))
      && (forall i: nat, j: nat :: i < j < |accepted| && By(j, owner[accepted[i].session]) ==> accepted[i].number < accepted[j].number)
    }

    /** How many of the first `k` accepted messages came from client `c`. */
    ghost function CountBy(c: Client, k: nat): nat
      requires k <= |accepted|
      reads this`owner, this`accepted
    {
      if k == 0 then 0 else CountBy(c, k - 1) + if By(k - 1, c) then 1 else 0
    }

    /** The message with which an accepted one is passed on. */
    ghost function MessageOf(i: nat): Message
      requires i < |accepted| && accepted[i].session in owner
      reads this`owner, this`accepted
    {
      Message(accepted[i].content, owner[accepted[i].session].device)
    }

    /** Accepted message `i` is the latest of user `u`. */
    ghost predicate Latest(u: User, i: nat)
      reads this`owner, this`accepted
    {
      && i < |accepted| && accepted[i].session in owner && owner[accepted[i].session].user == u
      && forall j :: i < j < |accepted| ==> accepted[j].session in owner && owner[accepted[j].session].user != u
    }

    /** The cache holds the latest accepted message of a user, or nothing. */
    ghost predicate CacheOk()
      reads this`owner, this`accepted, this`stored, cache
    {
      forall u :: u in cache.cache ==>
                    && u in stored && Latest(u, stored[u])
                    && Message(cache.cache[u].content, cache.cache[u].fromDevice) == MessageOf(stored[u])
    }

    /** A delivery is of a message from the same user; a broadcast never goes back to its session, a replay
        never to its device. */
    ghost predicate Isolated(d: Delivery)
      reads this`owner, this`accepted
    {
      && d.origin < |accepted| && accepted[d.origin].session in owner && d.to in owner
      && d.message == MessageOf(d.origin)
      && var from := owner[accepted[d.origin].session];
         && from.user == owner[d.to].user
         && (d.live ==> accepted[d.origin].session != d.to)
         && (!d.live ==> from.device != owner[d.to].device)
    }

    /** No session gets a broadcast message twice. */
    ghost predicate LogOk()
      reads this`owner, this`accepted, this`log
    {
      && (forall i :: 0 <= i < |log| ==> Isolated(log[i]))
      && (forall i, j :: 0 <= i < j < |log| && log[i].live && log[j].live && log[i].origin == log[j].origin ==> log[i].to != log[j].to)
    }

    /** What a client took and what is on its way is, together and in order, what was passed to its session. */
    ghost predicate InboxOk()
      reads this`inbox, this`received, this`log
    {
      forall s :: Got(s) + In(s) == Passed(log, s)
    }

    ghost predicate Valid()
      reads this, clients, manager, cache
    {
      && Shape() && crypto.Inverse() && ClientsOk() && SessionsOk()
      && AcceptedOk() && CacheOk() && LogOk() && InboxOk()
    }

    /** Some clients, freshly started, and a server without sessions. */
    constructor (crypto: Crypto, clients: seq<Client>)
      requires crypto.Inverse()
      requires forall i, j :: 0 <= i < j < |clients| ==> clients[i] != clients[j]
      requires forall c :: c in clients ==> c.crypto == crypto && c.Calm() && c.session == None && c.copied == []
      ensures Valid() && this.clients == clients && this.crypto == crypto && log == [] && accepted == []
      ensures owned == set c | c in clients && c.clip.Some? :: (c.user, c.clip.value)
      ensures fresh(manager) && fresh(cache)
    {
      this.crypto, this.clients := crypto, clients;
      manager := new SessionManager();
      cache := new ClipboardCache();
      inbox, owner, accepted, stored, log, received := map[], map[], [], map[], [], map[];
      owned := set c | c in clients && c.clip.Some? :: (c.user, c.clip.value);
      new;
      forall c | c in clients
        ensures ClientOk(c)
      {
        assert c.clip.Some? ==> (c.user, c.clip.value) in owned;
      }
    }

    lemma TheClient(c: Client)
      requires Shape() && ClientsOk() && c in clients
      ensures ClientOk(c) && c.crypto == crypto
    {
    }

    // ---- What messages can say -------------------------------------------------------------

    /** A client's messages carry texts its own user may see. */
    lemma SentOwn(c: Client, k: nat)
      requires Shape() && crypto.Inverse() && c in clients && ClientOk(c) && k < |c.sent|
      ensures Own(c.user, c.sent[k])
    {
      var t := c.copied[c.sources[k]];
      assert Carries(crypto, c.user, t, c.sent[k]);
      var n :| crypto.seal(c.user, t, n) == Some(c.sent[k]);
      assert crypto.Open(c.user, c.sent[k]) == Some(t);
    }

    /** What is on its way to a client is one of its user's texts. */
    lemma InOwn(s: SessionId)
      requires Valid() && In(s) != []
      ensures s in owner && Own(owner[s].user, In(s)[0].content)
    {
      hide Own, ClientOk, SessionsOk, CacheOk;
      var k := |Got(s)|;
      assert Got(s) + In(s) == Passed(log, s);
      assert (Got(s) + In(s))[k] == In(s)[0];
      var i := PassedLogged(log, s, k);
      assert Isolated(log[i]);
      var a := accepted[log[i].origin];
      assert Sent(a);
      SentOwn(owner[a.session], a.number);
    }

    /** From one client no more messages were accepted than it sent. */
    lemma {:induction false} CountBound(c: Client, k: nat, bound: nat)
      requires AcceptedOk() && k <= |accepted|
      requires forall i: nat :: i < k && By(i, c) ==> accepted[i].number < bound
      ensures CountBy(c, k) <= bound
      decreases k
    {
      if k > 0 {
        if By(k - 1, c) {
          CountBound(c, k - 1, accepted[k - 1].number);
        } else {
          CountBound(c, k - 1, bound);
        }
      }
    }

    /** No echo: the server never accepted more messages from a client than its user copied texts there, and
        every one of them carries a text that was copied there. */
    lemma NoEcho(c: Client)
      requires Valid() && c in clients
      ensures CountBy(c, |accepted|) <= |c.sent| <= |c.copied|
      ensures forall i: nat :: i < |accepted| && By(i, c) ==>
                exists t :: t in c.copied && Carries(crypto, c.user, t, accepted[i].content)
    {
      hide SessionsOk, CacheOk, LogOk, InboxOk;
      assert ClientOk(c);
      SentAtMostCopied(c);
      forall i: nat | i < |accepted| && By(i, c)
        ensures accepted[i].number < |c.sent|
        ensures exists t :: t in c.copied && Carries(crypto, c.user, t, accepted[i].content)
      {
        assert Sent(accepted[i]);
        var t := c.copied[c.sources[accepted[i].number]];
        assert t in c.copied && Carries(crypto, c.user, t, accepted[i].content);
      }
      CountBound(c, |accepted|, |c.sent|);
    }

    // ---- Steps -----------------------------------------------------------------------------

    twostate predicate OwnersKept()
      reads this
    {
      forall s :: s in old(owner) ==> s in owner && owner[s] == old(owner)[s]
    }

    /** The others stay as they are when client `c` moves on. */
    twostate lemma OthersOk(c: Client)
      requires Shape() && old(Shape()) && old(ClientsOk()) && old(AcceptedOk()) && c in clients
      requires accepted == old(accepted) && old(owned) <= owned && OwnersKept()
      requires forall d :: d in clients && d != c ==> unchanged(d)
      requires ClientOk(c) && old(c.sent) <= c.sent && old(c.Posted()) <= c.Posted()
      ensures ClientsOk() && AcceptedOk()
    {
      hide Own;
      forall d | d in clients
        ensures ClientOk(d)
      {
        assert old(ClientOk(d));
      }
      forall i | 0 <= i < |accepted|
        ensures Sent(accepted[i])
      {
        assert old(Sent(accepted[i]));
      }
      forall i: nat, j: nat | i < j < |accepted| && By(j, owner[accepted[i].session])
        ensures accepted[i].number < accepted[j].number
      {
        assert old(Sent(accepted[i])) && old(Sent(accepted[j]));
        assert old(By(j, owner[accepted[i].session]));
      }
    }

    /** The user of client `c` copies a text. */
    method CopyStep(c: Client, text: cstring)
      requires Valid() && c in clients
      modifies this`owned, c
      ensures Valid() && owned == old(owned) + {(c.user, text)}
      ensures c.clip == Some(text) && c.copied == old(c.copied) + [text] && c.sent == old(c.sent) && c.queue == old(c.queue)
      ensures c.session == old(c.session) && c.lastHash == old(c.lastHash) && c.nonce == old(c.nonce) && c.suppressUntil == old(c.suppressUntil)
    {
      hide SessionsOk, CacheOk, LogOk, InboxOk, ClientsOk, AcceptedOk, Shape, Faithful, Own;
      TheClient(c);
      owned := owned + {(c.user, text)};
      c.Copy(text);
      OthersOk(c);
    }

    /** One turn of client `c`'s polling loop: at most one message, of the text on the clipboard. */
    method PollStep(c: Client, now: int)
      requires Valid() && c in clients
      modifies c
      ensures Valid() && c.clip == old(c.clip) && c.copied == old(c.copied) && c.session == old(c.session)
      ensures if c.session.Some? && old(c.suppressUntil) <= now && old(c.Pending()) then
                var enc := crypto.seal(c.user, c.clip.value, c.nonce);
                !c.Pending() && c.nonce == old(c.nonce) + 1 && c.sent == old(c.sent) + Listed(enc) && c.queue == old(c.queue) + Listed(enc)
              else c.queue == old(c.queue) && c.sent == old(c.sent)
    {
      hide SessionsOk, CacheOk, LogOk, InboxOk, Carries, ClientsOk, AcceptedOk, Shape, Faithful, Own;
      TheClient(c);
      c.Poll(now);
      OthersOk(c);
    }

    /** Client `c` connects: `afterConnectionEstablished` with the replay of the cached clipboard. */
    method ConnectStep(c: Client, id: SessionId, now: int)
      requires Valid() && c in clients && c.session == None && id !in owner
      modifies this`owner, this`inbox, this`log, c, manager, cache
      ensures Valid() && c.session in {None, Some(id)} && c.copied == old(c.copied) && c.sent == old(c.sent)
      ensures In(id) == old(In(id)) + if c.session.Some? then old(Replayed(c, now)) else []
      ensures forall s :: s != id ==> In(s) == old(In(s))
    {
      hide Valid, Replayed;
      Register(c, id);
      var ok := Admit(c, id);
      if ok {
        Replay(c, id, now);
      }
    }

    /** A session id is taken. */
    method Register(c: Client, id: SessionId)
      requires Valid() && c in clients && id !in owner
      modifies this`owner
      ensures Valid() && owner == old(owner)[id := c]
    {
      hide Own, SessionManager.Valid, Client.Calm, InboxOk;
      owner := owner[id := c];
      assert ClientOk(c) by { assert old(ClientOk(c)); }
      OthersOk(c);
      forall u | u in cache.cache
        ensures Latest(u, stored[u]) && MessageOf(stored[u]) == old(MessageOf(stored[u]))
      {
        assert old(Latest(u, stored[u]));
      }
    }

    /** The session is added, unless the user has too many. */
    method Admit(c: Client, id: SessionId) returns (ok: bool)
      requires Valid() && c in clients && c.session == None && id in owner && owner[id] == c
      modifies c, manager
      ensures Valid() && c.copied == old(c.copied) && c.sent == old(c.sent)
      ensures ok <==> |SessionsOf(old(manager.sessions), c.user)| < 10
      ensures c.session == if ok then Some(id) else None
      ensures manager.sessions == if ok then old(manager.sessions)[id := ClientSession(true, c.user, c.device)] else old(manager.sessions)
    {
      hide SessionsOk, CacheOk, LogOk, InboxOk, ClientsOk, AcceptedOk, Shape, Client.Calm, Own;
      ok := AddSession(c, id);
      TheClient(c);
      c.Connected(if ok then Some(id) else None);
      OthersOk(c);
    }

    method AddSession(c: Client, id: SessionId) returns (ok: bool)
      requires Valid() && id in owner && owner[id] == c
      modifies manager
      ensures Valid()
      ensures ok <==> |SessionsOf(old(manager.sessions), c.user)| < 10
      ensures manager.sessions == if ok then old(manager.sessions)[id := ClientSession(true, c.user, c.device)] else old(manager.sessions)
    {
      hide SessionManager.Valid, ClientsOk, AcceptedOk, CacheOk, LogOk, InboxOk, Shape;
      ok := manager.AddAuthenticated(id, c.user, c.device);
    }

    /** What a new session of client `c` is given. */
    function Replayed(c: Client, now: int): seq<Message>
      reads cache
    {
      Listed(cache.ForDevice(c.user, c.device, now))
    }

    /** The replay goes to the new session, and nothing goes anywhere else. */
    method Replay(c: Client, id: SessionId, now: int)
      requires Valid() && id in owner && owner[id] == c
      modifies this`inbox, this`log, cache
      ensures Valid()
      ensures In(id) == old(In(id)) + old(Replayed(c, now))
      ensures forall s :: s != id ==> In(s) == old(In(s))
    {
      hide ClientsOk, SessionsOk, AcceptedOk, LogOk, InboxOk;
      var cached := cache.GetForDevice(c.user, c.device, now);
      if cached.Some? {
        Send(id, cached.value, stored[c.user], false);
      }
    }

    /** A message is put on its way to a session. */
    method Send(s: SessionId, m: Message, ghost origin: nat, ghost live: bool)
      requires Valid() && Isolated(Delivery(s, m, origin, live))
      requires live ==> forall i :: 0 <= i < |log| && log[i].live && log[i].origin == origin ==> log[i].to != s
      modifies this`inbox, this`log
      ensures Valid() && log == old(log) + [Delivery(s, m, origin, live)]
      ensures In(s) == old(In(s)) + [m] && forall t :: t != s ==> In(t) == old(In(t))
    {
      hide ClientsOk, SessionsOk, AcceptedOk, CacheOk, Shape, Isolated, Passed;
      inbox := inbox[s := In(s) + [m]];
      log := log + [Delivery(s, m, origin, live)];
      forall t
        ensures Got(t) + In(t) == Passed(log, t)
      {
        PassedMore(old(log), Delivery(s, m, origin, live), t);
        assert old(Got(t) + In(t)) == Passed(old(log), t);
      }
    }

    /** Client `c` loses its connection. */
    method DisconnectStep(c: Client)
      requires Valid() && c in clients
      modifies c
      ensures Valid() && c.session == None && c.copied == old(c.copied) && c.sent == old(c.sent) && c.queue == old(c.queue)
    {
      hide SessionsOk, CacheOk, LogOk, InboxOk, ClientsOk, AcceptedOk, Shape, Client.Calm, Own;
      TheClient(c);
      c.Connected(None);
      OthersOk(c);
    }

    /** The server notices that a session is closed. */
    method ClosedStep(id: SessionId)
      requires Valid()
      modifies manager
      ensures Valid() && manager.sessions == old(manager.sessions) - {id}
    {
      hide ClientsOk, AcceptedOk, CacheOk, LogOk, InboxOk, SessionManager.Valid;
      manager.RemoveSession(id);
    }

    /** The cache drops old entries. */
    method EvictStep(now: int)
      requires Valid()
      modifies cache
      ensures Valid() && forall c, t :: c in clients && t >= now ==> Replayed(c, t) == old(Replayed(c, t))
    {
      hide ClientsOk, AcceptedOk, SessionsOk, LogOk, InboxOk, ClipboardCache.ForDevice;
      cache.EvictExpired(now);
    }

    /** Client `c` takes the next message from its connection, and nothing else happens. */
    method ReceiveStep(c: Client, now: int)
      requires Valid() && c in clients
      modifies this`inbox, this`received, c
      ensures Valid() && c.copied == old(c.copied) && c.sent == old(c.sent) && c.queue == old(c.queue) && c.session == old(c.session)
      ensures if c.session.None? || old(In(c.session.value)) == [] then c.clip == old(c.clip) && inbox == old(inbox) && received == old(received)
              else var id := c.session.value;
                   var m := old(In(id))[0];
                   && In(id) == old(In(id))[1..] && Got(id) == old(Got(id)) + [m]
                   && (forall s :: s != id ==> In(s) == old(In(s)) && Got(s) == old(Got(s)))
                   && (if crypto.Open(c.user, m.content).Some? then c.clip == crypto.Open(c.user, m.content) && !c.Pending()
                       else c.clip == old(c.clip))
    {
      hide SessionsOk, CacheOk, LogOk, InboxOk, Passed, ClientsOk, AcceptedOk, Shape, Faithful;
      TheClient(c);
      if c.session.Some? && In(c.session.value) != [] {
        var id := c.session.value;
        InOwn(id);
        var m := Take(id);
        c.Receive(m.content, now);
        OthersOk(c);
      }
    }

    /** The next message on its way to a session is taken out. */
    method Take(id: SessionId) returns (m: Message)
      requires Valid() && In(id) != []
      modifies this`inbox, this`received
      ensures Valid() && m == old(In(id))[0]
      ensures In(id) == old(In(id))[1..] && Got(id) == old(Got(id)) + [m]
      ensures forall s :: s != id ==> In(s) == old(In(s)) && Got(s) == old(Got(s))
    {
      hide ClientsOk, SessionsOk, AcceptedOk, CacheOk, LogOk, Shape, Passed;
      m := inbox[id][0];
      inbox, received := inbox[id := inbox[id][1..]], received[id := Got(id) + [m]];
      forall s
        ensures Got(s) + In(s) == Passed(log, s)
      {
        assert old(Got(s) + In(s)) == Passed(log, s);
        assert Got(s) + In(s) == old(Got(s) + In(s));
      }
    }

    /** The next queued message of client `c` reaches the server: `dispatch`.  If its session is not known
        any more, the message is lost and the connection closed. */
    method DispatchStep(c: Client, now: int, reachable: SessionId -> bool)
      requires Valid() && c in clients
      modifies this`inbox, this`accepted, this`stored, this`log, c, manager, cache
      ensures Valid() && c.copied == old(c.copied) && c.sent == old(c.sent) && c.clip == old(c.clip) && c.lastHash == old(c.lastHash)
      ensures c.queue == if old(c.session).Some? && old(c.queue) != [] then old(c.queue)[1..] else old(c.queue)
      ensures if old(c.session).Some? && old(c.queue) != [] && old(c.session).value in old(manager.sessions)
              then Handled(old(c.session).value, old(c.queue)[0], c, now, reachable) && c.session == old(c.session)
              else accepted == old(accepted) && inbox == old(inbox) && cache.cache == old(cache.cache) && manager.sessions == old(manager.sessions)
    {
      hide Valid, SessionsOf, In, Before;
      if c.session.None? || c.queue == [] {
        return;
      }
      var id := c.session.value;
      AcceptedPosted(c);
      ghost var number := c.Posted();
      var content := PostNext(c, id in manager.sessions);
      if id in manager.sessions {
        HandleClipboard(c, id, number, content, now, reachable);
      }
    }

    /** The server's handling of a clipboard message: it is cached for its user, and goes to every other
        reachable session of the user, to each one once, and to nobody else; unreachable sessions are dropped. */
    twostate predicate Handled(id: SessionId, content: Cipher, c: Client, now: int, reachable: SessionId -> bool)
      reads this, manager, cache
    {
      var m, peers := Message(content, c.device), SessionsOf(old(manager.sessions), c.user) - {id};
      && |accepted| == |old(accepted)| + 1 && old(accepted) <= accepted
      && accepted[|old(accepted)|].session == id && accepted[|old(accepted)|].content == content
      && cache.cache == old(cache.cache)[c.user := CachedClipboard(content, c.device, now)]
      && (forall s :: In(s) == old(In(s)) + if s in peers && reachable(s) then [m] else [])
      && manager.sessions == old(manager.sessions) - (set s | s in peers && !reachable(s))
    }

    lemma AcceptedPosted(c: Client)
      requires Valid() && c in clients
      ensures |c.queue| <= |c.sent| && Before(c, c.Posted())
      ensures c.session.Some? ==> c.session.value in owner && owner[c.session.value] == c
    {
      hide SessionsOk, CacheOk, LogOk, InboxOk;
      assert ClientOk(c);
      forall i: nat | i < |accepted| && By(i, c)
        ensures accepted[i].number < c.Posted()
      {
        assert Sent(accepted[i]);
      }
    }

    /** The message leaves the queue; the connection stays open if the server knows the session. */
    method PostNext(c: Client, known: bool) returns (m: Cipher)
      requires Valid() && c in clients && c.queue != []
      modifies c
      ensures Valid() && c.copied == old(c.copied) && c.sent == old(c.sent) && c.clip == old(c.clip) && c.lastHash == old(c.lastHash)
      ensures c.queue == old(c.queue)[1..] && m == old(c.queue)[0] && |c.queue| < |c.sent| && m == c.sent[c.Posted() - 1]
      ensures c.session == if known then old(c.session) else None
    {
      hide SessionsOk, CacheOk, LogOk, InboxOk, ClientsOk, AcceptedOk, Shape, Faithful, Own;
      TheClient(c);
      m := c.Post();
      if !known {
        c.Connected(None);
      }
      OthersOk(c);
    }

    /** `handleClipboard`. */
    method HandleClipboard(c: Client, id: SessionId, ghost number: nat, content: Cipher, now: int, reachable: SessionId -> bool)
      requires Valid() && id in manager.sessions && id in owner && owner[id] == c
      requires Sent(Accepted(id, number, content)) && Before(c, number)
      modifies this`inbox, this`accepted, this`stored, this`log, manager, cache
      ensures Valid() && Handled(id, content, c, now, reachable)
      ensures exists sent ::
                && Exactly(sent, SessionsOf(old(manager.sessions), c.user), id, reachable)
                && log == old(log) + Deliveries(sent, Message(content, c.device), |old(accepted)|)
    {
      hide Valid, Sent, Before, SessionsOf, In, Deliveries, Isolated;
      Remember(c, id, number, content, now);
      var sent := Targets(c, id, reachable);
      Deliverable(c, id, sent);
      Deliver(sent, Message(content, c.device), |accepted| - 1);
    }

    /** The message becomes the user's cached clipboard. */
    method Remember(c: Client, id: SessionId, ghost number: nat, content: Cipher, now: int)
      requires Valid() && id in owner && owner[id] == c
      requires Sent(Accepted(id, number, content)) && Before(c, number)
      modifies this`accepted, this`stored, cache
      ensures Valid() && accepted == old(accepted) + [Accepted(id, number, content)]
      ensures cache.cache == old(cache.cache)[c.user := CachedClipboard(content, c.device, now)]
      ensures OriginsBelow(|accepted| - 1)
    {
      hide ClientsOk, SessionsOk, AcceptedOk, CacheOk, LogOk, InboxOk, Sent, Before, Shape, OriginsBelow;
      accepted := accepted + [Accepted(id, number, content)];
      cache.Store(c.user, content, c.device, now);
      stored := stored[c.user := |accepted| - 1];
      AcceptedMore(c, Accepted(id, number, content));
      CacheMore(c);
      LogMore();
    }

    twostate lemma AcceptedMore(c: Client, new a: Accepted)
      requires old(AcceptedOk()) && owner == old(owner) && forall d :: d in clients ==> d.sent == old(d.sent) && d.queue == old(d.queue)
      requires accepted == old(accepted) + [a] && Sent(a) && owner[a.session] == c && old(Before(c, a.number))
      ensures AcceptedOk()
    {
      forall i | 0 <= i < |accepted|
        ensures Sent(accepted[i])
      {
        if i < |old(accepted)| {
          assert accepted[i] == old(accepted)[i] && old(Sent(accepted[i]));
        }
      }
      forall i: nat, j: nat | i < j < |accepted| && By(j, owner[accepted[i].session])
        ensures accepted[i].number < accepted[j].number
      {
        assert old(Sent(accepted[i]));
        if j < |old(accepted)| {
          assert old(By(j, owner[accepted[i].session]));
        } else {
          assert old(By(i, c));
        }
      }
    }

    twostate lemma CacheMore(c: Client)
      requires old(CacheOk()) && owner == old(owner)
      requires |accepted| > 0 && old(accepted) == accepted[..|accepted| - 1] && By(|accepted| - 1, c)
      requires cache.cache.Keys == old(cache.cache).Keys + {c.user} && stored == old(stored)[c.user := |accepted| - 1]
      requires forall u :: u in old(cache.cache) && u != c.user ==> cache.cache[u] == old(cache.cache)[u]
      requires Message(cache.cache[c.user].content, cache.cache[c.user].fromDevice) == MessageOf(|accepted| - 1)
      ensures CacheOk()
    {
      forall u | u in cache.cache
        ensures u in stored && Latest(u, stored[u])
        ensures Message(cache.cache[u].content, cache.cache[u].fromDevice) == MessageOf(stored[u])
      {
        if u != c.user {
          assert old(Latest(u, stored[u]));
        }
      }
    }

    /** Only messages before number `n` have been passed on. */
    ghost predicate OriginsBelow(n: nat)
      reads this`log
    {
      forall i :: 0 <= i < |log| ==> log[i].origin < n
    }

    twostate lemma LogMore()
      requires old(LogOk()) && owner == old(owner) && log == old(log) && old(accepted) <= accepted
      ensures LogOk() && OriginsBelow(|old(accepted)|)
    {
      forall i | 0 <= i < |log|
        ensures Isolated(log[i]) && log[i].origin < |old(accepted)|
      {
        assert old(Isolated(log[i]));
      }
    }

    /** The sessions that get the broadcast. */
    method Targets(c: Client, id: SessionId, reachable: SessionId -> bool) returns (sent: seq<SessionId>)
      requires Valid()
      modifies manager
      ensures Valid() && Exactly(sent, SessionsOf(old(manager.sessions), c.user), id, reachable)
      ensures forall s :: s in sent ==> s in owner && owner[s].user == c.user
      ensures var peers := SessionsOf(old(manager.sessions), c.user) - {id};
              manager.sessions == old(manager.sessions) - (set s | s in peers && !reachable(s))
    {
      hide ClientsOk, InboxOk, AcceptedOk, CacheOk, LogOk, Shape, SessionManager.Valid;
      sent := manager.BroadcastToUser(c.user, id, reachable);
      assert (set s | s in SessionsOf(old(manager.sessions), c.user) && s != id && !reachable(s))
          == (set s | s in SessionsOf(old(manager.sessions), c.user) - {id} && !reachable(s));
    }

    lemma Deliverable(c: Client, id: SessionId, sent: seq<SessionId>)
      requires |accepted| > 0 && By(|accepted| - 1, c) && accepted[|accepted| - 1].session == id
      requires forall s :: s in sent ==> s != id && s in owner && owner[s].user == c.user
      ensures forall s :: s in sent ==>
                Isolated(Delivery(s, Message(accepted[|accepted| - 1].content, c.device), |accepted| - 1, true))
    {
    }

    /** The messages of one broadcast. */
    method Deliver(sent: seq<SessionId>, m: Message, ghost origin: nat)
      requires Valid() && (forall i, j :: 0 <= i < j < |sent| ==> sent[i] != sent[j])
      requires forall s :: s in sent ==> Isolated(Delivery(s, m, origin, true))
      requires OriginsBelow(origin)
      modifies this`inbox, this`log
      ensures Valid() && log == old(log) + Deliveries(sent, m, origin)
      ensures forall s :: In(s) == old(In(s)) + if s in sent then [m] else []
    {
      hide ClientsOk, InboxOk, SessionsOk, AcceptedOk, CacheOk, LogOk, Shape, Isolated, In;
      for i := 0 to |sent|
        invariant Valid() && log == old(log) + Deliveries(sent[..i], m, origin)
        invariant forall s :: In(s) == old(In(s)) + if s in sent[..i] then [m] else []
      {
        Send(sent[i], m, origin, true);
        assert sent[..i + 1] == sent[..i] + [sent[i]];
        assert Deliveries(sent[..i + 1], m, origin) == Deliveries(sent[..i], m, origin) + [Delivery(sent[i], m, origin, true)];
      }
      assert sent[..|sent|] == sent;
    }

    /** A text copied on one device arrives on another one of the same user, and neither sends it again. */
    method Travel(a: Client, b: Client, text: cstring, now: int, reachable: SessionId -> bool)
      requires Valid() && a in clients && b in clients && a != b && a.user == b.user
      requires a.session.Some? && a.session.value in manager.sessions && a.queue == []
      requires b.session.Some? && b.session.value in manager.sessions && In(b.session.value) == [] && reachable(b.session.value)
      requires a.suppressUntil <= now && crypto.digest(text) != a.lastHash && crypto.seal(a.user, text, a.nonce + 1).Some?
      modifies this`inbox, this`owned, this`accepted, this`stored, this`log, this`received, a, b, manager, cache
      ensures Valid() && a.clip == Some(text) && b.clip == Some(text) && !a.Pending() && !b.Pending()
      ensures a.queue == [] && b.queue == old(b.queue)
    {
      hide Valid, Client.Calm, In, Got, SessionsOf, Handled;
      TheSession(a);
      TheSession(b);
      CopyStep(a, text);
      PollStep(a, now);
      Opens(a.user, text, a.nonce);
      Carry(a, b, now, reachable);
      ReceiveStep(b, now);
    }

    /** The one message of client `a` reaches the connection of client `b`. */
    method Carry(a: Client, b: Client, now: int, reachable: SessionId -> bool)
      requires Valid() && a in clients && |a.queue| == 1
      requires a.session.Some? && a.session.value in manager.sessions
      requires b.session.Some? && b.session != a.session && b.session.value in SessionsOf(manager.sessions, a.user)
      requires In(b.session.value) == [] && reachable(b.session.value)
      modifies this`inbox, this`accepted, this`stored, this`log, a, manager, cache
      ensures Valid() && a.clip == old(a.clip) && a.lastHash == old(a.lastHash) && a.queue == [] && a.session == old(a.session)
      ensures In(old(b.session.value)) == [Message(old(a.queue)[0], a.device)]
    {
      hide Valid, In, SessionsOf;
      DispatchStep(a, now, reachable);
    }

    lemma Opens(u: User, text: cstring, n: nat)
      requires Valid() && crypto.seal(u, text, n).Some?
      ensures crypto.Open(u, crypto.seal(u, text, n).value) == Some(text)
    {
    }

    lemma TheSession(c: Client)
      requires Valid() && c in clients && c.session.Some? && c.session.value in manager.sessions
      ensures c.session.value in owner && owner[c.session.value] == c && c.session.value in SessionsOf(manager.sessions, c.user) && c.crypto == crypto
    {
      TheClient(c);
    }

    // ---- Runs ------------------------------------------------------------------------------

    /** One event; events that cannot happen in the present state are ignored. */
    method Step(e: Event)
      requires Valid()
      modifies this`inbox, this`owner, this`owned, this`accepted, this`stored, this`log, this`received, clients, manager, cache
      ensures Valid()
      ensures forall i :: 0 <= i < |clients| ==> clients[i].copied == old(clients[i].copied) + CopiedAt([e], i)
      ensures owned == old(owned) + OwnedIn([e])
    {
      hide Valid, Handled, Replayed;
      Distinct();
      assert [e][..0] == [];
      match e {
        case Copy(c, text) => if c < |clients| { CopyStep(clients[c], text); }
        case Poll(c, now) => if c < |clients| { PollStep(clients[c], now); }
        case Connect(c, id, now) => if c < |clients| && clients[c].session == None && id !in owner { ConnectStep(clients[c], id, now); }
        case Disconnect(c) => if c < |clients| { DisconnectStep(clients[c]); }
        case Closed(id) => ClosedStep(id);
        case Dispatch(c, now, reachable) => if c < |clients| { DispatchStep(clients[c], now, reachable); }
        case Receive(c, now) => if c < |clients| { ReceiveStep(clients[c], now); }
        case Evict(now) => EvictStep(now);
      }
    }

    lemma Distinct()
      requires Valid()
      ensures forall i, j :: 0 <= i < j < |clients| ==> clients[i] != clients[j]
    {
    }

    /** The texts copied in a run, with the users who copied them. */
    ghost function OwnedIn(events: seq<Event>): set<(User, cstring)> {
      if events == [] then {}
      else
        var e := events[|events| - 1];
        OwnedIn(events[..|events| - 1]) + if e.Copy? && e.c < |clients| then {(clients[e.c].user, e.text)} else {}
    }

    /** Main result, over every run, on what really travels.  The server accepts from a client at most as many
        messages as its user copied texts there, and each carries one of these texts.  What a session was
        given, taken from its connection or still under way, is in order what was passed to it: messages
        accepted from sessions of the same user, never from itself when live, never from its own device when
        replayed.  No clipboard shows a text that the user did not copy or start with, and no user has more
        than ten sessions. */
    method Run(events: seq<Event>)
      requires Valid()
      modifies this`inbox, this`owner, this`owned, this`accepted, this`stored, this`log, this`received, clients, manager, cache
      ensures Valid()
      ensures forall i :: 0 <= i < |clients| ==> clients[i].copied == old(clients[i].copied) + CopiedAt(events, i)
      ensures owned == old(owned) + OwnedIn(events)
      ensures forall c :: c in clients ==> CountBy(c, |accepted|) <= |c.copied|
      ensures forall i :: 0 <= i < |accepted| ==>
                && accepted[i].session in owner
                && var c := owner[accepted[i].session]; exists t :: t in c.copied && Carries(crypto, c.user, t, accepted[i].content)
      ensures forall s :: Got(s) + In(s) == Passed(log, s)
      ensures forall i :: 0 <= i < |log| ==> Isolated(log[i])
      ensures forall c :: c in clients && c.clip.Some? ==> (c.user, c.clip.value) in owned
      ensures forall u :: |SessionsOf(manager.sessions, u)| <= 10
    {
      hide Valid;
      assert events[..0] == [];
      for k := 0 to |events|
        invariant Valid()
        invariant forall i :: 0 <= i < |clients| ==> clients[i].copied == old(clients[i].copied) + CopiedAt(events[..k], i)
        invariant owned == old(owned) + OwnedIn(events[..k])
      {
        Step(events[k]);
        OneMore(events, k);
      }
      assert events[..|events|] == events;
      RunSafe();
    }

    lemma OneMore(events: seq<Event>, k: nat)
      requires k < |events|
      ensures OwnedIn(events[..k + 1]) == OwnedIn(events[..k]) + OwnedIn([events[k]])
      ensures forall i :: CopiedAt(events[..k + 1], i) == CopiedAt(events[..k], i) + CopiedAt([events[k]], i)
    {
      assert events[..k + 1][..k] == events[..k] && [events[k]][..0] == [];
    }

    lemma RunSafe()
      requires Valid()
      ensures forall c :: c in clients ==> CountBy(c, |accepted|) <= |c.copied|
      ensures forall i :: 0 <= i < |accepted| ==>
                && accepted[i].session in owner
                && var c := owner[accepted[i].session]; exists t :: t in c.copied && Carries(crypto, c.user, t, accepted[i].content)
      ensures forall s :: Got(s) + In(s) == Passed(log, s)
      ensures forall i :: 0 <= i < |log| ==> Isolated(log[i])
      ensures forall c :: c in clients && c.clip.Some? ==> (c.user, c.clip.value) in owned
      ensures forall u :: |SessionsOf(manager.sessions, u)| <= 10
    {
      hide Isolated, Carries, Passed;
      forall c | c in clients
        ensures CountBy(c, |accepted|) <= |c.copied|
        ensures c.clip.Some? ==> (c.user, c.clip.value) in owned
      {
        assert ClientOk(c);
        NoEcho(c);
      }
      forall i | 0 <= i < |accepted|
        ensures accepted[i].session in owner
        ensures var c := owner[accepted[i].session]; exists t :: t in c.copied && Carries(crypto, c.user, t, accepted[i].content)
      {
        assert Sent(accepted[i]);
        NoEcho(owner[accepted[i].session]);
        assert By(i, owner[accepted[i].session]);
      }
    }
  }
}
