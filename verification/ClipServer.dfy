/** The server side of clipboard sync: sessions, the per-user cache, and routing. */
module ClipServer {
  import opened Bits

  type User = string
  type Device = string
  type SessionId = nat
  type Cipher = seq<byte>

  const MAX_SESSIONS_PER_USER := 10
  const TTL_MS := 3_600_000

  datatype ClientSession = ClientSession(loggedIn: bool, username: User, deviceId: Device)

  /** A clipboard message on its way to a session. */
  datatype Message = Message(content: Cipher, from: Device)

  // ---- Sessions ----------------------------------------------------------------------------

  /** The sessions of a user that count for the limit and receive broadcasts. */
  function SessionsOf(sessions: map<SessionId, ClientSession>, username: User): (r: set<SessionId>) {
    set s | s in sessions && sessions[s].loggedIn && sessions[s].username == username
  }

  /** `SessionManager`. */
  class SessionManager {
    var sessions: map<SessionId, ClientSession>

    ghost predicate Valid()
      reads this
    {
      forall u :: |SessionsOf(sessions, u)| <= 10
    }

    constructor ()
      ensures Valid() && sessions == map[]
    {
      sessions := map[];
      new;
      forall u
        ensures |SessionsOf(sessions, u)| <= 10
      {
        assert SessionsOf(sessions, u) == {};
      }
    }

    /** `addAuthenticated`: rejects exactly the users who are at the limit. */
    method AddAuthenticated(id: SessionId, username: User, deviceId: Device) returns (ok: bool)
      requires Valid()
      modifies this
      ensures Valid()
      ensures ok <==> |SessionsOf(old(sessions), username)| < 10
      ensures sessions == if ok then old(sessions)[id := ClientSession(true, username, deviceId)] else old(sessions)
    {
      var count := |SessionsOf(sessions, username)|;
      if count >= MAX_SESSIONS_PER_USER {
        return false;
      }
      ghost var before := sessions;
      sessions := sessions[id := ClientSession(true, username, deviceId)];
      forall u
        ensures |SessionsOf(sessions, u)| <= 10
      {
        if u == username {
          assert SessionsOf(sessions, u) == SessionsOf(before, u) + {id};
        } else {
          Fewer(SessionsOf(sessions, u), SessionsOf(before, u));
        }
      }
      return true;
    }

    /** `removeSession`. */
    method RemoveSession(id: SessionId)
      requires Valid()
      modifies this
      ensures Valid() && sessions == old(sessions) - {id}
    {
      ghost var before := sessions;
      sessions := sessions - {id};
      forall u
        ensures |SessionsOf(sessions, u)| <= 10
      {
        Fewer(SessionsOf(sessions, u), SessionsOf(before, u));
      }
    }

    /** `broadcastToUser`: the message goes to the user's other sessions.  `reachable` tells which of them
        are open; the others are removed. */
    method BroadcastToUser(username: User, sender: SessionId, reachable: SessionId -> bool) returns (sent: seq<SessionId>)
      requires Valid()
      modifies this
      ensures Valid()
      ensures forall i, j :: 0 <= i < j < |sent| ==> sent[i] != sent[j]
      ensures forall s :: s in sent <==> s in SessionsOf(old(sessions), username) && s != sender && reachable(s)
      ensures sessions == old(sessions) - (set s | s in SessionsOf(old(sessions), username) && s != sender && !reachable(s))
    {
      var targets := SessionsOf(sessions, username) - {sender};
      sent := [];
      ghost var before, removed := sessions, {};
      var rest := targets;
      while rest != {}
        invariant Valid() && rest <= targets
        invariant forall i, j :: 0 <= i < j < |sent| ==> sent[i] != sent[j]
        invariant forall s :: s in sent <==> s in targets && s !in rest && reachable(s)
        invariant forall s :: s in removed <==> s in targets && s !in rest && !reachable(s)
        invariant sessions == before - removed
        decreases |rest|
      {
        var target :| target in rest;
        rest := rest - {target};
        if reachable(target) {
          sent := sent + [target];
        } else {
          RemoveSession(target);
          removed := removed + {target};
          assert before - removed == before - (removed - {target}) - {target};
        }
      }
      assert removed == set s | s in SessionsOf(before, username) && s != sender && !reachable(s);
    }
  }

  lemma Fewer(a: set<SessionId>, b: set<SessionId>)
    requires a <= b
    ensures |a| <= |b|
    decreases a
  {
    if a != {} {
      var x :| x in a;
      Fewer(a - {x}, b - {x});
    }
  }

  // ---- The cache ---------------------------------------------------------------------------

  datatype CachedClipboard = CachedClipboard(content: Cipher, fromDevice: Device, timestamp: int)

  /** `ClipboardCacheService`. */
  class ClipboardCache {
    var cache: map<User, CachedClipboard>

    constructor ()
      ensures cache == map[]
    {
      cache := map[];
    }

    /** What a device of a user would be given at a time: the user's last clipboard, if it came from another
        device and is not too old. */
    function ForDevice(username: User, deviceId: Device, now: int): Option<Message>
      reads this
    {
      if username !in cache then None
      else
        var cached := cache[username];
        if cached.fromDevice == deviceId || now - cached.timestamp > 3_600_000 then None
        else Some(Message(cached.content, cached.fromDevice))
    }

    /** `store`: from then on every other device of the user gets this message for an hour, the storing one
        gets none, and nothing changes for other users. */
    method Store(username: User, content: Cipher, fromDevice: Device, now: int)
      modifies this
      ensures forall d, t :: d != fromDevice && t <= now + 3_600_000 ==> ForDevice(username, d, t) == Some(Message(content, fromDevice))
      ensures forall d, t :: d == fromDevice || t > now + 3_600_000 ==> ForDevice(username, d, t) == None
      ensures forall u, d, t :: u != username ==> ForDevice(u, d, t) == old(ForDevice(u, d, t))
      ensures cache == old(cache)[username := CachedClipboard(content, fromDevice, now)]
    {
      cache := cache[username := CachedClipboard(content, fromDevice, now)];
    }

    /** `getForDevice`.  An entry that is too old is dropped, which no later call notices. */
    method GetForDevice(username: User, deviceId: Device, now: int) returns (r: Option<Message>)
      modifies this
      ensures r == old(ForDevice(username, deviceId, now))
      ensures forall u, d, t :: t >= now ==> ForDevice(u, d, t) == old(ForDevice(u, d, t))
      ensures cache == if username in old(cache) && old(cache)[username].fromDevice != deviceId
                          && now - old(cache)[username].timestamp > 3_600_000
                       then old(cache) - {username} else old(cache)
    {
      if username !in cache {
        return None;
      }
      var cached := cache[username];
      if cached.fromDevice == deviceId {
        return None;
      }
      if now - cached.timestamp > TTL_MS {
        cache := cache - {username};
        return None;
      }
      return Some(Message(cached.content, cached.fromDevice));
    }

    /** `evictExpired` removes exactly the entries that are too old, and nobody notices. */
    method EvictExpired(now: int)
      modifies this
      ensures forall u, d, t :: t >= now ==> ForDevice(u, d, t) == old(ForDevice(u, d, t))
      ensures cache.Keys == set u | u in old(cache) && old(cache)[u].timestamp >= now - 3_600_000
      ensures forall u :: u in cache ==> cache[u] == old(cache)[u]
    {
      var cutoff := now - TTL_MS;
      cache := map u | u in cache && !(cache[u].timestamp < cutoff) :: cache[u];
    }
  }
}
