/** The service's sliding-window rate limiter: one record per client
    identifier holding the times of its recent requests and the end of any
    block, plus one record per signed-in user holding the addresses seen.
    Time is a whole number of seconds passed in by the caller; the browser
    fingerprint (`md5` of the user agent, first eight hex digits) is a
    parameter too. */
module RateLimit {
  import opened Wrappers
  import Text

  /** How long a record may stay idle before cleanup drops it. */
  const IdleSeconds: int := 3600
  /** The longest block. */
  const MaxBlockSeconds: int := 300

  /** The two shapes of entries in `request_counts`. */
  datatype Record =
    | RequestLog(requests: seq<int>, blockedUntil: int)
    | IpLog(ips: set<string>, lastCheck: int)

  /** The outcome of `check_rate_limit`: allowed, or a 429 while blocked
      (with the seconds left), or a 429 that starts a block (with its
      length). `WrongRecord` is the `KeyError` raised when the identifier
      names a user's address record. */
  datatype Verdict = Allowed | Blocked(remaining: int) | Throttled(blockDuration: int) | WrongRecord

  // ---------------------------------------------------------------------
  // Identifiers

  /** JavaScript-style truthiness of an optional string, as Python's `if x:`. */
  predicate Present(x: Option<string>)
  {
    x.Some? && x.value != ""
  }

  /** The client address: the first entry of `X-Forwarded-For`, trimmed,
      else the socket peer, else "unknown". */
  function ClientIp(forwarded: Option<string>, clientHost: Option<string>): (ip: string)
    ensures Present(forwarded) ==> ',' !in ip
    ensures Present(forwarded) ==> ip == Text.Strip(Text.Split(forwarded.value, ",")[0])
    ensures !Present(forwarded) ==> ip == clientHost.GetOr("unknown")
  {
    if Present(forwarded) then
      var first := Text.Split(forwarded.value, ",")[0];
      Text.SplitCharPieces(forwarded.value, ',');
      assert first in Text.Split(forwarded.value, ",");
      Text.Strip(first)
    else
      clientHost.GetOr("unknown")
  }

  /** `get_client_identifier`: signed-in users by id and address, others by
      address and browser fingerprint. */
  function ClientIdentifier(ip: string, userId: Option<string>, uaHash: string): string
  {
    if Present(userId) then "user:" + userId.value + ":ip:" + ip
    else "anon:ip:" + ip + ":ua:" + uaHash
  }

  /** The address recorded by `detect_suspicious_activity`: the text between
      the first ":ip:" and the next ":". */
  function ExtractIp(identifier: string): (ip: string)
    ensures !Text.Contains(identifier, ":ip:") ==> ip == "unknown"
  {
    if Text.Contains(identifier, ":ip:") then
      Text.Split(Text.Split(identifier, ":ip:")[1], ":")[0]
    else "unknown"
  }

  /** ":ip:" does not occur at `j` when one of the four characters differs. */
  lemma MismatchAt(s: string, j: nat, d: nat)
    requires d < 4 && j + d < |s| && s[j + d] != ":ip:"[d]
    ensures !Text.OccursAt(s, ":ip:", j)
  {
    if j + 4 <= |s| {
      assert s[j..j + 4][d] == s[j + d];
    }
  }

  /** A two-letter id other than "ip" differs from it somewhere. */
  lemma NotIp(u: string)
    requires |u| == 2 && u != "ip"
    ensures u[0] != 'i' || u[1] != 'p'
  {
  }

  /** In a signed-in user's identifier the first ":ip:" is the one after
      the id. */
  lemma UserIpFirst(userId: string, ip: string)
    requires userId != "" && ':' !in userId && userId != "ip"
    ensures var s := "user:" + userId + ":ip:" + ip;
      Text.OccursAt(s, ":ip:", 5 + |userId|) && forall j :: 0 <= j < 5 + |userId| ==> !Text.OccursAt(s, ":ip:", j)
  {
    var s := "user:" + userId + ":ip:" + ip;
    var n := |userId|;
    assert forall k :: 0 <= k < n ==> s[5 + k] == userId[k];
    assert s[5 + n..9 + n] == ":ip:";
    forall j | 0 <= j < 5 + n ensures !Text.OccursAt(s, ":ip:", j) {
      if j < 4 {
        MismatchAt(s, j, 0);
      } else if j == 4 {
        if n == 1 {
          MismatchAt(s, 4, 2);
        } else if n == 2 {
          NotIp(userId);
          if userId[0] != 'i' {
            MismatchAt(s, 4, 1);
          } else {
            MismatchAt(s, 4, 2);
          }
        } else {
          assert s[7] == userId[2];
          MismatchAt(s, 4, 3);
        }
      } else {
        assert s[j] == userId[j - 5];
        MismatchAt(s, j, 0);
      }
    }
  }

  /** A string without ':' holds no ":ip:". */
  lemma NoColonNoIp(t: string)
    requires ':' !in t
    ensures forall j :: 0 <= j ==> !Text.OccursAt(t, ":ip:", j)
  {
    forall j | 0 <= j ensures !Text.OccursAt(t, ":ip:", j) {
      if j < |t| {
        MismatchAt(t, j, 0);
      }
    }
  }

  /** The address of a signed-in user's identifier comes back out, for
      addresses without ':' (so not IPv6) and ids without ':' other than
      "ip". */
  lemma ExtractUserIp(userId: string, ip: string, uaHash: string)
    requires userId != "" && ':' !in userId && ':' !in ip && userId != "ip"
    ensures ExtractIp(ClientIdentifier(ip, Some(userId), uaHash)) == ip
  {
    var s := ClientIdentifier(ip, Some(userId), uaHash);
    var n := |userId|;
    assert s == "user:" + userId + ":ip:" + ip;
    UserIpFirst(userId, ip);
    Text.SplitFirstOccurs(s, ":ip:", 5 + n);
    assert s[9 + n..] == ip;
    NoColonNoIp(ip);
    Text.SplitAbsent(ip, ":ip:");
    Text.SplitCharAbsent(ip, ':');
  }

  /** In an anonymous identifier the first ":ip:" is at position 4. */
  lemma AnonIpFirst(ip: string, uaHash: string)
    ensures var s := "anon:ip:" + ip + ":ua:" + uaHash;
      Text.OccursAt(s, ":ip:", 4) && forall j :: 0 <= j < 4 ==> !Text.OccursAt(s, ":ip:", j)
  {
    var s := "anon:ip:" + ip + ":ua:" + uaHash;
    assert s[4..8] == ":ip:";
    forall j | 0 <= j < 4 ensures !Text.OccursAt(s, ":ip:", j) {
      MismatchAt(s, j, 0);
    }
  }

  /** After the first ":ip:" of an anonymous identifier, the piece up to the
      next ":ip:" starts with the address and a ':'. */
  lemma AnonPiece(ip: string, uaHash: string)
    requires ':' !in ip
    ensures var rest := ip + ":ua:" + uaHash;
      var piece := Text.Split(rest, ":ip:")[0];
      |piece| > |ip| && piece == ip + [':'] + piece[|ip| + 1..]
  {
    var rest := ip + ":ua:" + uaHash;
    var m := |ip|;
    assert forall k :: 0 <= k < m ==> rest[k] == ip[k];
    forall j | 0 <= j <= m ensures !Text.OccursAt(rest, ":ip:", j) {
      if j < m {
        MismatchAt(rest, j, 0);
      } else {
        assert rest[m + 1] == 'u';
        MismatchAt(rest, m, 1);
      }
    }
    Text.SplitHead(rest, ":ip:");
    var piece := Text.Split(rest, ":ip:")[0];
    assert piece[..m + 1] == rest[..m + 1] == ip + [':'];
  }

  /** The address of an anonymous identifier comes back out, for addresses
      without ':'. */
  lemma ExtractAnonIp(ip: string, uaHash: string)
    requires ':' !in ip
    ensures ExtractIp(ClientIdentifier(ip, None, uaHash)) == ip
  {
    var s := ClientIdentifier(ip, None, uaHash);
    assert s == "anon:ip:" + ip + ":ua:" + uaHash;
    AnonIpFirst(ip, uaHash);
    Text.SplitFirstOccurs(s, ":ip:", 4);
    assert s[8..] == ip + ":ua:" + uaHash;
    AnonPiece(ip, uaHash);
    var piece := Text.Split(s[8..], ":ip:")[0];
    Text.SplitCharCons(ip, ':', piece[|ip| + 1..]);
  }

  // ---------------------------------------------------------------------
  // The window

  /** The request times still inside the window: `now - t < window`. */
  function InWindow(requests: seq<int>, now: int, window: int): (r: seq<int>)
    ensures |r| <= |requests|
    ensures forall k :: 0 <= k < |r| ==> now - r[k] < window && r[k] in requests
    ensures forall k :: 0 <= k < |requests| && now - requests[k] < window ==> requests[k] in r
  {
    if |requests| == 0 then []
    else
      var rest := InWindow(requests[1..], now, window);
      assert forall k :: 1 <= k < |requests| ==> requests[k] == requests[1..][k - 1];
      if now - requests[0] < window then [requests[0]] + rest else rest
  }

  /** Pruning keeps each recent time as often as it was recorded and drops
      every stale one. */
  lemma {:induction false} InWindowCount(requests: seq<int>, now: int, window: int)
    ensures forall t :: multiset(InWindow(requests, now, window))[t]
                     == if now - t < window then multiset(requests)[t] else 0
  {
    if |requests| > 0 {
      InWindowCount(requests[1..], now, window);
      assert requests == [requests[0]] + requests[1..];
    }
  }

  function BlockDuration(window: int): (d: int)
    ensures d <= MaxBlockSeconds && d <= 2 * window
    ensures d == MaxBlockSeconds || d == 2 * window
  {
    if 2 * window < MaxBlockSeconds then 2 * window else MaxBlockSeconds
  }

  datatype Admission = Admission(verdict: Verdict, record: Record)

  /** One call of `check_rate_limit` on a request record. */
  function Admit(rec: Record, now: int, maxRequests: int, window: int): (a: Admission)
    requires rec.RequestLog?
    ensures a.record.RequestLog?
    ensures now < rec.blockedUntil ==> a == Admission(Blocked(rec.blockedUntil - now), rec)
    ensures a.verdict != Allowed ==> a.record.requests == (if now < rec.blockedUntil then rec.requests
                                                            else InWindow(rec.requests, now, window))
    ensures a.verdict.Throttled? <==> rec.blockedUntil <= now && |InWindow(rec.requests, now, window)| >= maxRequests
    ensures a.verdict.Throttled? ==> a.verdict.blockDuration == BlockDuration(window)
                                     && a.record.blockedUntil == now + BlockDuration(window)
    ensures a.verdict == Allowed <==> rec.blockedUntil <= now && |InWindow(rec.requests, now, window)| < maxRequests
    ensures a.verdict == Allowed ==> a.record == RequestLog(InWindow(rec.requests, now, window) + [now], rec.blockedUntil)
  {
    if now < rec.blockedUntil then Admission(Blocked(rec.blockedUntil - now), rec)
    else
      var requests := InWindow(rec.requests, now, window);
      if |requests| >= maxRequests then
        Admission(Throttled(BlockDuration(window)), RequestLog(requests, now + BlockDuration(window)))
      else
        Admission(Allowed, RequestLog(requests + [now], rec.blockedUntil))
  }

  /** After an allowed call the record holds only times inside the window,
      at most `maxRequests` of them, ending with this call. */
  lemma AllowedStaysWithinLimit(rec: Record, now: int, maxRequests: int, window: int)
    requires rec.RequestLog? && 0 < window
    requires Admit(rec, now, maxRequests, window).verdict == Allowed
    ensures var r := Admit(rec, now, maxRequests, window).record.requests;
      |r| <= maxRequests && r[|r| - 1] == now && forall k :: 0 <= k < |r| ==> now - r[k] < window
  {
  }

  /** The address set of a signed-in user after one more address: started
      over when the last reset is more than an hour old. */
  function TrackIp(rec: Record, ip: string, now: int): (r: Record)
    requires rec.IpLog?
    ensures r.IpLog? && ip in r.ips
    ensures now - rec.lastCheck > IdleSeconds ==> r == IpLog({ip}, now)
    ensures now - rec.lastCheck <= IdleSeconds ==> r == IpLog(rec.ips + {ip}, rec.lastCheck)
  {
    var ips := rec.ips + {ip};
    if now - rec.lastCheck > IdleSeconds then IpLog({ip}, now) else IpLog(ips, rec.lastCheck)
  }

  /** A request record whose last request is more than an hour old. */
  predicate Expired(rec: Record, now: int)
  {
    rec.RequestLog? && |rec.requests| > 0 && now - rec.requests[|rec.requests| - 1] > IdleSeconds
  }

  /** The key of a user's address record. */
  function UserKey(userId: string): string
  {
    "user_ips:" + userId
  }

  /** `detect_suspicious_activity` on the store `m`: the identifier's
      address joins the user's set. None is the `KeyError` raised when the
      user's key holds a request record; the store is then left as it was.
      The "more than three addresses" test has no effect and is not
      modelled. */
  function RecordIp(m: map<string, Record>, userId: string, identifier: string, now: int): (r: Option<map<string, Record>>)
    ensures r.None? <==> UserKey(userId) in m && m[UserKey(userId)].RequestLog?
    ensures r.Some? ==> UserKey(userId) in r.value && r.value[UserKey(userId)].IpLog?
                        && ExtractIp(identifier) in r.value[UserKey(userId)].ips
    ensures r.Some? ==> forall k :: k != UserKey(userId) ==> (k in r.value <==> k in m)
    ensures r.Some? ==> forall k :: k in m && k != UserKey(userId) ==> r.value[k] == m[k]
  {
    var key := UserKey(userId);
    var rec := if key in m then m[key] else IpLog({}, now);
    if rec.IpLog? then Some(m[key := TrackIp(rec, ExtractIp(identifier), now)]) else None
  }

  /** One `check_rate_limit` call on the store `m`: the verdict and the new
      store. */
  function Check(m: map<string, Record>, identifier: string, maxRequests: int, window: int,
                 userId: Option<string>, now: int): (r: (Verdict, map<string, Record>))
    ensures identifier in m && m[identifier].IpLog? ==> r == (WrongRecord, m)
    ensures r.0.Throttled? || r.0.Blocked? ==> identifier in r.1 && r.1.Keys == m.Keys + {identifier}
    ensures forall k :: k in m && k != identifier && (!Present(userId) || k != UserKey(userId.value))
                        ==> k in r.1 && r.1[k] == m[k]
  {
    var rec := if identifier in m then m[identifier] else RequestLog([], 0);
    if rec.IpLog? then (WrongRecord, m)
    else
      var a := Admit(rec, now, maxRequests, window);
      var m' := m[identifier := a.record];
      if a.verdict == Allowed && Present(userId) then
        match RecordIp(m', userId.value, identifier, now)
        case Some(m'') => (Allowed, m'')
        case None => (WrongRecord, m')
      else (a.verdict, m')
  }

  /** An allowed call leaves the identifier's record holding at most
      `maxRequests` times, all inside the window, the last being this
      call. */
  lemma CheckWithinLimit(m: map<string, Record>, identifier: string, maxRequests: int, window: int,
                         userId: Option<string>, now: int)
    requires Check(m, identifier, maxRequests, window, userId, now).0 == Allowed
    requires !Present(userId) || UserKey(userId.value) != identifier
    requires 0 < window
    ensures var m' := Check(m, identifier, maxRequests, window, userId, now).1;
      identifier in m' && m'[identifier].RequestLog?
      && var r := m'[identifier].requests;
         0 < |r| <= maxRequests && r[|r| - 1] == now && forall k :: 0 <= k < |r| ==> now - r[k] < window
  {
    var rec := if identifier in m then m[identifier] else RequestLog([], 0);
    var a := Admit(rec, now, maxRequests, window);
    assert a.verdict == Allowed;
  }

  /** While a block lasts every call is refused with the seconds left and
      changes nothing but creating the record. */
  lemma CheckWhileBlocked(m: map<string, Record>, identifier: string, maxRequests: int, window: int,
                          userId: Option<string>, now: int)
    requires identifier in m && m[identifier].RequestLog? && now < m[identifier].blockedUntil
    ensures Check(m, identifier, maxRequests, window, userId, now) == (Blocked(m[identifier].blockedUntil - now), m)
  {
    assert m[identifier := m[identifier]] == m;
  }

  class RateLimiter {
    /** `request_counts`. */
    var requestCounts: map<string, Record>

    constructor ()
      ensures requestCounts == map[]
    {
      requestCounts := map[];
    }

    /** `check_rate_limit` for one call at time `now`. */
    method CheckRateLimit(identifier: string, maxRequests: int, windowSeconds: int, userId: Option<string>, now: int)
      returns (verdict: Verdict)
      modifies this
      ensures (verdict, requestCounts) == Check(old(requestCounts), identifier, maxRequests, windowSeconds, userId, now)
    {
      if identifier !in requestCounts {
        requestCounts := requestCounts[identifier := RequestLog([], 0)];
      }
      var rec := requestCounts[identifier];
      if rec.IpLog? {
        return WrongRecord;
      }
      var a := Admit(rec, now, maxRequests, windowSeconds);
      requestCounts := requestCounts[identifier := a.record];
      assert requestCounts == old(requestCounts)[identifier := a.record];
      verdict := a.verdict;
      if verdict == Allowed && Present(userId) {
        var ok := DetectSuspiciousActivity(userId.value, identifier, now);
        if !ok {
          verdict := WrongRecord;
        }
      }
    }

    /** `detect_suspicious_activity`. False is the `KeyError`. */
    method DetectSuspiciousActivity(userId: string, identifier: string, now: int) returns (ok: bool)
      modifies this
      ensures ok <==> RecordIp(old(requestCounts), userId, identifier, now).Some?
      ensures requestCounts == RecordIp(old(requestCounts), userId, identifier, now).GetOr(old(requestCounts))
    {
      var ip := ExtractIp(identifier);
      var userKey := UserKey(userId);
      var rec := if userKey in requestCounts then requestCounts[userKey] else IpLog({}, now);
      if rec.RequestLog? {
        return false;
      }
      requestCounts := requestCounts[userKey := TrackIp(rec, ip, now)];
      return true;
    }

    /** `cleanup_old_records`: drops the request records idle for more than
        an hour; address records and empty logs stay. */
    method CleanupOldRecords(now: int)
      modifies this
      ensures forall k :: k in requestCounts <==> k in old(requestCounts) && !Expired(old(requestCounts)[k], now)
      ensures forall k :: k in requestCounts ==> requestCounts[k] == old(requestCounts)[k]
    {
      var expiredKeys := set k | k in requestCounts && Expired(requestCounts[k], now);
      var remaining := expiredKeys;
      while remaining != {}
        invariant remaining <= expiredKeys
        invariant forall k :: k in requestCounts <==> k in old(requestCounts) && (k !in expiredKeys || k in remaining)
        invariant forall k :: k in requestCounts ==> requestCounts[k] == old(requestCounts)[k]
        decreases |remaining|
      {
        var key :| key in remaining;
        requestCounts := requestCounts - {key};
        remaining := remaining - {key};
      }
    }
  }
}
