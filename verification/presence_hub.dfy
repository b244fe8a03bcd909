/** `PresenceHub`: which presence key a connection stands for, and the
    "ActiveUsersChanged" broadcast that follows a real change of the
    tracker. */
module PresenceHubs {
  import opened Base
  import opened Text
  import opened Presence

  /** The query string of the connection's HTTP request: each name with
      its values. */
  type Query = map<string, seq<string>>

  /** A hub connection: its connection identifier and, when it has one,
      the query of its HTTP request. */
  datatype Connection = Connection(connectionId: string, http: Option<Query>)

  /** `Request.Query["u"]`: the values of "u", none when it is absent. */
  function QueryValues(q: Query, name: string): (r: seq<string>)
    ensures name !in q ==> r == []
  {
    if name in q then q[name] else []
  }

  /** The presence key: the connection identifier without an HTTP context,
      otherwise the "u" query value as `StringValues.ToString()` renders
      it. */
  function PresenceKey(c: Connection): (key: string)
    ensures c.http.None? ==> key == c.connectionId
    ensures c.http.Some? && |QueryValues(c.http.value, "u")| == 1 ==> key == QueryValues(c.http.value, "u")[0]
  {
    match c.http
    case None => c.connectionId
    case Some(q) => JoinValues(QueryValues(q, "u"))
  }

  /** Every client with an HTTP context but without a "u" parameter gets the
      empty key, so all of them together count as one. */
  lemma MissingUserKeyIsEmpty(c: Connection)
    requires c.http.Some? && "u" !in c.http.value
    ensures PresenceKey(c) == ""
  {
  }

  /** `OnConnectedAsync`: track the key, and broadcast the new count only if
      the key was not online before. */
  function OnConnected(t: Tracker, c: Connection): (r: (Option<nat>, Tracker))
    ensures r.1 == t + {PresenceKey(c)}
    ensures r.0.Some? <==> PresenceKey(c) !in t
    ensures r.0.Some? ==> r.0.value == GetOnlineUsersCount(r.1) && r.0.value == |t| + 1
  {
    var (added, after) := UserConnected(t, PresenceKey(c));
    (if added then Some(GetOnlineUsersCount(after)) else None, after)
  }

  /** `OnDisconnectedAsync`: untrack the key, and broadcast the new count
      only if the key was online. */
  function OnDisconnected(t: Tracker, c: Connection): (r: (Option<nat>, Tracker))
    ensures r.1 == t - {PresenceKey(c)}
    ensures r.0.Some? <==> PresenceKey(c) in t
    ensures r.0.Some? ==> r.0.value == GetOnlineUsersCount(r.1) && r.0.value == |t| - 1
  {
    var (removed, after) := UserDisconnected(t, PresenceKey(c));
    (if removed then Some(GetOnlineUsersCount(after)) else None, after)
  }

  /** Every broadcast reports the tracker's count at that moment, so the
      clients' counter always matches the tracker after a broadcast. */
  lemma BroadcastMatchesTracker(t: Tracker, c: Connection)
    ensures OnConnected(t, c).0.Some? ==> OnConnected(t, c).0.value == GetOnlineUsersCount(OnConnected(t, c).1)
    ensures OnDisconnected(t, c).0.Some? ==> OnDisconnected(t, c).0.value == GetOnlineUsersCount(OnDisconnected(t, c).1)
  {
  }

  /** Two connections sharing a key (two tabs of one user): the second
      connect broadcasts nothing, the first disconnect already takes the
      key offline and broadcasts, and the second disconnect broadcasts
      nothing, although its tab is still open until then. */
  lemma SharedKeyCountsOnce(t: Tracker, first: Connection, second: Connection)
    requires PresenceKey(first) == PresenceKey(second) && PresenceKey(first) !in t
    ensures var (b1, t1) := OnConnected(t, first);
      var (b2, t2) := OnConnected(t1, second);
      var (b3, t3) := OnDisconnected(t2, first);
      var (b4, t4) := OnDisconnected(t3, second);
      && b1 == Some(|t| + 1) && b2.None? && t2 == t1
      && b3 == Some(|t|) && !GetUserConnectionStatus(t3, PresenceKey(second))
      && b4.None? && t4 == t
  {
  }
}
