/** `PresenceTracker`: the set of presence keys currently online. The
    concurrent dictionary is used only for its keys, so it is a set here,
    and each operation is one atomic step. */
module Presence {

  type Tracker = set<string>

  /** `UserConnected`: `TryAdd`, which reports whether the key was new. */
  function UserConnected(t: Tracker, key: string): (r: (bool, Tracker))
    ensures r.0 <==> key !in t
    ensures r.1 == t + {key}
    ensures !r.0 ==> r.1 == t
  {
    if key in t then (false, t) else (true, t + {key})
  }

  /** `UserDisconnected`: `TryRemove`, which reports whether the key was
      there. */
  function UserDisconnected(t: Tracker, key: string): (r: (bool, Tracker))
    ensures r.0 <==> key in t
    ensures r.1 == t - {key}
    ensures !r.0 ==> r.1 == t
  {
    if key in t then (true, t - {key}) else (false, t)
  }

  /** `GetOnlineUsersCount`: the number of distinct keys. */
  function GetOnlineUsersCount(t: Tracker): nat {
    |t|
  }

  /** `GetUserConnectionStatus`. */
  predicate GetUserConnectionStatus(t: Tracker, key: string) {
    key in t
  }

  /** A connect that reports success adds one to the count, a disconnect
      that reports success takes one away, and a failed one leaves it. */
  lemma CountFollowsReports(t: Tracker, key: string)
    ensures GetOnlineUsersCount(UserConnected(t, key).1)
         == GetOnlineUsersCount(t) + (if UserConnected(t, key).0 then 1 else 0)
    ensures GetOnlineUsersCount(UserDisconnected(t, key).1)
         == GetOnlineUsersCount(t) - (if UserDisconnected(t, key).0 then 1 else 0)
    ensures GetUserConnectionStatus(UserConnected(t, key).1, key)
    ensures !GetUserConnectionStatus(UserDisconnected(t, key).1, key)
  {
  }

  /** Connecting a key that was not online and then disconnecting it gives
      back the original set. */
  lemma ConnectThenDisconnect(t: Tracker, key: string)
    requires key !in t
    ensures UserDisconnected(UserConnected(t, key).1, key) == (true, t)
  {
  }

  /** Connecting twice is connecting once; the second call reports false. */
  lemma ConnectIdempotent(t: Tracker, key: string)
    ensures UserConnected(UserConnected(t, key).1, key) == (false, UserConnected(t, key).1)
  {
  }

  /** No duplicates. */
  predicate Distinct(s: seq<string>) {
    forall i, j :: 0 <= i < j < |s| ==> s[i] != s[j]
  }

  /** `GetSnapshot`: the keys, each once, in some order. */
  method GetSnapshot(t: Tracker) returns (snapshot: seq<string>)
    ensures Distinct(snapshot)
    ensures forall k :: k in snapshot <==> k in t
    ensures |snapshot| == |t|
  {
    snapshot := [];
    var rest := t;
    while rest != {}
      invariant forall k :: k in snapshot ==> k in t && k !in rest
      invariant forall k :: k in t ==> k in snapshot || k in rest
      invariant rest <= t
      invariant Distinct(snapshot)
      invariant |snapshot| + |rest| == |t|
      decreases |rest|
    {
      var k :| k in rest;
      snapshot := snapshot + [k];
      rest := rest - {k};
    }
  }
}
