/** `RefreshTokenService`: the lifetime of refresh tokens in the token table.
    The table is a map from token value to record (the token column carries a
    unique index); the clock, the configuration and the random token value
    are parameters. */
module RefreshTokenService {
  import opened Base
  import opened Text
  import opened RefreshTokens

  /** The refresh-token table, keyed by token value. */
  type Store = map<string, RefreshToken>

  /** Every record is stored under its own token value. */
  predicate Valid(s: Store) {
    forall k :: k in s ==> s[k].token == k
  }

  /** The configuration key the constructor reads. */
  const ExpirationDaysKey: string := "Authentication:Jwt:RefreshTokenExpirationDays"

  /** The key the `JwtSettings.RefreshTokenExpiryDays` property binds to. */
  const SettingsExpiryDaysKey: string := "Authentication:Jwt:RefreshTokenExpiryDays"

  const DefaultExpirationDays: int := 1

  /** Reason recorded on a token revoked by rotation. */
  const RotationReason: string := "TOKEN ROTATION"

  /** The configured value of a key, `null` when it is absent. */
  function Lookup(config: map<string, string>, key: string): (r: Option<string>)
    ensures r.Some? <==> key in config
    ensures r.Some? ==> r.value == config[key]
  {
    if key in config then Some(config[key]) else None
  }

  /** The constructor: the number of days a new token lives is the parsed
      configuration value whenever it parses as a 32-bit integer (zero and
      negative values included), and 1 otherwise. */
  function ExpirationDays(config: map<string, string>): (days: int)
    ensures InInt32(days)
    ensures ExpirationDaysKey !in config ==> days == DefaultExpirationDays
  {
    TryParseInt32(Lookup(config, ExpirationDaysKey)).GetOr(DefaultExpirationDays)
  }

  /** Any 32-bit value written in the configuration, zero or negative
      included, is taken as is. */
  lemma ExpirationDaysConfigured(config: map<string, string>, n: int)
    requires InInt32(n)
    requires ExpirationDaysKey in config && config[ExpirationDaysKey] == FormatInt(n)
    ensures ExpirationDays(config) == n
  {
    ParseFormatRoundTrip(n);
  }

  /** A value that does not parse falls back to one day. */
  lemma ExpirationDaysUnparsable(config: map<string, string>)
    requires ExpirationDaysKey in config
    requires TryParseInt32(Some(config[ExpirationDaysKey])).None?
    ensures ExpirationDays(config) == DefaultExpirationDays
  {
  }

  /** The key `JwtSettings` binds for the refresh-token lifetime has no
      effect: only the differently named key is read. */
  lemma SettingsKeyIgnored(config: map<string, string>, value: string)
    ensures ExpirationDays(config[SettingsExpiryDaysKey := value]) == ExpirationDays(config)
  {
    assert ExpirationDaysKey != SettingsExpiryDaysKey by {
      assert |ExpirationDaysKey| != |SettingsExpiryDaysKey|;
    }
    assert Lookup(config[SettingsExpiryDaysKey := value], ExpirationDaysKey) == Lookup(config, ExpirationDaysKey);
  }

  /** `GenerateRefreshTokenAsync`: a new unrevoked token with the value
      `minted` (the random 64 bytes in Base64), owned by `userId`, created
      from `ip`, expiring `days` days after `now`, added to the table. */
  function Generate(s: Store, userId: Id, ip: string, minted: string, now: int, days: int): (r: (RefreshToken, Store))
    requires Valid(s) && minted !in s
    ensures r.0.token == minted && r.0.userId == userId && r.0.createdByIp == ip
    ensures r.0.expiresAt == AddDays(now, days) && !r.0.isRevoked
    ensures r.0.revokedAt.None? && r.0.revokedByIp.None? && r.0.revokedReason.None?
    ensures r.0.replacedByToken.None?
    ensures Valid(r.1) && r.1.Keys == s.Keys + {minted} && r.1[minted] == r.0
    ensures forall k :: k in s ==> r.1[k] == s[k]
  {
    var t := RefreshToken(minted, userId, AddDays(now, days), false, None, None, None, ip, None);
    (t, s[minted := t])
  }

  /** `GetRefreshTokenAsync`: the stored token with the given value, if any. */
  function Get(s: Store, token: string): (r: Option<RefreshToken>)
    requires Valid(s)
    ensures r.Some? <==> token in s
    ensures r.Some? ==> r.value.token == token && r.value == s[token]
  {
    if token in s then Some(s[token]) else None
  }

  /** `ValidateRefreshTokenAsync`. */
  function Validate(s: Store, token: string, now: int): (b: bool)
    requires Valid(s)
    ensures b <==> Get(s, token).Some? && IsActive(Get(s, token).value, now)
  {
    token in s && IsActive(s[token], now)
  }

  /** `RevokeRefreshTokenAsync`: an active token is marked revoked with the
      time, address and reason; anything else leaves the table as it was. */
  function Revoke(s: Store, token: string, ip: string, reason: string, now: int): (r: Store)
    requires Valid(s)
    ensures Valid(r) && r.Keys == s.Keys
    ensures forall k :: k in s && k != token ==> r[k] == s[k]
    ensures !Validate(s, token, now) ==> r == s
    ensures Validate(s, token, now) ==>
      r[token] == s[token].(isRevoked := true, revokedAt := Some(now),
                            revokedByIp := Some(ip), revokedReason := Some(reason))
    ensures token in r ==> !IsActive(r[token], now)
  {
    match Get(s, token)
    case Some(t) =>
      if IsActive(t, now) then
        s[token := t.(isRevoked := true, revokedAt := Some(now),
                      revokedByIp := Some(ip), revokedReason := Some(reason))]
      else s
    case None => s
  }

  /** Revoking a token that has not expired yet never changes anything: the
      revocation guard uses `IsActive`, which requires expiry. */
  lemma RevokeUnexpiredIsNoOp(s: Store, token: string, ip: string, reason: string, now: int)
    requires Valid(s) && token in s && !IsExpired(s[token], now)
    ensures Revoke(s, token, ip, reason, now) == s
  {
  }

  /** Revoking twice is revoking once. */
  lemma RevokeIdempotent(s: Store, token: string, ip: string, reason: string, now: int)
    requires Valid(s)
    ensures Revoke(Revoke(s, token, ip, reason, now), token, ip, reason, now)
         == Revoke(s, token, ip, reason, now)
  {
  }

  /** `RefreshTokens.Add(t)` followed by `SaveChangesAsync`, where `pending`
      is `s` with the tracked rows' unsaved edits. A record whose token is
      already stored collides with the primary key and with the unique index
      `IX_RefreshTokens_Token`, and the database rejects the whole save,
      pending edits included (`None`). */
  function AddAndSave(s: Store, pending: Store, t: RefreshToken): (r: Option<Store>)
    requires Valid(s) && Valid(pending) && pending.Keys == s.Keys
    ensures r.None? <==> t.token in s
    ensures r.Some? ==> Valid(r.value) && r.value.Keys == s.Keys + {t.token} && r.value[t.token] == t
    ensures r.Some? ==> forall k :: k in s ==> r.value[k] == pending[k]
  {
    if t.token in s then None else Some(pending[t.token := t])
  }

  /** The old token `previous` pointing to its successor `successor`, as an
      unsaved edit of the tracked row. */
  function Link(s: Store, previous: string, successor: string): (r: Store)
    requires Valid(s)
    ensures Valid(r) && r.Keys == s.Keys
    ensures previous in s ==> r[previous] == s[previous].(replacedByToken := Some(successor))
    ensures forall k :: k in s && k != previous ==> r[k] == s[k]
  {
    if previous in s then s[previous := s[previous].(replacedByToken := Some(successor))] else s
  }

  /** How a rotation ends: the successor it built, whether its last save
      went through, and the table afterwards. */
  datatype Rotation = Rotation(successor: RefreshToken, saved: bool, store: Store)

  /** `RotateRefreshTokenAsync`: revoke the previous token with reason
      "TOKEN ROTATION" (saved; it only happens if the token is active),
      generate a successor for the previous token's owner (saved), record the
      successor on the old token, then add the successor a second time and
      save. The successor is stored by then, so that last save is rejected:
      the rotation never completes, the table keeps the revocation and the
      successor, and the old token never records its successor. */
  function Rotate(s: Store, previous: RefreshToken, ip: string, minted: string, now: int, days: int): (r: Rotation)
    requires Valid(s) && minted !in s && minted != previous.token
    ensures !r.saved
    ensures r.successor.token == minted && r.successor.userId == previous.userId && r.successor.createdByIp == ip
    ensures r.successor.expiresAt == AddDays(now, days) && !r.successor.isRevoked
    ensures r.successor.replacedByToken.None?
    ensures Valid(r.store) && r.store.Keys == s.Keys + {minted} && r.store[minted] == r.successor
    ensures forall k :: k in s && k != previous.token ==> r.store[k] == s[k]
    ensures previous.token in s ==> r.store[previous.token].replacedByToken == s[previous.token].replacedByToken
    ensures previous.token in s && IsActive(s[previous.token], now) ==>
      r.store[previous.token].isRevoked && r.store[previous.token].revokedReason == Some(RotationReason)
      && r.store[previous.token].revokedAt == Some(now) && r.store[previous.token].revokedByIp == Some(ip)
    ensures previous.token in s && !IsActive(s[previous.token], now) ==> r.store[previous.token] == s[previous.token]
  {
    var revoked := Revoke(s, previous.token, ip, RotationReason, now);
    var (t, generated) := Generate(revoked, previous.userId, ip, minted, now, days);
    var saved := AddAndSave(generated, Link(generated, previous.token, t.token), t);
    Rotation(t, saved.Some?, saved.GetOr(generated))
  }

  /** The rotation without the second add: the last save stores the link
      from the old token to its successor. */
  function RotateIntended(s: Store, previous: RefreshToken, ip: string, minted: string, now: int, days: int): (r: Rotation)
    requires Valid(s) && minted !in s && minted != previous.token
    ensures r.saved
    ensures r.successor.token == minted && r.successor.userId == previous.userId
    ensures Valid(r.store) && r.store.Keys == s.Keys + {minted} && r.store[minted] == r.successor
    ensures previous.token in s ==> r.store[previous.token].replacedByToken == Some(minted)
  {
    var revoked := Revoke(s, previous.token, ip, RotationReason, now);
    var (t, generated) := Generate(revoked, previous.userId, ip, minted, now, days);
    Rotation(t, true, Link(generated, previous.token, t.token))
  }

  /** The rotation as written and the intended one issue the same successor
      and leave the same table except for the old token's link: the rejected
      save loses exactly that edit. */
  lemma RotateLosesOnlyTheLink(s: Store, previous: RefreshToken, ip: string, minted: string, now: int, days: int)
    requires Valid(s) && minted !in s && minted != previous.token
    ensures var written := Rotate(s, previous, ip, minted, now, days);
      var intended := RotateIntended(s, previous, ip, minted, now, days);
      && written.successor == intended.successor
      && Link(written.store, previous.token, minted) == intended.store
  {
  }

  /** `CleanupExpiredTokensAsync`: removes every token satisfying `IsActive`. */
  function Cleanup(s: Store, now: int): (r: Store)
    requires Valid(s)
    ensures Valid(r)
    ensures forall k :: k in r <==> k in s && !IsActive(s[k], now)
    ensures forall k :: k in r ==> r[k] == s[k]
  {
    map k | k in s && !IsActive(s[k], now) :: s[k]
  }

  /** After cleanup no stored token is active, and cleaning up again at the
      same instant changes nothing. */
  lemma CleanupLeavesNoneActive(s: Store, now: int)
    requires Valid(s)
    ensures forall k :: k in Cleanup(s, now) ==> !Validate(Cleanup(s, now), k, now)
    ensures Cleanup(Cleanup(s, now), now) == Cleanup(s, now)
  {
  }

  /** What cleanup keeps: every revoked token and every token not yet
      expired; what it removes: every expired, unrevoked token. */
  lemma CleanupKeepsRevokedAndUnexpired(s: Store, now: int, k: string)
    requires Valid(s) && k in s
    ensures k in Cleanup(s, now) <==> s[k].isRevoked || !IsExpired(s[k], now)
  {
  }

  /** A token generated with a positive lifetime is not active when it is
      issued, so it cannot be validated until it has expired. */
  lemma FreshTokenNotActive(s: Store, userId: Id, ip: string, minted: string, now: int, days: int)
    requires Valid(s) && minted !in s && days > 0
    ensures !Validate(Generate(s, userId, ip, minted, now, days).1, minted, now)
  {
  }

  /** A freshly generated token becomes valid exactly once its expiry has
      passed: at any later instant `later`, validation succeeds iff
      `later` is past `now` plus the lifetime. */
  lemma GeneratedValidIffExpired(s: Store, userId: Id, ip: string, minted: string, now: int, days: int, later: int)
    requires Valid(s) && minted !in s
    ensures Validate(Generate(s, userId, ip, minted, now, days).1, minted, later)
        <==> later > now + days * TicksPerDay
  {
  }
}
