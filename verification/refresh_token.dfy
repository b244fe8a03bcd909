/** The `RefreshToken` entity and its two derived properties, `IsExpired` and
    `IsActive`, exactly as the entity class defines them. */
module RefreshTokens {
  import opened Base

  /** A stored refresh token. `UserId` links it to its owner; the revocation
      fields are filled in together when the token is revoked. */
  datatype RefreshToken = RefreshToken(
    token: string,
    userId: Id,
    expiresAt: int,
    isRevoked: bool,
    revokedReason: Option<string>,
    revokedAt: Option<int>,
    replacedByToken: Option<string>,
    createdByIp: string,
    revokedByIp: Option<string>)

  /** `IsExpired`: the current time is strictly later than the expiry instant. */
  predicate IsExpired(t: RefreshToken, now: int) {
    now > t.expiresAt
  }

  /** `IsActive` as the entity defines it: expired AND not revoked. */
  predicate IsActive(t: RefreshToken, now: int) {
    IsExpired(t, now) && !t.isRevoked
  }

  /** What the name `IsActive` suggests (not expired and not revoked). It is
      used only to compare with the definition above and nowhere else. */
  predicate IntendedIsActive(t: RefreshToken, now: int) {
    !IsExpired(t, now) && !t.isRevoked
  }

  /** The expiry instant itself still counts as not expired; one tick later
      the token is expired. */
  lemma ExpiryBoundary(t: RefreshToken)
    ensures !IsExpired(t, t.expiresAt)
    ensures IsExpired(t, t.expiresAt + 1)
  {
  }

  /** A token whose expiry lies in the future (or is now) is never active. */
  lemma UnexpiredNeverActive(t: RefreshToken, now: int)
    requires now <= t.expiresAt
    ensures !IsActive(t, now)
  {
  }

  /** A revoked token is never active, whatever its expiry. */
  lemma RevokedNeverActive(t: RefreshToken, now: int)
    requires t.isRevoked
    ensures !IsActive(t, now)
  {
  }

  /** On an unrevoked token the written and the intended notions are exact
      opposites; on a revoked one both are false. So the two never agree on
      a token that is active under either reading. */
  lemma ActiveIsOppositeOfIntended(t: RefreshToken, now: int)
    ensures !t.isRevoked ==> (IsActive(t, now) <==> !IntendedIsActive(t, now))
    ensures t.isRevoked ==> !IsActive(t, now) && !IntendedIsActive(t, now)
  {
  }

  /** Only the expiry instant and the revocation flag matter: two tokens that
      agree on those agree on both predicates, whatever their other fields. */
  lemma StatusDependsOnlyOnExpiryAndRevocation(t: RefreshToken, u: RefreshToken, now: int)
    requires t.expiresAt == u.expiresAt && t.isRevoked == u.isRevoked
    ensures IsExpired(t, now) == IsExpired(u, now)
    ensures IsActive(t, now) == IsActive(u, now)
  {
  }
}
