/** `JwtService`: the settings check of its constructor, the claims of an
    access token, and the two validation paths. Signing is idealised: a
    token records the key bytes it was signed with and whether it was
    signed at all, and the token handler accepts a signature exactly when
    those bytes are the validation key's bytes. */
module Jwt {
  import opened Base
  import opened Text
  import opened Encodings

  /** `JwtSettings` as bound from the "Authentication:Jwt" section. The
      access-token lifetime is kept in whole minutes. */
  datatype JwtSettings = JwtSettings(
    issuer: string,
    audience: string,
    signingKey: string,
    accessTokenExpiryMinutes: int,
    refreshTokenExpiryDays: int)

  /** The outcome of the constructor. */
  datatype Service = Ready(settings: JwtSettings) | NotConfigured(error: string)

  const SettingsMissingMessage: string := "JWT settings are not configured properly."

  /** The constructor: a missing settings section throws, anything bound is
      accepted as is. */
  function Configure(section: Option<JwtSettings>): (r: Service)
    ensures r.Ready? <==> section.Some?
    ensures r.Ready? ==> r.settings == section.value
    ensures r.NotConfigured? ==> r.error == SettingsMissingMessage
  {
    match section
    case Some(settings) => Ready(settings)
    case None => NotConfigured(SettingsMissingMessage)
  }

  /** The four claim types the service writes. */
  datatype ClaimType = NameIdentifier | Email | Name | RoleClaim

  datatype Claim = Claim(kind: ClaimType, value: string)

  /** The user fields `GenerateAccessToken` reads, with the names of the
      user's roles in the order the user's role links are enumerated. */
  datatype Subject = Subject(id: Id, email: string, firstName: string, lastName: string, roleNames: seq<string>)

  /** The "Name" claim: first and last name joined by a space, trimmed. */
  function DisplayName(firstName: string, lastName: string): string {
    Trim(firstName + " " + lastName)
  }

  /** The claims of an access token. `guidText` is `Guid.ToString()`. */
  function Claims(guidText: Id -> string, u: Subject): (r: seq<Claim>)
    ensures |r| == 3 + |u.roleNames|
    ensures r[0] == Claim(NameIdentifier, guidText(u.id))
    ensures r[1] == Claim(Email, u.email)
    ensures r[2] == Claim(Name, DisplayName(u.firstName, u.lastName))
    ensures forall i :: 3 <= i < |r| ==> r[i] == Claim(RoleClaim, u.roleNames[i - 3])
  {
    [Claim(NameIdentifier, guidText(u.id)), Claim(Email, u.email), Claim(Name, DisplayName(u.firstName, u.lastName))]
      + RoleClaims(u.roleNames)
  }

  /** One role claim per name, in order. */
  function RoleClaims(names: seq<string>): (r: seq<Claim>)
    ensures |r| == |names|
    ensures forall i :: 0 <= i < |r| ==> r[i] == Claim(RoleClaim, names[i])
  {
    seq(|names|, i requires 0 <= i < |names| => Claim(RoleClaim, names[i]))
  }

  /** What `ClaimsPrincipal.IsInRole` and `FindAll(ClaimTypes.Role)` see:
      the values of the role claims, in order. */
  function RolesIn(claims: seq<Claim>): (r: seq<string>)
    ensures |r| <= |claims|
  {
    if |claims| == 0 then []
    else (if claims[0].kind == RoleClaim then [claims[0].value] else []) + RolesIn(claims[1..])
  }

  /** The first claim of a type, as `FindFirst` returns it. */
  function FindFirst(claims: seq<Claim>, kind: ClaimType): (r: Option<string>)
    ensures r.Some? <==> exists i :: 0 <= i < |claims| && claims[i].kind == kind
  {
    if |claims| == 0 then None
    else if claims[0].kind == kind then Some(claims[0].value)
    else FindFirst(claims[1..], kind)
  }

  lemma {:induction false} RolesInAppend(a: seq<Claim>, b: seq<Claim>)
    ensures RolesIn(a + b) == RolesIn(a) + RolesIn(b)
  {
    if |a| == 0 {
      assert a + b == b;
    } else {
      var h := if a[0].kind == RoleClaim then [a[0].value] else [];
      assert (a + b)[0] == a[0] && (a + b)[1..] == a[1..] + b;
      assert RolesIn(a + b) == h + RolesIn(a[1..] + b);
      RolesInAppend(a[1..], b);
      assert RolesIn(a) == h + RolesIn(a[1..]);
      assert h + (RolesIn(a[1..]) + RolesIn(b)) == (h + RolesIn(a[1..])) + RolesIn(b);
    }
  }

  lemma {:induction false} RolesOfRoleClaims(names: seq<string>)
    ensures RolesIn(RoleClaims(names)) == names
  {
    if |names| > 0 {
      assert RoleClaims(names)[1..] == RoleClaims(names[1..]);
      RolesOfRoleClaims(names[1..]);
    }
  }

  /** Reading the claims back: the identifier, e-mail and name claims are
      found first, and the role claims give back the user's role names,
      in order and nothing else. */
  lemma {:induction false} ClaimsReadBack(guidText: Id -> string, u: Subject)
    ensures FindFirst(Claims(guidText, u), NameIdentifier) == Some(guidText(u.id))
    ensures FindFirst(Claims(guidText, u), Email) == Some(u.email)
    ensures FindFirst(Claims(guidText, u), Name) == Some(DisplayName(u.firstName, u.lastName))
    ensures RolesIn(Claims(guidText, u)) == u.roleNames
  {
    var head := [Claim(NameIdentifier, guidText(u.id)), Claim(Email, u.email), Claim(Name, DisplayName(u.firstName, u.lastName))];
    var c := Claims(guidText, u);
    assert FindFirst(c, Name) == FindFirst(c[1..], Name);
    assert c[1..][0] == c[1] && FindFirst(c[1..], Name) == FindFirst(c[1..][1..], Name);
    assert c[1..][1..] == c[2..] && c[2..][0] == c[2];
    RolesInAppend(head, RoleClaims(u.roleNames));
    RolesOfRoleClaims(u.roleNames);
    assert RolesIn(head) == [] by {
      assert head[1..] == head[1..3] && head[1..][1..] == head[2..3] && head[2..3][1..] == [];
      assert RolesIn(head[2..3]) == [];
    }
  }

  /** A user without a first or last name gets an empty name claim, not
      a lone space. */
  lemma NameOfNamelessUser()
    ensures DisplayName("", "") == ""
  {
    assert "" + " " + "" == " ";
    TrimBlank(" ");
  }

  /** `SecurityAlgorithms.HmacSha512`, the JWS "alg" header value of
      HMAC with SHA-512 (section 3.2 of RFC 7518). */
  const HS512: string := "HS512"

  /** A token as the token handler sees it once parsed: the header's "alg"
      (section 4.1.1 of RFC 7515), the registered "iss", "aud" and "exp"
      claims, the other claims, and the key bytes of its signature
      (`None` for an unsigned token). */
  datatype Token = Token(
    alg: string,
    issuer: string,
    audience: string,
    claims: seq<Claim>,
    expires: int,
    signedWith: Option<Bytes>)

  /** `GenerateAccessToken`: HMAC-SHA-512 with the UTF-8 bytes of the key,
      the configured issuer and audience, and an expiry the configured
      number of minutes after `now`. */
  function GenerateAccessToken(settings: JwtSettings, guidText: Id -> string, u: Subject, now: int): (t: Token)
    ensures t.alg == HS512
    ensures t.issuer == settings.issuer && t.audience == settings.audience
    ensures t.expires == AddMinutes(now, settings.accessTokenExpiryMinutes)
    ensures t.signedWith == Some(Utf8(settings.signingKey))
    ensures FindFirst(t.claims, NameIdentifier) == Some(guidText(u.id))
    ensures RolesIn(t.claims) == u.roleNames
  {
    ClaimsReadBack(guidText, u);
    Token(HS512, settings.issuer, settings.audience, Claims(guidText, u),
          AddMinutes(now, settings.accessTokenExpiryMinutes), Some(Utf8(settings.signingKey)))
  }

  /** The validation key: the ASCII bytes of the configured key. */
  function ValidationKey(settings: JwtSettings): (k: Bytes)
    ensures |k| == |settings.signingKey|
  {
    Ascii(settings.signingKey)
  }

  /** `tokenHandler.ValidateToken` with the service's parameters: the text
      must parse (`None` when it does not), carry a signature made with the
      validation key, and name the configured issuer and audience. The
      lifetime is not checked. */
  predicate HandlerAccepts(settings: JwtSettings, token: Option<Token>) {
    && token.Some?
    && token.value.signedWith == Some(ValidationKey(settings))
    && token.value.issuer == settings.issuer
    && token.value.audience == settings.audience
  }

  /** `ValidateToken`: every exception the handler throws becomes `false`. */
  function ValidateToken(settings: JwtSettings, token: Option<Token>): (ok: bool)
    ensures ok ==> token.Some? && token.value.signedWith.Some?
    ensures ok ==> token.value.issuer == settings.issuer && token.value.audience == settings.audience
    ensures ok <==> HandlerAccepts(settings, token)
  {
    HandlerAccepts(settings, token)
  }

  /** The outcome of `GetClaimsPrincipal`: the principal, the handler's own
      exception, or the service's "Invalid token". A principal holds the
      token's claims and, beside them, the registered "iss", "aud" and "exp"
      claims the handler also turns into principal claims. */
  datatype PrincipalResult =
    | Principal(claims: seq<Claim>, issuer: string, audience: string, expires: int)
    | HandlerRejected
    | InvalidToken(message: string)

  const InvalidTokenMessage: string := "Invalid token"

  /** `GetClaimsPrincipal`: the handler's validation, then the header
      algorithm must be HS512 compared ignoring case under the invariant
      culture, whose case folding is `fold`. */
  function GetClaimsPrincipal(fold: string -> string, settings: JwtSettings, token: Option<Token>): (r: PrincipalResult)
    ensures !ValidateToken(settings, token) ==> r == HandlerRejected
    ensures ValidateToken(settings, token) && !SameIgnoringCase(fold, token.value.alg, HS512) ==>
      r == InvalidToken(InvalidTokenMessage)
    ensures r.Principal? <==> ValidateToken(settings, token) && SameIgnoringCase(fold, token.value.alg, HS512)
    ensures r.Principal? ==> r.claims == token.value.claims && r.expires == token.value.expires
    ensures r.Principal? ==> r.issuer == settings.issuer && r.audience == settings.audience
  {
    if !HandlerAccepts(settings, token) then HandlerRejected
    else if !SameIgnoringCase(fold, token.value.alg, HS512) then InvalidToken(InvalidTokenMessage)
    else Principal(token.value.claims, token.value.issuer, token.value.audience, token.value.expires)
  }

  /** A token the service minted passes validation exactly when the key is
      plain ASCII: it is signed with the UTF-8 bytes of the key and checked
      against its ASCII bytes. */
  lemma MintedTokenValidIffAsciiKey(settings: JwtSettings, guidText: Id -> string, u: Subject, now: int)
    ensures ValidateToken(settings, Some(GenerateAccessToken(settings, guidText, u, now)))
        <==> AllAscii(settings.signingKey)
  {
    EncodingsAgreeIffAscii(settings.signingKey);
  }

  /** With an ASCII key, a minted token yields a principal whatever the case
      folding: exactly the user's claims, the configured issuer and audience,
      and the expiry the configured number of minutes after minting. */
  lemma MintedTokenPrincipal(fold: string -> string, settings: JwtSettings, guidText: Id -> string, u: Subject, now: int)
    requires AllAscii(settings.signingKey)
    ensures GetClaimsPrincipal(fold, settings, Some(GenerateAccessToken(settings, guidText, u, now)))
         == Principal(Claims(guidText, u), settings.issuer, settings.audience,
                      AddMinutes(now, settings.accessTokenExpiryMinutes))
  {
    EncodingsAgreeIffAscii(settings.signingKey);
  }

  /** Neither path looks at the expiry: moving it anywhere, into the past
      included, changes no answer except the expiry the principal carries. */
  lemma LifetimeIgnored(fold: string -> string, settings: JwtSettings, t: Token, expires: int)
    ensures ValidateToken(settings, Some(t.(expires := expires))) == ValidateToken(settings, Some(t))
    ensures var p := GetClaimsPrincipal(fold, settings, Some(t));
      GetClaimsPrincipal(fold, settings, Some(t.(expires := expires))) == if p.Principal? then p.(expires := expires) else p
  {
  }

  /** Only `GetClaimsPrincipal` checks the algorithm: a token that validates
      under any other algorithm name is accepted by `ValidateToken` and
      refused with "Invalid token" by `GetClaimsPrincipal`. */
  lemma AlgorithmGuardOnlyInPrincipal(fold: string -> string, settings: JwtSettings, t: Token, alg: string)
    requires ValidateToken(settings, Some(t))
    requires fold(alg) != fold(HS512)
    ensures ValidateToken(settings, Some(t.(alg := alg)))
    ensures GetClaimsPrincipal(fold, settings, Some(t.(alg := alg))) == InvalidToken(InvalidTokenMessage)
  {
  }

  /** An unsigned token is never accepted. */
  lemma UnsignedRejected(fold: string -> string, settings: JwtSettings, t: Token)
    requires t.signedWith.None?
    ensures !ValidateToken(settings, Some(t))
    ensures GetClaimsPrincipal(fold, settings, Some(t)) == HandlerRejected
  {
  }
}
