/** `AuthController`: registration, login, token refresh and logout over
    the user, role, user-role and refresh-token tables. Password hashing and
    verification, the clock, the client address, fresh identifiers and the
    random refresh-token value are parameters. */
module AuthEndpoints {
  import opened Base
  import opened Entities
  import opened Repository
  import opened ApiResponses
  import opened RefreshTokens
  import RefreshTokenService
  import opened Jwt

  /** The tables the controller reads and writes through the context. */
  datatype Accounts = Accounts(
    users: Table<User>,
    roles: Table<Role>,
    userRoles: seq<UserRole>,
    tokens: RefreshTokenService.Store)

  /** The unique index on the user's e-mail, compared exactly. */
  predicate EmailsUnique(users: Table<User>) {
    forall i, j :: 0 <= i < j < |users| ==> users[i].data.email != users[j].data.email
  }

  /** The unique index `IX_Roles_Name`, compared exactly. */
  predicate RoleNamesUnique(roles: Table<Role>) {
    forall i, j :: 0 <= i < j < |roles| ==> roles[i].data.name != roles[j].data.name
  }

  /** Primary keys, the two unique indexes, the foreign keys of the
      user-role links, and a token table keyed by token value. */
  ghost predicate Valid(a: Accounts) {
    && UniqueIds(a.users) && UniqueIds(a.roles)
    && EmailsUnique(a.users) && RoleNamesUnique(a.roles)
    && (forall i :: 0 <= i < |a.userRoles| ==>
          a.userRoles[i].userId in Ids(a.users) && a.userRoles[i].roleId in Ids(a.roles))
    && RefreshTokenService.Valid(a.tokens)
  }

  /** What one request brings along: the clock, the client address, the
      configuration the refresh-token service reads, the JWT settings and
      `Guid.ToString()`. */
  datatype Env = Env(
    now: int,
    remoteIp: Option<string>,
    config: map<string, string>,
    jwt: JwtSettings,
    guidText: Id -> string)

  /** `RemoteIpAddress?.ToString() ?? "unknown"`. */
  function ClientIp(remoteIp: Option<string>): (r: string)
    ensures remoteIp.Some? ==> r == remoteIp.value
    ensures remoteIp.None? ==> r == "unknown"
  {
    remoteIp.GetOr("unknown")
  }

  /** The expiry every response reports: thirty minutes after `now`. */
  const ReportedLifetimeMinutes: int := 30

  datatype RegisterRequest = RegisterRequest(
    email: string, firstName: string, lastName: string, password: string, phoneNumber: Option<string>)

  datatype LoginRequest = LoginRequest(email: string, password: string)

  /** `UserProfileDto`. */
  datatype UserProfile = UserProfile(
    id: Id, email: string, firstName: string, lastName: string, phoneNumber: Option<string>, lastLoginAt: int)

  /** `LoginResponse`, with the access token in its parsed form. */
  datatype LoginResponse = LoginResponse(accessToken: Token, refreshToken: string, expiresAt: int, profile: UserProfile)

  /** `RefreshTokenResponse`. */
  datatype RefreshResponse = RefreshResponse(accessToken: Token, refreshToken: string, expiresAt: int)

  /** The first user with exactly this e-mail. */
  function UserByEmail(users: Table<User>, email: string): (r: Option<Entity<User>>)
    ensures r.Some? ==> r.value in users && r.value.data.email == email
    ensures r.None? <==> forall i :: 0 <= i < |users| ==> users[i].data.email != email
  {
    Find(users, (u: Entity<User>) => u.data.email == email)
  }

  /** Some role is named exactly `name`. */
  predicate RoleNamed(roles: Table<Role>, name: string) {
    exists i :: 0 <= i < |roles| && roles[i].data.name == name
  }

  /** The names of user `id`'s roles, following its links in order (the
      `Include(u => u.UserRoles).ThenInclude(ur => ur.Role)` load). */
  function RoleNamesOf(roles: Table<Role>, links: seq<UserRole>, id: Id): (r: seq<string>)
    requires UniqueIds(roles)
    ensures |r| <= |links|
  {
    if |links| == 0 then []
    else
      var rest := RoleNamesOf(roles, links[1..], id);
      if links[0].userId != id then rest
      else match FindById(roles, links[0].roleId)
        case Some(role) => [role.data.name] + rest
        case None => rest
  }

  /** The subject of an access token for a stored user. */
  function SubjectOf(a: Accounts, u: Entity<User>): Subject
    requires UniqueIds(a.roles)
  {
    Subject(u.id, u.data.email, u.data.firstName, u.data.lastName, RoleNamesOf(a.roles, a.userRoles, u.id))
  }

  function ProfileOf(u: Entity<User>, now: int): (p: UserProfile)
    ensures p.id == u.id && p.email == u.data.email && p.phoneNumber == u.data.phoneNumber && p.lastLoginAt == now
  {
    UserProfile(u.id, u.data.email, u.data.firstName, u.data.lastName, u.data.phoneNumber, now)
  }

  /** The identifiers and the token value a request may mint, each not yet
      in use. */
  datatype NewKeys = NewKeys(userId: Id, roleId: Id, token: string)

  ghost predicate FreshFor(a: Accounts, f: NewKeys) {
    f.userId !in Ids(a.users) && f.roleId !in Ids(a.roles) && f.token !in a.tokens
  }

  const UserRoleName: string := "User"

  /** The user row `Register` builds: hash and salt from `hash`, the
      creation time, and no phone number. */
  function NewUser(req: RegisterRequest, hash: string -> (string, string), id: Id, now: int): (u: Entity<User>)
    ensures u.id == id && u.data.email == req.email && u.data.phoneNumber.None?
    ensures u.data.passwordHash == hash(req.password).0 && u.data.passwordSalt == hash(req.password).1
    ensures u.stamps.createdAt == now
  {
    Entity(id, User(req.email, hash(req.password).0, hash(req.password).1, req.firstName, req.lastName, None, false),
           Unstamped.(createdAt := now))
  }

  /** A request that was answered with status 200. */
  predicate Accepted<T>(r: Response<T>) {
    r.Answer? && r.reply.status == Ok
  }

  /** The access token a registration hands out: the new user with the
      single role "User". */
  function RegisteredSubject(req: RegisterRequest, id: Id): Subject {
    Subject(id, req.email, req.firstName, req.lastName, [UserRoleName])
  }

  /** The successful part of `Register`: save the user, the new role and the
      link, generate a refresh token, and describe the session. */
  function Enrol(a: Accounts, req: RegisterRequest, hash: string -> (string, string), env: Env, keys: NewKeys)
    : (r: (LoginResponse, Accounts))
    requires Valid(a) && FreshFor(a, keys)
    requires UserByEmail(a.users, req.email).None? && !RoleNamed(a.roles, UserRoleName)
    ensures Valid(r.1)
    ensures r.1.users == a.users + [NewUser(req, hash, keys.userId, env.now)]
    ensures r.1.roles == a.roles + [Entity(keys.roleId, Role(UserRoleName, ""), Unstamped)]
    ensures r.1.userRoles == a.userRoles + [UserRole(keys.userId, keys.roleId)]
    ensures r.1.tokens == RefreshTokenService.Generate(a.tokens, keys.userId, ClientIp(env.remoteIp), keys.token, env.now,
                                                       RefreshTokenService.ExpirationDays(env.config)).1
    ensures r.0.refreshToken == keys.token
    ensures r.0.expiresAt == AddMinutes(env.now, ReportedLifetimeMinutes)
    ensures r.0.profile == ProfileOf(NewUser(req, hash, keys.userId, env.now), env.now)
    ensures r.0.accessToken == GenerateAccessToken(env.jwt, env.guidText, RegisteredSubject(req, keys.userId), env.now)
  {
    var user := NewUser(req, hash, keys.userId, env.now);
    var role := Entity(keys.roleId, Role(UserRoleName, ""), Unstamped);
    var (token, tokens) := RefreshTokenService.Generate(a.tokens, user.id, ClientIp(env.remoteIp), keys.token, env.now,
                                                        RefreshTokenService.ExpirationDays(env.config));
    var access := GenerateAccessToken(env.jwt, env.guidText, RegisteredSubject(req, user.id), env.now);
    var b := Accounts(a.users + [user], a.roles + [role], a.userRoles + [UserRole(user.id, role.id)], tokens);
    EnrolKeepsValid(a, user, role, tokens);
    (LoginResponse(access, token.token, AddMinutes(env.now, ReportedLifetimeMinutes), ProfileOf(user, env.now)), b)
  }

  lemma EnrolKeepsValid(a: Accounts, user: Entity<User>, role: Entity<Role>, tokens: RefreshTokenService.Store)
    requires Valid(a) && user.id !in Ids(a.users) && role.id !in Ids(a.roles)
    requires forall i :: 0 <= i < |a.users| ==> a.users[i].data.email != user.data.email
    requires forall i :: 0 <= i < |a.roles| ==> a.roles[i].data.name != role.data.name
    requires RefreshTokenService.Valid(tokens)
    ensures Valid(Accounts(a.users + [user], a.roles + [role], a.userRoles + [UserRole(user.id, role.id)], tokens))
  {
    IdsAppend(a.users, user);
    IdsAppend(a.roles, role);
    var links := a.userRoles + [UserRole(user.id, role.id)];
    forall i | 0 <= i < |links|
      ensures links[i].userId in Ids(a.users + [user]) && links[i].roleId in Ids(a.roles + [role])
    {
      if i < |a.userRoles| {
        assert links[i] == a.userRoles[i];
      }
    }
  }

  /** `Register`: an e-mail already present is refused. Otherwise the user
      is saved together with a new role named "User" and the link between
      them; when a role of that name already exists the unique index makes
      the save throw `uniqueViolation`, which nothing catches. After the
      save a refresh token is generated for the user and the reply carries
      both tokens and the profile. */
  function Register(a: Accounts, req: RegisterRequest, hash: string -> (string, string), env: Env,
                    keys: NewKeys, uniqueViolation: Exception): (r: (Response<LoginResponse>, Accounts))
    requires Valid(a) && FreshFor(a, keys)
    ensures Valid(r.1)
    ensures UserByEmail(a.users, req.email).Some? ==>
      r.0 == Answer(Reply(BadRequest, Fail("Email already registered", "Email already registered"))) && r.1 == a
    ensures UserByEmail(a.users, req.email).None? && RoleNamed(a.roles, UserRoleName) ==>
      r.0 == Thrown(uniqueViolation) && r.1 == a
    ensures Accepted(r.0) <==> UserByEmail(a.users, req.email).None? && !RoleNamed(a.roles, UserRoleName)
    ensures Accepted(r.0) ==>
      && r.0.reply.body == SuccessResult(Enrol(a, req, hash, env, keys).0, "User registered successfully")
      && r.1 == Enrol(a, req, hash, env, keys).1
  {
    if UserByEmail(a.users, req.email).Some? then
      (Answer(Reply(BadRequest, Fail("Email already registered", "Email already registered"))), a)
    else if RoleNamed(a.roles, UserRoleName) then
      (Thrown(uniqueViolation), a)
    else
      var (response, b) := Enrol(a, req, hash, env, keys);
      (Answer(Reply(Ok, SuccessResult(response, "User registered successfully"))), b)
  }

  /** A registration's access token names the new user and grants exactly
      the role "User". */
  lemma RegisterGrantsUserRole(a: Accounts, req: RegisterRequest, hash: string -> (string, string), env: Env, keys: NewKeys)
    requires Valid(a) && FreshFor(a, keys)
    requires UserByEmail(a.users, req.email).None? && !RoleNamed(a.roles, UserRoleName)
    ensures var t := Enrol(a, req, hash, env, keys).0.accessToken;
      FindFirst(t.claims, NameIdentifier) == Some(env.guidText(keys.userId)) && RolesIn(t.claims) == [UserRoleName]
  {
  }

  /** Once anyone has registered, every later registration with a new
      e-mail throws: it tries to create a second role named "User". */
  lemma SecondRegistrationThrows(a: Accounts, first: RegisterRequest, second: RegisterRequest,
                                 hash: string -> (string, string), env: Env, f1: NewKeys, f2: NewKeys,
                                 uniqueViolation: Exception)
    requires Valid(a) && FreshFor(a, f1)
    requires Accepted(Register(a, first, hash, env, f1, uniqueViolation).0)
    requires FreshFor(Register(a, first, hash, env, f1, uniqueViolation).1, f2)
    requires second.email != first.email
    requires UserByEmail(a.users, second.email).None?
    ensures var b := Register(a, first, hash, env, f1, uniqueViolation).1;
      Register(b, second, hash, env, f2, uniqueViolation) == (Thrown(uniqueViolation), b)
  {
    var b := Register(a, first, hash, env, f1, uniqueViolation).1;
    assert b == Enrol(a, first, hash, env, f1).1;
    assert RoleNamed(b.roles, UserRoleName) by {
      assert b.roles[|a.roles|].data.name == UserRoleName;
    }
    assert UserByEmail(b.users, second.email).None? by {
      assert b.users == a.users + [NewUser(first, hash, f1.userId, env.now)];
      forall i | 0 <= i < |b.users| ensures b.users[i].data.email != second.email {
        if i < |a.users| {
          assert b.users[i] == a.users[i];
        }
      }
    }
  }

  /** `Login`: the first user with exactly this e-mail whose stored hash and
      salt `verify` accepts for the password gets a fresh refresh token and
      an access token with its roles; anyone else is refused and nothing
      changes. The user row is never written. */
  function Login(a: Accounts, req: LoginRequest, verify: (string, string, string) -> bool, env: Env, minted: string)
    : (r: (Reply<LoginResponse>, Accounts))
    requires Valid(a) && minted !in a.tokens
    ensures Valid(r.1)
    ensures r.1.users == a.users && r.1.roles == a.roles && r.1.userRoles == a.userRoles
    ensures r.0.status == Ok <==>
      UserByEmail(a.users, req.email).Some?
      && verify(req.password, UserByEmail(a.users, req.email).value.data.passwordHash,
                UserByEmail(a.users, req.email).value.data.passwordSalt)
    ensures r.0.status != Ok ==>
      r.0 == Reply(Unauthorized, Fail("Invalid credentials", "Invalid email or password")) && r.1 == a
    ensures r.0.status == Ok ==>
      var user := UserByEmail(a.users, req.email).value;
      var body := r.0.body;
      && body.success && body.message == "Logged in successfully" && body.data.Some?
      && r.1.tokens == RefreshTokenService.Generate(a.tokens, user.id, ClientIp(env.remoteIp), minted, env.now,
                                                    RefreshTokenService.ExpirationDays(env.config)).1
      && r.1.tokens.Keys == a.tokens.Keys + {minted} && r.1.tokens[minted].userId == user.id
      && body.data.value.refreshToken == minted
      && body.data.value.expiresAt == AddMinutes(env.now, ReportedLifetimeMinutes)
      && body.data.value.profile == ProfileOf(user, env.now)
      && body.data.value.accessToken == GenerateAccessToken(env.jwt, env.guidText, SubjectOf(a, user), env.now)
  {
    match UserByEmail(a.users, req.email)
    case None => (Reply(Unauthorized, Fail("Invalid credentials", "Invalid email or password")), a)
    case Some(user) =>
      if !verify(req.password, user.data.passwordHash, user.data.passwordSalt) then
        (Reply(Unauthorized, Fail("Invalid credentials", "Invalid email or password")), a)
      else
        var access := GenerateAccessToken(env.jwt, env.guidText, SubjectOf(a, user), env.now);
        var (token, tokens) := RefreshTokenService.Generate(a.tokens, user.id, ClientIp(env.remoteIp), minted, env.now,
                                                            RefreshTokenService.ExpirationDays(env.config));
        var response := LoginResponse(access, token.token, AddMinutes(env.now, ReportedLifetimeMinutes), ProfileOf(user, env.now));
        (Reply(Ok, SuccessResult(response, "Logged in successfully")), a.(tokens := tokens))
  }

  /** The role names of the user a registration created are exactly
      ["User"]: the new user's only link points at the new role. */
  lemma {:induction false} RoleNamesOfNewUser(roles: Table<Role>, links: seq<UserRole>, role: Entity<Role>, id: Id)
    requires UniqueIds(roles + [role]) && role.id !in Ids(roles)
    requires forall i :: 0 <= i < |links| ==> links[i].userId != id
    ensures RoleNamesOf(roles + [role], links + [UserRole(id, role.id)], id) == [role.data.name]
  {
    var all := roles + [role];
    if |links| == 0 {
      assert all[|roles|] == role;
      assert FindById(all, role.id) == Some(role);
      assert (links + [UserRole(id, role.id)])[1..] == [];
    } else {
      assert (links + [UserRole(id, role.id)])[1..] == links[1..] + [UserRole(id, role.id)];
      RoleNamesOfNewUser(roles, links[1..], role, id);
    }
  }

  /** Registering and then logging in with the same e-mail, with a
      password the verifier accepts, finds the new user, reports the same
      profile, and grants exactly the role "User". */
  lemma RegisterThenLogin(a: Accounts, req: RegisterRequest, hash: string -> (string, string),
                          verify: (string, string, string) -> bool, env: Env, keys: NewKeys,
                          uniqueViolation: Exception, minted: string)
    requires Valid(a) && FreshFor(a, keys)
    requires Accepted(Register(a, req, hash, env, keys, uniqueViolation).0)
    requires minted !in Register(a, req, hash, env, keys, uniqueViolation).1.tokens
    requires verify(req.password, hash(req.password).0, hash(req.password).1)
    ensures var reg := Register(a, req, hash, env, keys, uniqueViolation);
      var login := Login(reg.1, LoginRequest(req.email, req.password), verify, env, minted);
      && login.0.status == Ok
      && login.0.body.data.value.profile == reg.0.reply.body.data.value.profile
      && RolesIn(login.0.body.data.value.accessToken.claims) == [UserRoleName]
  {
    var reg := Register(a, req, hash, env, keys, uniqueViolation);
    var b := reg.1;
    var user := NewUser(req, hash, keys.userId, env.now);
    var role := Entity(keys.roleId, Role(UserRoleName, ""), Unstamped);
    assert b.users == a.users + [user];
    assert UserByEmail(b.users, req.email) == Some(user) by {
      assert b.users[|a.users|] == user;
      var found := UserByEmail(b.users, req.email);
      var k :| 0 <= k < |b.users| && b.users[k] == found.value && forall i :: 0 <= i < k ==> b.users[i].data.email != req.email;
      assert k == |a.users|;
    }
    assert forall i :: 0 <= i < |a.userRoles| ==> a.userRoles[i].userId != keys.userId;
    RoleNamesOfNewUser(a.roles, a.userRoles, role, keys.userId);
  }

  /** `RefreshToken`: the presented token must be stored and active and its
      owner must exist; then an access token is minted and the token is
      rotated. The rotation's last save is always rejected
      (`RefreshTokenService.Rotate`) and nothing catches the exception, so
      this step ends in `duplicateKey` with the revocation and the
      successor already saved. Every refusal leaves the tables alone. */
  function Refresh(a: Accounts, presented: string, env: Env, minted: string, duplicateKey: Exception)
    : (r: (Response<RefreshResponse>, Accounts))
    requires Valid(a) && minted !in a.tokens
    ensures Valid(r.1)
    ensures r.1.users == a.users && r.1.roles == a.roles && r.1.userRoles == a.userRoles
    ensures !RefreshTokenService.Validate(a.tokens, presented, env.now) ==>
      r.0 == Answer(Reply(Unauthorized, Fail("Invalid refresh token", "Refresh token invalid or expired"))) && r.1 == a
    ensures RefreshTokenService.Validate(a.tokens, presented, env.now) && a.tokens[presented].userId !in Ids(a.users) ==>
      r.0 == Answer(Reply(Unauthorized, Fail("User not found", "User not found"))) && r.1 == a
    ensures r.0.Thrown? <==>
      RefreshTokenService.Validate(a.tokens, presented, env.now) && a.tokens[presented].userId in Ids(a.users)
    ensures r.0.Thrown? ==>
      && r.0.exception == duplicateKey
      && r.1.tokens == RefreshTokenService.Rotate(a.tokens, a.tokens[presented], ClientIp(env.remoteIp), minted, env.now,
                                                  RefreshTokenService.ExpirationDays(env.config)).store
      && r.1.tokens[minted].userId == a.tokens[presented].userId
      && r.1.tokens[presented].isRevoked
      && r.1.tokens[presented].revokedReason == Some(RefreshTokenService.RotationReason)
      && r.1.tokens[presented].replacedByToken == a.tokens[presented].replacedByToken
  {
    match RefreshTokenService.Get(a.tokens, presented)
    case None => (Answer(Reply(Unauthorized, Fail("Invalid refresh token", "Refresh token invalid or expired"))), a)
    case Some(current) =>
      if !IsActive(current, env.now) then
        (Answer(Reply(Unauthorized, Fail("Invalid refresh token", "Refresh token invalid or expired"))), a)
      else match FindById(a.users, current.userId)
        case None => (Answer(Reply(Unauthorized, Fail("User not found", "User not found"))), a)
        case Some(user) =>
          var rotation := RefreshTokenService.Rotate(a.tokens, current, ClientIp(env.remoteIp), minted, env.now,
                                                     RefreshTokenService.ExpirationDays(env.config));
          (Thrown(duplicateKey), a.(tokens := rotation.store))
  }

  /** No refresh is ever accepted. */
  lemma RefreshNeverAccepted(a: Accounts, presented: string, env: Env, minted: string, duplicateKey: Exception)
    requires Valid(a) && minted !in a.tokens
    ensures !Accepted(Refresh(a, presented, env, minted, duplicateKey).0)
  {
  }

  /** `RefreshToken` over the rotation without the second add: the same
      refusals, and otherwise 200 with the successor and a new access token. */
  function RefreshIntended(a: Accounts, presented: string, env: Env, minted: string): (r: (Reply<RefreshResponse>, Accounts))
    requires Valid(a) && minted !in a.tokens
    ensures Valid(r.1)
    ensures r.1.users == a.users && r.1.roles == a.roles && r.1.userRoles == a.userRoles
    ensures !RefreshTokenService.Validate(a.tokens, presented, env.now) ==>
      r.0 == Reply(Unauthorized, Fail("Invalid refresh token", "Refresh token invalid or expired")) && r.1 == a
    ensures RefreshTokenService.Validate(a.tokens, presented, env.now) && a.tokens[presented].userId !in Ids(a.users) ==>
      r.0 == Reply(Unauthorized, Fail("User not found", "User not found")) && r.1 == a
    ensures r.0.status == Ok <==>
      RefreshTokenService.Validate(a.tokens, presented, env.now) && a.tokens[presented].userId in Ids(a.users)
    ensures r.0.status != Ok ==> r.0.status == Unauthorized && !r.0.body.success
    ensures r.0.status == Ok ==>
      var body := r.0.body;
      && body.success && body.message == "Token refreshed successfully" && body.data.Some?
      && r.1.tokens == RefreshTokenService.RotateIntended(a.tokens, a.tokens[presented], ClientIp(env.remoteIp), minted, env.now,
                                                          RefreshTokenService.ExpirationDays(env.config)).store
      && body.data.value.refreshToken == minted
      && r.1.tokens[minted].userId == a.tokens[presented].userId
      && r.1.tokens[presented].replacedByToken == Some(minted)
      && r.1.tokens[presented].isRevoked
      && body.data.value.expiresAt == AddMinutes(env.now, ReportedLifetimeMinutes)
      && FindFirst(body.data.value.accessToken.claims, NameIdentifier) == Some(env.guidText(a.tokens[presented].userId))
  {
    match RefreshTokenService.Get(a.tokens, presented)
    case None => (Reply(Unauthorized, Fail("Invalid refresh token", "Refresh token invalid or expired")), a)
    case Some(current) =>
      if !IsActive(current, env.now) then
        (Reply(Unauthorized, Fail("Invalid refresh token", "Refresh token invalid or expired")), a)
      else match FindById(a.users, current.userId)
        case None => (Reply(Unauthorized, Fail("User not found", "User not found")), a)
        case Some(user) =>
          var access := GenerateAccessToken(env.jwt, env.guidText, SubjectOf(a, user), env.now);
          var rotation := RefreshTokenService.RotateIntended(a.tokens, current, ClientIp(env.remoteIp), minted, env.now,
                                                             RefreshTokenService.ExpirationDays(env.config));
          var response := RefreshResponse(access, rotation.successor.token, AddMinutes(env.now, ReportedLifetimeMinutes));
          (Reply(Ok, SuccessResult(response, "Token refreshed successfully")), a.(tokens := rotation.store))
  }

  /** A refresh token handed out by a login is refused with 401 by `Refresh`
      at any instant up to its expiry, and reaches the rotation (whose last
      save throws) at any instant after it; over the intended rotation it is
      accepted exactly then. */
  lemma LoginTokenRefreshableOnlyAfterExpiry(a: Accounts, req: LoginRequest, verify: (string, string, string) -> bool,
                                              env: Env, minted: string, later: Env, next: string, duplicateKey: Exception)
    requires Valid(a) && minted !in a.tokens
    requires Login(a, req, verify, env, minted).0.status == Ok
    requires next !in Login(a, req, verify, env, minted).1.tokens
    ensures var b := Login(a, req, verify, env, minted).1;
      var expired := later.now > env.now + RefreshTokenService.ExpirationDays(env.config) * TicksPerDay;
      && (Refresh(b, minted, later, next, duplicateKey).0.Thrown? <==> expired)
      && (!expired ==> Refresh(b, minted, later, next, duplicateKey).0
                       == Answer(Reply(Unauthorized, Fail("Invalid refresh token", "Refresh token invalid or expired"))))
      && (RefreshIntended(b, minted, later, next).0.status == Ok <==> expired)
  {
    var user := UserByEmail(a.users, req.email).value;
    var b := Login(a, req, verify, env, minted).1;
    assert user.id in Ids(b.users);
    RefreshTokenService.GeneratedValidIffExpired(a.tokens, user.id, ClientIp(env.remoteIp), minted, env.now,
                                                 RefreshTokenService.ExpirationDays(env.config), later.now);
  }

  /** `Logout`: the presented token is revoked (only an active one changes),
      and the reply is a success whatever happened. */
  function Logout(a: Accounts, presented: string, env: Env): (r: (Reply<()>, Accounts))
    requires Valid(a)
    ensures Valid(r.1)
    ensures r.0 == Reply(Ok, SuccessResult((), "Logged out successfully"))
    ensures r.1 == a.(tokens := RefreshTokenService.Revoke(a.tokens, presented, ClientIp(env.remoteIp), "User logged out", env.now))
    ensures presented in r.1.tokens ==> !IsActive(r.1.tokens[presented], env.now)
    ensures !RefreshTokenService.Validate(a.tokens, presented, env.now) ==> r.1 == a
  {
    (Reply(Ok, SuccessResult((), "Logged out successfully")),
     a.(tokens := RefreshTokenService.Revoke(a.tokens, presented, ClientIp(env.remoteIp), "User logged out", env.now)))
  }

  /** Logging out with a token that has not expired yet changes nothing,
      so the token stays usable wherever it was usable before. */
  lemma LogoutOfUnexpiredTokenKeepsIt(a: Accounts, presented: string, env: Env)
    requires Valid(a) && presented in a.tokens && !IsExpired(a.tokens[presented], env.now)
    ensures Logout(a, presented, env).1 == a
  {
    RefreshTokenService.RevokeUnexpiredIsNoOp(a.tokens, presented, ClientIp(env.remoteIp), "User logged out", env.now);
  }

  /** The expiry a login reports is thirty minutes after `now`, and agrees
      with the access token's own expiry only when the configured lifetime
      is thirty minutes. */
  lemma ReportedExpiryIgnoresSettings(a: Accounts, req: LoginRequest, verify: (string, string, string) -> bool,
                                      env: Env, minted: string)
    requires Valid(a) && minted !in a.tokens
    requires Login(a, req, verify, env, minted).0.status == Ok
    ensures var data := Login(a, req, verify, env, minted).0.body.data.value;
      data.expiresAt == data.accessToken.expires <==> env.jwt.accessTokenExpiryMinutes == ReportedLifetimeMinutes
  {
    var data := Login(a, req, verify, env, minted).0.body.data.value;
    assert data.expiresAt == AddMinutes(env.now, ReportedLifetimeMinutes);
    assert data.accessToken.expires == AddMinutes(env.now, env.jwt.accessTokenExpiryMinutes);
    AddMinutesInjective(env.now, ReportedLifetimeMinutes, env.jwt.accessTokenExpiryMinutes);
  }
}
