/**
 * The refresh-token protocol of AuthService (src/auth/auth.service.ts), as
 * functions over the user table.
 *
 * Every user row has one refresh slot.  register and login fill it, a refresh
 * overwrites it, logout clears it; each fill stores the digest of exactly the
 * refresh token handed back to the caller.  Credentials that do not check out
 * all fail with the same "Invalid credentials" error and leave the table as it
 * was.
 */
module Session {
  import opened Wrappers
  import opened Argon
  import opened Jwt
  import opened UserTable

  /** ConfigService: the process configuration, key to value. */
  type Config = map<string, string>

  const AccessSecretKey := "JWT_ACCESS_TOKEN_SECRET"
  const AccessExpirationKey := "JWT_ACCESS_TOKEN_EXPIRATION"
  const RefreshSecretKey := "JWT_REFRESH_TOKEN_SECRET"
  const RefreshExpirationKey := "JWT_REFRESH_TOKEN_EXPIRATION"

  const InvalidCredentials := Forbidden("Invalid credentials")

  datatype AuthDto = AuthDto(email: string, password: string)

  datatype Tokens = Tokens(accessToken: Token, refreshToken: Token)

  /** config.get(key); a missing key reads as undefined. */
  function Get(config: Config, key: string): (r: Option<string>)
    ensures r.Some? <==> key in config
    ensures r.Some? ==> r.value == config[key]
  {
    if key in config then Some(config[key]) else None
  }

  /** The slot holds a digest that accepts `token` and nothing else. */
  ghost predicate HoldsHashOf(slot: Option<Digest<Token>>, token: Token)
  {
    slot.Some? && IsHashOf(slot.value, token)
  }

  /** Some row has this email and its password digest accepts this password. */
  ghost predicate Authenticates(t: Table, email: string, password: string)
  {
    exists id :: id in t.rows && t.rows[id].email == email && Verify(t.rows[id].password, password)
  }

  /** Row `id` exists, its slot is filled, and the slot accepts `presented`. */
  ghost predicate RefreshAccepted(t: Table, userId: int, presented: Token)
  {
    && userId in t.rows
    && t.rows[userId].refreshToken.Some?
    && Verify(t.rows[userId].refreshToken.value, presented)
  }

  /**
   * The signing half of #getTokens: both tokens carry `{sub, name, email}`;
   * the access token is signed with the ACCESS secret and expiration, the
   * refresh token with the REFRESH ones.
   */
  function IssueTokens(config: Config, userId: int, name: string, email: string, now: nat): (r: Tokens)
    ensures r.accessToken.payload == Payload(userId, name, email)
    ensures r.refreshToken.payload == Payload(userId, name, email)
    ensures r.accessToken.options == SignOptions(Get(config, AccessSecretKey), Get(config, AccessExpirationKey))
    ensures r.refreshToken.options == SignOptions(Get(config, RefreshSecretKey), Get(config, RefreshExpirationKey))
    ensures r.accessToken.issuedAt == now && r.refreshToken.issuedAt == now
  {
    var payload := Payload(userId, name, email);
    var accessToken := Sign(payload, SignOptions(Get(config, AccessSecretKey), Get(config, AccessExpirationKey)), now);
    var refreshToken := Sign(payload, SignOptions(Get(config, RefreshSecretKey), Get(config, RefreshExpirationKey)), now);
    Tokens(accessToken, refreshToken)
  }

  /** #getTokens: issue a pair, then store the digest of its refresh token in the user's slot. */
  function GetTokens(t: Table, config: Config, userId: int, name: string, email: string, now: nat, salt: nat)
    : (r: Reply<Tokens>)
    requires UserTable.Valid(t)
    ensures UserTable.Valid(r.table)
    ensures r.result.Ok? <==> userId in t.rows
    ensures r.result.Err? ==> r.result.error == RecordNotFound && r.table == t
    ensures r.result.Ok? ==>
      && r.result.value == IssueTokens(config, userId, name, email, now)
      && SlotOnlyChanged(t, r.table, userId)
      && HoldsHashOf(r.table.rows[userId].refreshToken, r.result.value.refreshToken)
  {
    var tokens := IssueTokens(config, userId, name, email, now);
    var stored := UpdateRefreshToken(t, userId, Some(tokens.refreshToken), salt);
    if stored.result.Err? then Reply(Err(stored.result.error), stored.table)
    else Reply(Ok(tokens), stored.table)
  }

  /**
   * register(newUser): create the user, then issue its first pair.  The new
   * row's id, an id no existing row has, is the `sub` claim of the returned
   * tokens; no existing row changes.
   */
  function Register(t: Table, config: Config, newUser: CreateUserDto, now: nat, passwordSalt: nat, tokenSalt: nat)
    : (r: Reply<Tokens>)
    requires UserTable.Valid(t)
    ensures UserTable.Valid(r.table)
    ensures r.result.Ok? <==> !EmailTaken(t.rows, newUser.email)
    ensures r.result.Err? ==> r.result.error == EmailInUse && r.table == t
    ensures r.result.Ok? ==>
      var (id, tokens) := (r.result.value.refreshToken.payload.sub, r.result.value);
      && id !in t.rows
      && r.table.rows.Keys == t.rows.Keys + {id}
      && (forall k :: k in t.rows ==> r.table.rows[k] == t.rows[k])
      && r.table.rows[id].email == newUser.email && r.table.rows[id].name == newUser.name
      && IsHashOf(r.table.rows[id].password, newUser.password)
      && tokens == IssueTokens(config, id, newUser.name, newUser.email, now)
      && HoldsHashOf(r.table.rows[id].refreshToken, tokens.refreshToken)
  {
    var created := Create(t, newUser, passwordSalt);
    if created.result.Err? then
      Reply(Err(created.result.error), created.table)
    else
      var user := created.result.value;
      GetTokens(created.table, config, user.id, user.name, user.email, now, tokenSalt)
  }

  /**
   * login(userCredentials): an unknown email and a wrong password fail alike
   * and change nothing; otherwise the user's slot is refilled.
   */
  function Login(t: Table, config: Config, credentials: AuthDto, now: nat, salt: nat): (r: Reply<Tokens>)
    requires UserTable.Valid(t)
    ensures UserTable.Valid(r.table)
    ensures r.result.Ok? <==> Authenticates(t, credentials.email, credentials.password)
    ensures r.result.Err? ==> r.result.error == InvalidCredentials && r.table == t
    ensures r.result.Ok? ==>
      forall id :: id in t.rows && t.rows[id].email == credentials.email ==>
        && SlotOnlyChanged(t, r.table, id)
        && r.result.value == IssueTokens(config, id, t.rows[id].name, credentials.email, now)
        && HoldsHashOf(r.table.rows[id].refreshToken, r.result.value.refreshToken)
  {
    match Find(t, ByEmail(credentials.email))
    case None => Reply(Err(InvalidCredentials), t)
    case Some(user) =>
      if !Verify(user.password, credentials.password) then
        Reply(Err(InvalidCredentials), t)
      else
        GetTokens(t, config, user.id, user.name, user.email, now, salt)
  }

  /**
   * logout(userId): clear the user's slot.  Only a missing row fails, with
   * Prisma's record-not-found error, which the service does not catch.
   */
  function Logout(t: Table, userId: int): (r: Reply<()>)
    requires UserTable.Valid(t)
    ensures UserTable.Valid(r.table)
    ensures r.result.Ok? <==> userId in t.rows
    ensures r.result.Err? ==> r.result.error == RecordNotFound && r.table == t
    ensures r.result.Ok? ==> SlotOnlyChanged(t, r.table, userId) && r.table.rows[userId].refreshToken == None
  {
    // a null token draws no salt, so any salt gives the same table
    UpdateRefreshToken(t, userId, None, 0)
  }

  /**
   * refreshTokens(userId, refreshToken): succeed exactly when the user exists,
   * its slot is filled and the slot accepts the presented token; then the slot
   * is overwritten with the digest of the new refresh token.
   */
  function RefreshTokens(t: Table, config: Config, userId: int, presented: Token, now: nat, salt: nat)
    : (r: Reply<Tokens>)
    requires UserTable.Valid(t)
    ensures UserTable.Valid(r.table)
    ensures r.result.Ok? <==> RefreshAccepted(t, userId, presented)
    ensures r.result.Err? ==> r.result.error == InvalidCredentials && r.table == t
    ensures r.result.Ok? ==>
      && SlotOnlyChanged(t, r.table, userId)
      && r.result.value == IssueTokens(config, userId, t.rows[userId].name, t.rows[userId].email, now)
      && HoldsHashOf(r.table.rows[userId].refreshToken, r.result.value.refreshToken)
  {
    match Find(t, ById(userId))
    case None => Reply(Err(InvalidCredentials), t)
    case Some(user) =>
      if user.refreshToken.None? then
        Reply(Err(InvalidCredentials), t)
      else if !Verify(user.refreshToken.value, presented) then
        Reply(Err(InvalidCredentials), t)
      else
        GetTokens(t, config, user.id, user.name, user.email, now, salt)
  }

  /**
   * An unknown email and a known email with a wrong password produce the same
   * outcome: the same error and the same, unchanged table.
   */
  lemma LoginFailuresIndistinguishable(
    t: Table, config: Config, unknown: AuthDto, wrong: AuthDto, now: nat, salt: nat, now': nat, salt': nat)
    requires UserTable.Valid(t)
    requires !EmailTaken(t.rows, unknown.email)
    requires exists id :: id in t.rows && t.rows[id].email == wrong.email && !Verify(t.rows[id].password, wrong.password)
    ensures Login(t, config, unknown, now, salt) == Login(t, config, wrong, now', salt') == Reply(Err(InvalidCredentials), t)
  {
  }

  /**
   * After a successful login, refreshTokens for that user accepts exactly the
   * refresh token the login returned.
   */
  lemma LoginThenRefresh(
    t: Table, config: Config, credentials: AuthDto, now: nat, salt: nat,
    userId: int, presented: Token, now': nat, salt': nat)
    requires UserTable.Valid(t)
    requires userId in t.rows && t.rows[userId].email == credentials.email
    requires Login(t, config, credentials, now, salt).result.Ok?
    ensures
      var login := Login(t, config, credentials, now, salt);
      var refresh := RefreshTokens(login.table, config, userId, presented, now', salt');
      refresh.result.Ok? <==> presented == login.result.value.refreshToken
  {
  }

  /**
   * A user just registered can log in with the same email and password, and
   * that login takes over the slot register filled.
   */
  lemma RegisterThenLogin(
    t: Table, config: Config, newUser: CreateUserDto, now: nat, passwordSalt: nat, tokenSalt: nat,
    now': nat, salt': nat)
    requires UserTable.Valid(t)
    requires !EmailTaken(t.rows, newUser.email)
    ensures
      var registered := Register(t, config, newUser, now, passwordSalt, tokenSalt);
      var login := Login(registered.table, config, AuthDto(newUser.email, newUser.password), now', salt');
      var id := registered.result.value.refreshToken.payload.sub;
      && login.result.Ok?
      && login.result.value == IssueTokens(config, id, newUser.name, newUser.email, now')
      && HoldsHashOf(login.table.rows[id].refreshToken, login.result.value.refreshToken)
  {
  }

  /**
   * After a successful refresh, the next refresh accepts exactly the refresh
   * token the previous one returned.
   */
  lemma RefreshThenRefresh(
    t: Table, config: Config, userId: int, presented: Token, now: nat, salt: nat,
    next: Token, now': nat, salt': nat)
    requires UserTable.Valid(t)
    requires RefreshTokens(t, config, userId, presented, now, salt).result.Ok?
    ensures
      var first := RefreshTokens(t, config, userId, presented, now, salt);
      var second := RefreshTokens(first.table, config, userId, next, now', salt');
      second.result.Ok? <==> next == first.result.value.refreshToken
  {
  }

  /**
   * Issuing twice in the same second repeats the refresh token, so the token
   * a refresh replaced can still be accepted afterwards: the slot holds the
   * digest of the latest token, which here equals the earlier one.
   */
  lemma SameSecondRefreshRepeatsToken(
    t: Table, config: Config, userId: int, presented: Token, now: nat, salt: nat, now': nat, salt': nat)
    requires UserTable.Valid(t)
    requires RefreshTokens(t, config, userId, presented, now, salt).result.Ok?
    requires presented == IssueTokens(config, userId, t.rows[userId].name, t.rows[userId].email, now).refreshToken
    ensures
      var first := RefreshTokens(t, config, userId, presented, now, salt);
      && first.result.value.refreshToken == presented
      && RefreshTokens(first.table, config, userId, presented, now', salt').result.Ok?
  {
  }

  /** One call to the auth service, with the clock and salts it draws. */
  datatype Call =
    | RegisterCall(newUser: CreateUserDto, now: nat, passwordSalt: nat, tokenSalt: nat)
    | LoginCall(credentials: AuthDto, now: nat, tokenSalt: nat)
    | LogoutCall(userId: int)
    | RefreshCall(userId: int, presented: Token, now: nat, tokenSalt: nat)

  /** The table after one call, whatever the call returned. */
  function Step(t: Table, config: Config, call: Call): (t': Table)
    requires UserTable.Valid(t)
    ensures UserTable.Valid(t')
  {
    match call
    case RegisterCall(newUser, now, passwordSalt, tokenSalt) =>
      Register(t, config, newUser, now, passwordSalt, tokenSalt).table
    case LoginCall(credentials, now, tokenSalt) => Login(t, config, credentials, now, tokenSalt).table
    case LogoutCall(userId) => Logout(t, userId).table
    case RefreshCall(userId, presented, now, tokenSalt) =>
      RefreshTokens(t, config, userId, presented, now, tokenSalt).table
  }

  /** The table after a sequence of calls. */
  function Run(t: Table, config: Config, calls: seq<Call>): (t': Table)
    requires UserTable.Valid(t)
    ensures UserTable.Valid(t')
    decreases |calls|
  {
    if calls == [] then t else Run(Step(t, config, calls[0]), config, calls[1..])
  }

  /**
   * The call is not a login with this user's email and a password its digest
   * accepts: the only call that can refill the slot of an existing user with
   * an empty slot.  A login attempt with a wrong password is allowed.
   */
  predicate NotLoginAs(call: Call, user: User)
  {
    !(call.LoginCall? && call.credentials.email == user.email && Verify(user.password, call.credentials.password))
  }

  /** A user whose slot is empty keeps its whole row, empty slot included, across any call other than a login as that user. */
  lemma StepKeepsLoggedOut(t: Table, config: Config, call: Call, userId: int)
    requires UserTable.Valid(t)
    requires userId in t.rows && t.rows[userId].refreshToken == None
    requires NotLoginAs(call, t.rows[userId])
    ensures
      var t' := Step(t, config, call);
      userId in t'.rows && t'.rows[userId] == t.rows[userId]
  {
  }

  /** StepKeepsLoggedOut, over any sequence of calls none of which is a successful login as the user. */
  lemma {:induction false} RunKeepsLoggedOut(t: Table, config: Config, calls: seq<Call>, userId: int)
    requires UserTable.Valid(t)
    requires userId in t.rows && t.rows[userId].refreshToken == None
    requires forall i :: 0 <= i < |calls| ==> NotLoginAs(calls[i], t.rows[userId])
    ensures
      var t' := Run(t, config, calls);
      userId in t'.rows && t'.rows[userId] == t.rows[userId]
    decreases |calls|
  {
    if calls != [] {
      StepKeepsLoggedOut(t, config, calls[0], userId);
      var next := Step(t, config, calls[0]);
      assert forall i :: 0 <= i < |calls[1..]| ==> NotLoginAs(calls[1..][i], next.rows[userId]) by {
        forall i | 0 <= i < |calls[1..]|
          ensures NotLoginAs(calls[1..][i], next.rows[userId])
        {
          assert calls[1..][i] == calls[i + 1];
        }
      }
      RunKeepsLoggedOut(next, config, calls[1..], userId);
    }
  }

  /**
   * After logout(userId), every refreshTokens(userId, _) fails with "Invalid
   * credentials" and changes nothing, whatever other calls come in between,
   * failed login attempts included, until someone logs in as that user again.
   */
  lemma LogoutThenRefreshFails(
    t: Table, config: Config, userId: int, calls: seq<Call>, presented: Token, now: nat, salt: nat)
    requires UserTable.Valid(t)
    requires userId in t.rows
    requires forall i :: 0 <= i < |calls| ==> NotLoginAs(calls[i], t.rows[userId])
    ensures
      var later := Run(Logout(t, userId).table, config, calls);
      RefreshTokens(later, config, userId, presented, now, salt) == Reply(Err(InvalidCredentials), later)
  {
    var out := Logout(t, userId).table;
    assert out.rows[userId] == t.rows[userId].(refreshToken := None);
    RunKeepsLoggedOut(out, config, calls, userId);
  }

  /**
   * Logout, then a login with the user's email and a wrong password, then a
   * refresh: the failed login fills nothing, so the refresh is refused.
   */
  lemma LogoutWrongPasswordRefreshFails(
    t: Table, config: Config, userId: int, password: string, loginNow: nat, loginSalt: nat,
    presented: Token, now: nat, salt: nat)
    requires UserTable.Valid(t)
    requires userId in t.rows && !Verify(t.rows[userId].password, password)
    ensures
      var out := Logout(t, userId).table;
      var attempt := Login(out, config, AuthDto(t.rows[userId].email, password), loginNow, loginSalt);
      && attempt.result == Err(InvalidCredentials)
      && RefreshTokens(attempt.table, config, userId, presented, now, salt) == Reply(Err(InvalidCredentials), attempt.table)
  {
    var calls := [LoginCall(AuthDto(t.rows[userId].email, password), loginNow, loginSalt)];
    LogoutThenRefreshFails(t, config, userId, calls, presented, now, salt);
    assert Run(Logout(t, userId).table, config, calls) == Run(Step(Logout(t, userId).table, config, calls[0]), config, []);
  }
}
