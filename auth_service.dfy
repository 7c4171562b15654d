/**
 * AuthService (src/auth/auth.service.ts): the four auth operations, run
 * against a UsersService whose table they change in place.
 *
 * The service reads the configuration it was built with; the clock second a
 * token is signed in and the salts argon2 draws are parameters.  Each method
 * is proved to return and leave behind exactly what the matching function of
 * Session says, so the protocol properties proved there hold of the service.
 */
module Auth {
  import opened Wrappers
  import opened Argon
  import opened Jwt
  import opened UserTable
  import opened Session
  import opened Users

  class AuthService {
    const users: UsersService
    const config: Config

    constructor (users: UsersService, config: Config)
      ensures this.users == users && this.config == config
    {
      this.users := users;
      this.config := config;
    }

    ghost predicate Valid()
      reads users
    {
      users.Valid()
    }

    method Register(newUser: CreateUserDto, now: nat, passwordSalt: nat, tokenSalt: nat) returns (r: Result<Tokens>)
      requires Valid()
      modifies users
      ensures Valid()
      ensures Reply(r, users.State())
           == Session.Register(old(users.State()), config, newUser, now, passwordSalt, tokenSalt)
    {
      var created := users.Create(newUser, passwordSalt);
      if created.Err? {
        r := Err(created.error);
        return;
      }
      var user := created.value;
      r := GetTokens(user.id, user.name, user.email, now, tokenSalt);
    }

    method Login(credentials: AuthDto, now: nat, salt: nat) returns (r: Result<Tokens>)
      requires Valid()
      modifies users
      ensures Valid()
      ensures Reply(r, users.State()) == Session.Login(old(users.State()), config, credentials, now, salt)
    {
      var found := users.Find(ByEmail(credentials.email));
      if found.None? {
        r := Err(InvalidCredentials);
        return;
      }
      var user := found.value;
      var passwordMatches := Verify(user.password, credentials.password);
      if !passwordMatches {
        r := Err(InvalidCredentials);
        return;
      }
      r := GetTokens(user.id, user.name, user.email, now, salt);
    }

    method Logout(userId: int) returns (r: Result<()>)
      requires Valid()
      modifies users
      ensures Valid()
      ensures Reply(r, users.State()) == Session.Logout(old(users.State()), userId)
    {
      r := users.UpdateRefreshToken(userId, None, 0);
    }

    method RefreshTokens(userId: int, presented: Token, now: nat, salt: nat) returns (r: Result<Tokens>)
      requires Valid()
      modifies users
      ensures Valid()
      ensures Reply(r, users.State())
           == Session.RefreshTokens(old(users.State()), config, userId, presented, now, salt)
    {
      var found := users.Find(ById(userId));
      if found.None? || found.value.refreshToken.None? {
        r := Err(InvalidCredentials);
        return;
      }
      var user := found.value;
      var refreshTokenMatches := Verify(user.refreshToken.value, presented);
      if !refreshTokenMatches {
        r := Err(InvalidCredentials);
        return;
      }
      r := GetTokens(user.id, user.name, user.email, now, salt);
    }

    /** #getTokens: sign the access token, then the refresh token, then store the refresh token's digest. */
    method GetTokens(userId: int, name: string, email: string, now: nat, salt: nat) returns (r: Result<Tokens>)
      requires Valid()
      modifies users
      ensures Valid()
      ensures Reply(r, users.State())
           == Session.GetTokens(old(users.State()), config, userId, name, email, now, salt)
    {
      var payload := Payload(userId, name, email);
      var accessToken := Sign(payload, SignOptions(Get(config, AccessSecretKey), Get(config, AccessExpirationKey)), now);
      var refreshToken := Sign(payload, SignOptions(Get(config, RefreshSecretKey), Get(config, RefreshExpirationKey)), now);
      var stored := users.UpdateRefreshToken(userId, Some(refreshToken), salt);
      if stored.Err? {
        r := Err(stored.error);
        return;
      }
      r := Ok(Tokens(accessToken, refreshToken));
    }
  }

  /**
   * A client of the service: register, log out, and a refresh with the token
   * register returned is refused.
   */
  method RegisterLogoutRefresh(service: AuthService, newUser: CreateUserDto, now: nat, salt: nat)
    returns (refreshed: Result<Tokens>)
    requires service.Valid()
    requires !EmailTaken(service.users.rows, newUser.email)
    modifies service.users
    ensures refreshed == Err(InvalidCredentials)
  {
    var registered := service.Register(newUser, now, salt, salt);
    var tokens := registered.value;
    // the user id travels in the token's `sub` claim
    var id := tokens.refreshToken.payload.sub;
    var loggedOut := service.Logout(id);
    refreshed := service.RefreshTokens(id, tokens.refreshToken, now, salt);
  }
}
