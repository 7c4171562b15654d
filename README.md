# Refresh-token sessions of a NestJS JWT service, in Dafny

This project models the session logic of a NestJS authentication service:
`AuthService` (register, login, logout, refreshTokens and the private
`#getTokens`) over `UsersService` (create, find, update, updateRefreshToken,
delete) and the Prisma `user` table behind it.

Every user row has a single `refreshToken` slot. It is either null or holds
the argon2 digest of the last refresh token issued to that user:

- `register` inserts the user (its email must be unique) and fills the slot.
- `login` checks the email and password. Both kinds of failure throw the same
  `ForbiddenException('Invalid credentials')`. On success it fills the slot.
- `refreshTokens(userId, token)` needs the row to exist, the slot to be filled
  and the slot to accept the presented token. It then overwrites the slot.
- `logout(userId)` clears the slot.

Layout, leaves first:

- `wrappers.dfy` (`Wrappers`): `Option`.
- `argon.dfy` (`Argon`): the hashing capability. `Verify(Hash(s, x), y)` holds
  exactly when `x == y`. The salt argon2 draws at random is a parameter.
- `jwt.dfy` (`Jwt`): payload, sign options and tokens. Signing is a
  deterministic function of the payload, the options and the clock second.
- `user_table.dfy` (`UserTable`): the table as a value (`rows: map<int, User>`
  plus the autoincrement counter), its invariant `Valid` (rows sit under their
  own id and emails are unique), and one function per UsersService operation.
  Each function returns a `Reply`: the result or error, and the table after.
- `users_service.dfy` (`Users`): class `UsersService` holding `rows` and
  `nextId` and changing them in place. Each method is proved to agree with the
  `UserTable` function of the same name.
- `session.dfy` (`Session`): one function per AuthService operation over the
  table, plus lemmas about sequences of calls.
- `auth_service.dfy` (`Auth`): class `AuthService` over a `UsersService`. Each
  method is proved to agree with the `Session` function of the same name.

The clock second a token is signed in and the salts argon2 draws are method
parameters. The configuration is a `map<string, string>` read through
`Get`, which returns `None` for a missing key, as `config.get` returns
undefined.

Errors are `Forbidden(message)`, for Nest's `ForbiddenException`, or
`KnownRequest(code)`, for Prisma's known request errors: `P2002` is a unique
violation and `P2025` is a missing record.

The model follows the code, which keeps one refresh slot per user. It has no
table of concurrent sessions, no one-shot rotation and no reuse-triggered
revocation of all sessions. It does not claim that a replaced refresh token is
always refused afterwards. Signing the same payload twice in the same second
gives the same token, and `Session.SameSecondRefreshRepeatsToken` shows the
consequence. The properties are stated as "the slot holds the digest of
exactly the refresh token returned".

## Model

| member | source | states |
|---|---|---|
| Argon.Verify | src/auth/auth.service.ts:29-32 | argon.verify takes the stored hash first and the candidate second, and accepts exactly when hashing the candidate with the digest's own salt reproduces the digest |
| Jwt.Sign | src/auth/auth.service.ts:63-84 | a signed token gives back the payload, the sign options and the issue second it was signed with; signing is a deterministic function of the three |
| Session.Get | src/auth/auth.service.ts:70-71 | config.get returns the configured value for a present key and undefined for a missing one |
| Argon.Hash | src/users/users.service.ts:16 | the digest accepts exactly the hashed value and no other candidate (the assumed argon2 contract, verify taking the hash first) |
| UserTable.CreateFailure | src/users/users.service.ts:19-26 | a P2002 error becomes "Email already in use"; every other error is rethrown unchanged |
| UserTable.Create | src/users/users.service.ts:11-26 | succeeds iff no row has the email; on success adds one row under a new id with the supplied email and name, a password digest accepting exactly the supplied password and a null slot, and leaves all other rows as they were; otherwise fails with "Email already in use" and inserts nothing; email uniqueness is preserved |
| UserTable.Find | src/users/users.service.ts:33-35 | returns a row iff some row matches the unique key (id or email), and the row it returns is that table row and matches the key; null otherwise |
| UserTable.Update | src/users/users.service.ts:37-44 | fails with P2025 if the id is absent and with P2002 if another row has the new email, changing nothing; otherwise overwrites exactly the supplied fields of that row, keeps id, password and slot, and leaves every other row unchanged |
| UserTable.UpdateRefreshToken | src/users/users.service.ts:46-54 | fails with P2025 iff the row is absent; otherwise changes only that row's slot: null stores null, a token stores a digest accepting exactly that token |
| UserTable.Delete | src/users/users.service.ts:56-58 | fails with P2025 iff the row is absent; otherwise returns the row and removes exactly that key, every other row unchanged |
| UserTable.CreateThenFind | src/users/users.service.ts:11-35 | after a successful create, find by the new id and find by the email both return the new row |
| UserTable.DeleteThenFind | src/users/users.service.ts:56-58 | after a successful delete, find by that id and by the deleted row's email both return null |
| Users.UsersService.constructor | src/users/users.service.ts:9 | the service is connected to an existing database, given as any valid table, and starts out holding exactly that table |
| Users.UsersService.Create | src/users/users.service.ts:11-26 | the in-place insert returns and leaves exactly what UserTable.Create gives, and keeps the table invariant |
| Users.UsersService.Find | src/users/users.service.ts:33-35 | the lookup returns exactly UserTable.Find of the current table |
| Users.UsersService.Update | src/users/users.service.ts:37-44 | the in-place update returns and leaves exactly what UserTable.Update gives |
| Users.UsersService.UpdateRefreshToken | src/users/users.service.ts:46-54 | the in-place slot write returns and leaves exactly what UserTable.UpdateRefreshToken gives |
| Users.UsersService.Delete | src/users/users.service.ts:56-58 | the in-place removal returns and leaves exactly what UserTable.Delete gives |
| Session.IssueTokens | src/auth/auth.service.ts:62-85 | both tokens carry `{sub: userId, name, email}`; the access token is signed with the JWT_ACCESS_TOKEN_SECRET and JWT_ACCESS_TOKEN_EXPIRATION settings, the refresh token with the JWT_REFRESH_TOKEN ones |
| Session.GetTokens | src/auth/auth.service.ts:57-93 | succeeds iff the user row exists; then returns the issued pair, changes only that user's slot and leaves it holding the digest of exactly the returned refresh token |
| Session.Register | src/auth/auth.service.ts:18-21 | succeeds iff the email is unused; adds one row, under a previously unused id that is the `sub` claim of the returned tokens, with the supplied fields and hashed password; leaves every existing row unchanged; the new slot holds the digest of exactly the returned refresh token; otherwise "Email already in use" and no change |
| Session.Login | src/auth/auth.service.ts:23-36 | succeeds iff some row has the email and its password digest accepts the password; every failure is "Invalid credentials" with the table unchanged; on success only that user's slot changes, to the digest of exactly the returned refresh token |
| Session.Logout | src/auth/auth.service.ts:38-40 | on an existing user clears that user's slot and changes nothing else; on a missing user fails with P2025 and changes nothing |
| Session.RefreshTokens | src/auth/auth.service.ts:42-55 | succeeds iff the user exists, its slot is non-null and the slot accepts the presented token; every failure is "Invalid credentials" with the table unchanged; on success only that user's slot changes, to the digest of exactly the returned refresh token |
| Session.LoginFailuresIndistinguishable | src/auth/auth.service.ts:23-33 | an unknown email and a wrong password for a known email give the identical reply: the same error and the same unchanged table |
| Session.RegisterThenLogin | src/auth/auth.service.ts:18-35 | right after register, a login with the same email and password succeeds for the new user and refills its slot |
| Session.LoginThenRefresh | src/auth/auth.service.ts:35-54 | after a successful login, refreshTokens for that user succeeds iff the presented token is the refresh token the login returned |
| Session.RefreshThenRefresh | src/auth/auth.service.ts:42-54 | after a successful refresh, the next refresh succeeds iff it presents the refresh token the previous one returned |
| Session.SameSecondRefreshRepeatsToken | src/auth/auth.service.ts:62-92 | a refresh issued in the same second as the token it replaces returns that same token, so the replaced token is still accepted by a later refresh at any second |
| Session.Step | src/auth/auth.service.ts:18-55 | every auth call, successful or not, keeps the table invariant (rows under their own id, unique emails) |
| Session.Run | src/auth/auth.service.ts:18-55 | any sequence of auth calls keeps the table invariant |
| Session.StepKeepsLoggedOut | src/auth/auth.service.ts:18-55 | a user with a null slot keeps its whole row, null slot included, across any auth call other than a successful login as that user (a login with its email and a wrong password is allowed) |
| Session.RunKeepsLoggedOut | src/auth/auth.service.ts:18-55 | the same across any sequence of such calls |
| Session.LogoutThenRefreshFails | src/auth/auth.service.ts:38-45 | after logout(userId), and after any later calls none of which is a successful login as that user (failed login attempts included), refreshTokens(userId, any token) fails with "Invalid credentials" and changes nothing |
| Session.LogoutWrongPasswordRefreshFails | src/auth/auth.service.ts:23-45 | after logout, a login with the user's email and a wrong password fails with "Invalid credentials", and a refresh after it is still refused |
| Auth.AuthService.constructor | src/auth/auth.service.ts:12-16 | the service keeps the users service and configuration it is given |
| Auth.AuthService.Register | src/auth/auth.service.ts:18-21 | the method returns and leaves exactly what Session.Register gives |
| Auth.AuthService.Login | src/auth/auth.service.ts:23-36 | the method returns and leaves exactly what Session.Login gives |
| Auth.AuthService.Logout | src/auth/auth.service.ts:38-40 | the method returns and leaves exactly what Session.Logout gives |
| Auth.AuthService.RefreshTokens | src/auth/auth.service.ts:42-55 | the method returns and leaves exactly what Session.RefreshTokens gives |
| Auth.AuthService.GetTokens | src/auth/auth.service.ts:57-93 | signing both tokens and then storing the refresh digest returns and leaves exactly what Session.GetTokens gives |
| Auth.RegisterLogoutRefresh | src/auth/auth.service.ts:38-45 | a client that registers, logs out with the id from the token's `sub` claim, then refreshes with the registered refresh token gets "Invalid credentials" |

## Left out

- `findAll(filter)` (src/users/users.service.ts:29-31): it passes an untyped Prisma query through unchanged and has no logic of its own.
- The HTTP controller, its guards and decorators, and the module wiring are not part of this model. The controller calls `logout` with two arguments; the service's `logout` takes only the user id, and that is what is modelled.
- How `RefreshTokenGuard` checks the refresh JWT's signature and expiry before `refreshTokens` runs is not part of this model. Here `refreshTokens` receives any user id and any token.
- argon2 internals: a digest records its salt and preimage, and only `Verify` reads it.
- JWT internals: signing is deterministic in payload, options and clock second. Signing failures, secrets, expiry and the `iat`/`exp` claims are not modelled.
- Both signatures in `#getTokens` take the same clock second. The two `signAsync` calls can straddle a second boundary, giving the two tokens different `iat` claims; that case is not modelled.
- The two signatures in `#getTokens` run concurrently under `Promise.all`; they are modelled as sequential, access token first.
- Timing and constant-time behaviour of the failure paths cannot be expressed here.
- Concurrency between requests: every call runs to completion against the table before the next one starts.
- Prisma failures other than P2002 and P2025 (lost connection and the like) are never produced by the model's table. `CreateFailure` still states that `create` rethrows them unchanged.
- `UpdateUserDto` is not part of this model. It is taken to carry an optional email and an optional name. A password field, if the DTO has one, would be written by `update` without hashing; that is not modelled.
- `find` accepts any unique `where` clause; only lookups by id and by email are modelled, the two the services use.
- UserTable.Create: a refused insert leaves the autoincrement counter where it was. On a database whose sequence is drawn before the unique check, such as PostgreSQL, a refused insert uses up an id. No contract here depends on which id a new user gets, only that no existing row has it.
- Jwt.Sign: different sign options always give different tokens here. In jsonwebtoken, equivalent expirations such as "1h" and "60m" give the same token.
- Session.Logout: the salt argument is fixed at 0, because a null token is never hashed.
- Session.LogoutThenRefreshFails: the sequence of later calls contains auth calls only. A `UsersService.update` that changes the user's email between calls is not covered.
