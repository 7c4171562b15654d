/**
 * The user table behind UsersService (src/users/users.service.ts), as a value.
 *
 * Each operation of the service is a function from the table before to a
 * `Reply`: what the call returns or throws, and the table after.  The table is
 * the Prisma `user` relation: rows keyed by an autoincrement id, a unique index
 * on `email`, and a `refreshToken` column that is null or holds an argon2
 * digest of the last refresh token issued to that user.
 */
module UserTable {
  import opened Wrappers
  import opened Argon
  import opened Jwt

  datatype User = User(
    id: int,
    email: string,
    name: string,
    password: Digest<string>,
    refreshToken: Option<Digest<Token>>)

  datatype CreateUserDto = CreateUserDto(email: string, password: string, name: string)

  /** The fields `update` may overwrite; an absent field is left as it is. */
  datatype UpdateUserDto = UpdateUserDto(email: Option<string>, name: Option<string>)

  /** The `where` argument of `find`: one of the table's unique keys. */
  datatype UniqueKey = ById(id: int) | ByEmail(email: string)

  /** What the services throw: Nest's ForbiddenException, or a known Prisma request error. */
  datatype Error = Forbidden(message: string) | KnownRequest(code: string)

  datatype Result<T> = Ok(value: T) | Err(error: Error)

  datatype Table = Table(rows: map<int, User>, nextId: int)

  datatype Reply<T> = Reply(result: Result<T>, table: Table)

  /** Prisma's unique-constraint violation. */
  const UniqueViolation := KnownRequest("P2002")
  /** Prisma's "record to update or delete does not exist". */
  const RecordNotFound := KnownRequest("P2025")
  const EmailInUse := Forbidden("Email already in use")

  /** Every row sits under its own id, below the autoincrement counter, and no two rows share an email. */
  ghost predicate Valid(t: Table)
  {
    && (forall id :: id in t.rows ==> t.rows[id].id == id && id < t.nextId)
    && (forall i, j :: i in t.rows && j in t.rows && t.rows[i].email == t.rows[j].email ==> i == j)
  }

  predicate EmailTaken(rows: map<int, User>, email: string)
  {
    exists id :: id in rows && rows[id].email == email
  }

  /** Some row other than `id` already holds `email`. */
  predicate EmailTakenByOther(rows: map<int, User>, email: string, id: int)
  {
    exists k :: k in rows && k != id && rows[k].email == email
  }

  predicate Matches(u: User, key: UniqueKey)
  {
    match key
    case ById(id) => u.id == id
    case ByEmail(email) => u.email == email
  }

  /** `t'` is `t` with at most the `refreshToken` column of row `id` rewritten. */
  ghost predicate SlotOnlyChanged(t: Table, t': Table, id: int)
  {
    && t'.nextId == t.nextId
    && t'.rows.Keys == t.rows.Keys
    && id in t.rows
    && (forall k :: k in t.rows && k != id ==> t'.rows[k] == t.rows[k])
    && t'.rows[id] == t.rows[id].(refreshToken := t'.rows[id].refreshToken)
  }

  /** The catch block of `create`: a P2002 becomes "Email already in use", anything else is rethrown. */
  function CreateFailure(e: Error): (r: Error)
    ensures e == UniqueViolation ==> r == EmailInUse
    ensures e != UniqueViolation ==> r == e
  {
    if e.KnownRequest? && e.code == "P2002" then EmailInUse else e
  }

  /**
   * create(newUser): insert the supplied fields with the password replaced by
   * its argon2 digest; the unique index refuses an email already in use.
   */
  function Create(t: Table, newUser: CreateUserDto, salt: nat): (r: Reply<User>)
    requires Valid(t)
    ensures Valid(r.table)
    ensures r.result.Ok? <==> !EmailTaken(t.rows, newUser.email)
    ensures r.result.Err? ==> r.result.error == EmailInUse && r.table == t
    ensures r.result.Ok? ==>
      var u := r.result.value;
      && u.id !in t.rows
      && r.table.rows == t.rows[u.id := u]
      && u.email == newUser.email && u.name == newUser.name
      && IsHashOf(u.password, newUser.password)
      && u.refreshToken == None
  {
    var password := Hash(salt, newUser.password);
    if EmailTaken(t.rows, newUser.email) then
      Reply(Err(CreateFailure(UniqueViolation)), t)
    else
      var u := User(t.nextId, newUser.email, newUser.name, password, None);
      Reply(Ok(u), Table(t.rows[t.nextId := u], t.nextId + 1))
  }

  /** find(uniqueIdentifier): the row matching the unique key, or null. */
  function Find(t: Table, key: UniqueKey): (r: Option<User>)
    requires Valid(t)
    ensures r.Some? <==> exists id :: id in t.rows && Matches(t.rows[id], key)
    ensures r.Some? ==> r.value.id in t.rows && t.rows[r.value.id] == r.value && Matches(r.value, key)
  {
    if exists id :: id in t.rows && Matches(t.rows[id], key) then
      var id :| id in t.rows && Matches(t.rows[id], key);
      Some(t.rows[id])
    else
      None
  }

  /** update(id, user): overwrite exactly the supplied fields of row `id`. */
  function Update(t: Table, id: int, user: UpdateUserDto): (r: Reply<User>)
    requires Valid(t)
    ensures Valid(r.table)
    ensures r.result.Ok? <==>
      id in t.rows && !(user.email.Some? && EmailTakenByOther(t.rows, user.email.value, id))
    ensures r.result.Err? ==>
      && r.table == t
      && r.result.error == (if id in t.rows then UniqueViolation else RecordNotFound)
    ensures r.result.Ok? ==>
      var (before, after) := (t.rows[id], r.result.value);
      && r.table.nextId == t.nextId
      && r.table.rows.Keys == t.rows.Keys
      && (forall k :: k in t.rows && k != id ==> r.table.rows[k] == t.rows[k])
      && r.table.rows[id] == after
      && after.id == id && after.password == before.password && after.refreshToken == before.refreshToken
      && after.email == (if user.email.Some? then user.email.value else before.email)
      && after.name == (if user.name.Some? then user.name.value else before.name)
  {
    if id !in t.rows then
      Reply(Err(RecordNotFound), t)
    else if user.email.Some? && EmailTakenByOther(t.rows, user.email.value, id) then
      Reply(Err(UniqueViolation), t)
    else
      var before := t.rows[id];
      var after := before.(
        email := if user.email.Some? then user.email.value else before.email,
        name := if user.name.Some? then user.name.value else before.name);
      Reply(Ok(after), t.(rows := t.rows[id := after]))
  }

  /**
   * updateRefreshToken(id, refreshToken): null clears the slot, a token is
   * stored as its argon2 digest.
   */
  function UpdateRefreshToken(t: Table, id: int, refreshToken: Option<Token>, salt: nat): (r: Reply<()>)
    requires Valid(t)
    ensures Valid(r.table)
    ensures r.result.Ok? <==> id in t.rows
    ensures r.result.Err? ==> r.result.error == RecordNotFound && r.table == t
    ensures r.result.Ok? ==>
      && SlotOnlyChanged(t, r.table, id)
      && (refreshToken == None ==> r.table.rows[id].refreshToken == None)
      && (refreshToken.Some? ==>
            r.table.rows[id].refreshToken.Some? && IsHashOf(r.table.rows[id].refreshToken.value, refreshToken.value))
  {
    if id !in t.rows then
      Reply(Err(RecordNotFound), t)
    else
      var slot := if refreshToken == None then None else Some(Hash(salt, refreshToken.value));
      Reply(Ok(()), t.(rows := t.rows[id := t.rows[id].(refreshToken := slot)]))
  }

  /** delete(id): remove row `id` and return it. */
  function Delete(t: Table, id: int): (r: Reply<User>)
    requires Valid(t)
    ensures Valid(r.table)
    ensures r.result.Ok? <==> id in t.rows
    ensures r.result.Err? ==> r.result.error == RecordNotFound && r.table == t
    ensures r.result.Ok? ==>
      && r.result.value == t.rows[id]
      && r.table.nextId == t.nextId
      && r.table.rows.Keys == t.rows.Keys - {id}
      && (forall k :: k in r.table.rows ==> r.table.rows[k] == t.rows[k])
  {
    if id !in t.rows then Reply(Err(RecordNotFound), t)
    else Reply(Ok(t.rows[id]), t.(rows := t.rows - {id}))
  }

  /** A user just created is what `find` returns for its id and for its email. */
  lemma CreateThenFind(t: Table, newUser: CreateUserDto, salt: nat)
    requires Valid(t)
    requires Create(t, newUser, salt).result.Ok?
    ensures
      var r := Create(t, newUser, salt);
      && Find(r.table, ById(r.result.value.id)) == Some(r.result.value)
      && Find(r.table, ByEmail(newUser.email)) == Some(r.result.value)
  {
    // the new row is the only one matching either key
    var r := Create(t, newUser, salt);
    assert Matches(r.table.rows[r.result.value.id], ById(r.result.value.id));
  }

  /** Once a row is deleted, `find` by its id or its email returns null. */
  lemma DeleteThenFind(t: Table, id: int)
    requires Valid(t)
    requires Delete(t, id).result.Ok?
    ensures
      var r := Delete(t, id);
      && Find(r.table, ById(id)) == None
      && Find(r.table, ByEmail(r.result.value.email)) == None
  {
  }
}
