/**
 * UsersService (src/users/users.service.ts): the user table held in place.
 *
 * The service owns the rows and the autoincrement counter and changes them
 * the way the Prisma calls do, one statement at a time.  Every method is
 * proved to do exactly what the matching function of UserTable says, so the
 * properties proved there hold of the service.
 */
module Users {
  import opened Wrappers
  import opened Argon
  import opened Jwt
  import opened UserTable

  class UsersService {
    var rows: map<int, User>
    var nextId: int

    /** The table as a value. */
    ghost function State(): Table
      reads this
    {
      Table(rows, nextId)
    }

    ghost predicate Valid()
      reads this
    {
      UserTable.Valid(State())
    }

    /** The service over the database it is connected to, whatever rows that already holds. */
    constructor (db: Table)
      requires UserTable.Valid(db)
      ensures Valid() && State() == db
    {
      rows := db.rows;
      nextId := db.nextId;
    }

    method Create(newUser: CreateUserDto, salt: nat) returns (r: Result<User>)
      requires Valid()
      modifies this
      ensures Valid()
      ensures Reply(r, State()) == UserTable.Create(old(State()), newUser, salt)
    {
      var password := Hash(salt, newUser.password);
      // prisma.user.create: the unique index on email refuses a duplicate with P2002
      if exists id :: id in rows && rows[id].email == newUser.email {
        r := Err(CreateFailure(UniqueViolation));
        return;
      }
      var u := User(nextId, newUser.email, newUser.name, password, None);
      rows := rows[nextId := u];
      nextId := nextId + 1;
      r := Ok(u);
    }

    method Find(key: UniqueKey) returns (r: Option<User>)
      requires Valid()
      ensures r == UserTable.Find(State(), key)
    {
      match key
      case ById(id) =>
        r := if id in rows then Some(rows[id]) else None;
      case ByEmail(email) =>
        if exists id :: id in rows && rows[id].email == email {
          var id :| id in rows && rows[id].email == email;
          r := Some(rows[id]);
        } else {
          r := None;
        }
    }

    method Update(id: int, user: UpdateUserDto) returns (r: Result<User>)
      requires Valid()
      modifies this
      ensures Valid()
      ensures Reply(r, State()) == UserTable.Update(old(State()), id, user)
    {
      if id !in rows {
        r := Err(RecordNotFound);
        return;
      }
      if user.email.Some? && exists k :: k in rows && k != id && rows[k].email == user.email.value {
        r := Err(UniqueViolation);
        return;
      }
      var row := rows[id];
      if user.email.Some? {
        row := row.(email := user.email.value);
      }
      if user.name.Some? {
        row := row.(name := user.name.value);
      }
      rows := rows[id := row];
      r := Ok(row);
    }

    method UpdateRefreshToken(id: int, refreshToken: Option<Token>, salt: nat) returns (r: Result<()>)
      requires Valid()
      modifies this
      ensures Valid()
      ensures Reply(r, State()) == UserTable.UpdateRefreshToken(old(State()), id, refreshToken, salt)
    {
      if id !in rows {
        r := Err(RecordNotFound);
        return;
      }
      var slot: Option<Digest<Token>> := None;
      if refreshToken.Some? {
        slot := Some(Hash(salt, refreshToken.value));
      }
      rows := rows[id := rows[id].(refreshToken := slot)];
      r := Ok(());
    }

    method Delete(id: int) returns (r: Result<User>)
      requires Valid()
      modifies this
      ensures Valid()
      ensures Reply(r, State()) == UserTable.Delete(old(State()), id)
    {
      if id !in rows {
        r := Err(RecordNotFound);
        return;
      }
      r := Ok(rows[id]);
      rows := rows - {id};
    }
  }
}
