/** The user account service: accounts in an id-keyed table with a unique e-mail
    column; passwords hashed before every write and stripped from every answer; an
    owner-only update and delete; and catch blocks that let only some exception kinds
    through, turning every other failure into a generic error. */
module UsersService {
  import opened Wrappers
  import opened Identity
  import Table

  datatype User = User(id: int, name: string, email: string, password: string, role: Role)

  /** A user as the service hands it out: no password field. */
  datatype UserView = UserView(id: int, name: string, email: string, role: Role)

  datatype CreateUserDto = CreateUserDto(name: string, email: string, password: string, role: Role)

  /** Update body: every field optional. */
  datatype UpdateUserDto = UpdateUserDto(name: Option<string>, email: Option<string>,
                                         password: Option<string>, role: Option<Role>)

  type Repo = Table.Table<User>

  ghost predicate EmailsUnique(t: Repo) {
    forall a, b :: a in t.rows && b in t.rows && t.rows[a].email == t.rows[b].email ==> a == b
  }

  /** Rows stored under their own ids, and the `unique` constraint of the e-mail column. */
  ghost predicate Valid(t: Repo) {
    && Table.Valid(t)
    && (forall k :: k in t.rows ==> t.rows[k].id == k)
    && EmailsUnique(t)
  }

  function Strip(u: User): (v: UserView)
    ensures v.id == u.id && v.name == u.name && v.email == u.email && v.role == u.role
  {
    UserView(u.id, u.name, u.email, u.role)
  }

  /** The exception a repository call raises when the database fails; its text never
      leaves the service. */
  const DatabaseError: Error := Failure("database error")

  /** `findOne({ where: { email } })` */
  function RowByEmail(t: Repo, email: string): (r: Option<int>)
    requires Valid(t)
    ensures r.Some? ==> r.value in t.rows && t.rows[r.value].email == email
    ensures r.None? <==> forall k :: k in t.rows ==> t.rows[k].email != email
  {
    Table.FirstWhere(t, (u: User) => u.email == email)
  }

  /** JavaScript truthiness of an optional string: present and non-empty. */
  predicate Truthy(s: Option<string>) {
    s.Some? && s.value != ""
  }

  /** `create`. Only a Conflict escapes the catch block unchanged. */
  function Create(t: Repo, dto: CreateUserDto, c: Crypto, dbUp: bool): (res: (Repo, Result<UserView>))
    requires Valid(t)
    ensures Valid(res.0)
    ensures !dbUp ==> res == (t, Err(Failure("Failed to create user")))
    ensures dbUp && RowByEmail(t, dto.email).Some? ==> res == (t, Err(Conflict("Email already exists")))
    ensures res.1.Err? ==> res.0 == t
    ensures res.1.Err? ==> res.1.error.Conflict? || res.1.error == Failure("Failed to create user")
    ensures dbUp && RowByEmail(t, dto.email).None? ==>
      && res.1.Ok?
      && var v := res.1.value;
      && v.id !in t.rows
      && res.0.rows == t.rows[v.id := User(v.id, dto.name, dto.email, c.hash(dto.password), dto.role)]
      && v == UserView(v.id, dto.name, dto.email, dto.role)
  {
    var (t', r) := CreateBody(t, dto, c, dbUp);
    match r
    case Ok(_) => (t', r)
    case Err(e) => (t', if e.Conflict? then r else Err(Failure("Failed to create user")))
  }

  /** The `try` block of `create`. */
  function CreateBody(t: Repo, dto: CreateUserDto, c: Crypto, dbUp: bool): (res: (Repo, Result<UserView>))
    requires Valid(t)
    ensures Valid(res.0)
    ensures res.1.Err? ==> res.0 == t
  {
    if !dbUp then (t, Err(DatabaseError))
    else if RowByEmail(t, dto.email).Some? then (t, Err(Conflict("Email already exists")))
    else
      var u := User(t.nextId, dto.name, dto.email, c.hash(dto.password), dto.role);
      (Table.Add(t, u), Ok(Strip(u)))
  }

  /** `findOne`: the user without password, NotFound for an absent id, any other failure
      becoming "Failed to fetch user". */
  function FindOne(t: Repo, id: int, dbUp: bool): (r: Result<UserView>)
    requires Valid(t)
    ensures r.Ok? ==> r.value.id == id
    ensures !dbUp ==> r == Err(Failure("Failed to fetch user"))
    ensures dbUp && id !in t.rows ==> r == Err(NotFound("User not found"))
    ensures dbUp && id in t.rows ==> r == Ok(Strip(t.rows[id]))
  {
    if !dbUp then Err(Failure("Failed to fetch user"))
    else if id !in t.rows then Err(NotFound("User not found"))
    else Ok(Strip(t.rows[id]))
  }

  /** `findByEmail`: the full user, password included, for authentication; absence is
      not an error. */
  function FindByEmail(t: Repo, email: string, dbUp: bool): (r: Result<Option<User>>)
    requires Valid(t)
    ensures !dbUp ==> r == Err(Failure("Failed to fetch user by email"))
    ensures dbUp ==> r.Ok?
    ensures dbUp && r.value.Some? ==> r.value.value in t.rows.Values && r.value.value.email == email
    ensures dbUp && r.value.None? ==> forall k :: k in t.rows ==> t.rows[k].email != email
  {
    if !dbUp then Err(Failure("Failed to fetch user by email"))
    else
      match RowByEmail(t, email)
      case None => Ok(None)
      case Some(k) => Ok(Some(t.rows[k]))
  }

  /** The row after `repository.update(id, dto)`: the fields the body carries replace
      the stored ones. */
  function Patch(u: User, dto: UpdateUserDto): User {
    u.(name := if dto.name.Some? then dto.name.value else u.name,
       email := if dto.email.Some? then dto.email.value else u.email,
       password := if dto.password.Some? then dto.password.value else u.password,
       role := if dto.role.Some? then dto.role.value else u.role)
  }

  /** Does another row already hold this e-mail? The database's unique constraint. */
  predicate EmailHeldByOther(t: Repo, id: int, email: string)
    requires Valid(t)
  {
    var k := RowByEmail(t, email);
    k.Some? && k.value != id
  }

  /** The `try` block of `update`: ownership, existence, e-mail change check, password
      hashing when one is given (a truthy one), the write, and a fresh read. */
  function UpdateBody(t: Repo, id: int, dto: UpdateUserDto, callerId: int, c: Crypto, dbUp: bool): (res: (Repo, Result<UserView>))
    requires Valid(t)
    ensures Valid(res.0)
  {
    if callerId != id then (t, Err(Forbidden("You can only update your own account")))
    else
      match FindOne(t, id, dbUp)
      case Err(e) => (t, Err(e))
      case Ok(user) =>
        if Truthy(dto.email) && dto.email.value != user.email && RowByEmail(t, dto.email.value).Some? then
          (t, Err(Conflict("Email already exists")))
        else
          var dto' := if Truthy(dto.password) then dto.(password := Some(c.hash(dto.password.value))) else dto;
          var u' := Patch(t.rows[id], dto');
          if EmailHeldByOther(t, id, u'.email) then (t, Err(DatabaseError))
          else
            var t' := Table.Put(t, id, u');
            assert EmailsUnique(t') by {
              forall a, b | a in t'.rows && b in t'.rows && t'.rows[a].email == t'.rows[b].email
                ensures a == b
              {
                if a != id && b != id {
                  assert t'.rows[a] == t.rows[a] && t'.rows[b] == t.rows[b];
                }
              }
            }
            (t', FindOne(t', id, dbUp))
  }

  /** `update`. NotFound and Conflict escape unchanged; everything else, the ownership
      refusal included, becomes "Failed to update user". */
  function Update(t: Repo, id: int, dto: UpdateUserDto, callerId: int, c: Crypto, dbUp: bool): (res: (Repo, Result<UserView>))
    requires Valid(t)
    ensures Valid(res.0)
    ensures callerId != id ==> res == (t, Err(Failure("Failed to update user")))
    ensures callerId == id && !dbUp ==> res == (t, Err(Failure("Failed to update user")))
    ensures callerId == id && dbUp && id !in t.rows ==> res == (t, Err(NotFound("User not found")))
    ensures (callerId == id && dbUp && id in t.rows && Truthy(dto.email) && dto.email.value != t.rows[id].email
             && RowByEmail(t, dto.email.value).Some?) ==> res == (t, Err(Conflict("Email already exists")))
    ensures res.1.Err? ==> res.0 == t
    // an owner's update succeeds unless the resulting e-mail belongs to another row
    ensures (callerId == id && dbUp && id in t.rows
             && !EmailHeldByOther(t, id, if dto.email.Some? then dto.email.value else t.rows[id].email))
            ==> res.1.Ok?
    ensures res.1.Ok? ==>
      && callerId == id && id in t.rows && id in res.0.rows
      && var stored := res.0.rows[id];
      && res.1.value == Strip(stored)
      && stored.id == id
      && stored.name == (if dto.name.Some? then dto.name.value else t.rows[id].name)
      && stored.role == (if dto.role.Some? then dto.role.value else t.rows[id].role)
      && stored.password == (if Truthy(dto.password) then c.hash(dto.password.value)
                             else if dto.password.Some? then "" else t.rows[id].password)
      && stored.email == (if dto.email.Some? then dto.email.value else t.rows[id].email)
      && res.0.rows.Keys == t.rows.Keys
      && forall k :: k in t.rows && k != id ==> res.0.rows[k] == t.rows[k]
  {
    var (t', r) := UpdateBody(t, id, dto, callerId, c, dbUp);
    match r
    case Ok(_) => (t', r)
    case Err(e) => (t', if e.NotFound? || e.Conflict? then r else Err(Failure("Failed to update user")))
  }

  /** The exception the database raises when a delete would leave a row referring to
      the deleted one. */
  const ForeignKeyViolation: Error := Failure("foreign key violation")

  /** The `try` block of `remove`. `ownsRequests` says that some request names the account
      as its owner; the request's `user` foreign key has no delete rule, so the database
      then refuses the delete. The delete's affected-row count is 0 only if the row
      vanished after the existence check, which this sequential model cannot produce. */
  function RemoveBody(t: Repo, id: int, callerId: int, dbUp: bool, ownsRequests: bool): (res: (Repo, Result<()>))
    requires Valid(t)
    ensures Valid(res.0)
  {
    if callerId != id then (t, Err(Forbidden("You can only delete your own account")))
    else
      match FindOne(t, id, dbUp)
      case Err(e) => (t, Err(e))
      case Ok(_) =>
        if ownsRequests then (t, Err(ForeignKeyViolation))
        else
          var affected := if id in t.rows then 1 else 0;
          if affected == 0 then (t, Err(NotFound("User not found")))
          else (Table.Delete(t, id), Ok(()))
  }

  /** `remove`. Only NotFound escapes unchanged; the ownership refusal and the refusal of
      an account some request still refers to both become "Failed to delete user". */
  function Remove(t: Repo, id: int, callerId: int, dbUp: bool, ownsRequests: bool): (res: (Repo, Result<()>))
    requires Valid(t)
    ensures Valid(res.0)
    ensures callerId != id || !dbUp ==> res == (t, Err(Failure("Failed to delete user")))
    ensures callerId == id && dbUp && id !in t.rows ==> res == (t, Err(NotFound("User not found")))
    ensures callerId == id && dbUp && id in t.rows && ownsRequests ==>
      res == (t, Err(Failure("Failed to delete user")))
    ensures callerId == id && dbUp && id in t.rows && !ownsRequests ==>
      res.1 == Ok(()) && res.0.rows.Keys == t.rows.Keys - {id}
      && forall k :: k in res.0.rows ==> res.0.rows[k] == t.rows[k]
  {
    var (t', r) := RemoveBody(t, id, callerId, dbUp, ownsRequests);
    match r
    case Ok(_) => (t', r)
    case Err(e) => (t', if e.NotFound? then r else Err(Failure("Failed to delete user")))
  }

  /** `validatePassword`: the comparison primitive's verdict. */
  function ValidatePassword(plain: string, hashed: string, c: Crypto): (ok: bool)
    ensures ok == c.compare(plain, hashed)
    ensures PasswordsSound(c) ==> (ok <==> hashed == c.hash(plain))
  {
    c.compare(plain, hashed)
  }

  /** A created user is found again under its id, without its password. */
  lemma CreateThenFind(t: Repo, dto: CreateUserDto, c: Crypto)
    requires Valid(t) && RowByEmail(t, dto.email).None?
    ensures var (t', r) := Create(t, dto, c, true);
      r.Ok? && FindOne(t', r.value.id, true) == r
      && t'.rows[r.value.id].password == c.hash(dto.password)
  {
  }

  /** A second account with the same e-mail is refused, whatever else it carries. */
  lemma DuplicateEmailRefused(t: Repo, a: CreateUserDto, b: CreateUserDto, c: Crypto)
    requires Valid(t) && RowByEmail(t, a.email).None? && b.email == a.email
    ensures var (t', r) := Create(t, a, c, true);
      Create(t', b, c, true) == (t', Err(Conflict("Email already exists")))
  {
    var (t', r) := Create(t, a, c, true);
    assert t'.rows[r.value.id].email == b.email;
  }

  /** A successful self-update is what a later lookup returns. */
  lemma UpdateThenFind(t: Repo, id: int, dto: UpdateUserDto, c: Crypto)
    requires Valid(t)
    requires Update(t, id, dto, id, c, true).1.Ok?
    ensures var (t', r) := Update(t, id, dto, id, c, true);
      FindOne(t', id, true) == r
  {
  }

  /** Moving to an e-mail another account holds is refused with Conflict and changes nothing. */
  lemma EmailTakenByOtherRefused(t: Repo, id: int, other: int, dto: UpdateUserDto, c: Crypto)
    requires Valid(t) && id in t.rows && other in t.rows && other != id
    requires dto.email == Some(t.rows[other].email) && t.rows[other].email != ""
    ensures Update(t, id, dto, id, c, true) == (t, Err(Conflict("Email already exists")))
  {
    assert t.rows[id].email != t.rows[other].email;
  }

  /** An empty e-mail is falsy, so the explicit check is skipped; when another account
      holds it, the write itself violates the unique column and the caller sees only the
      generic failure. */
  lemma EmptyEmailTakenFailsGenerically(t: Repo, id: int, other: int, dto: UpdateUserDto, c: Crypto)
    requires Valid(t) && id in t.rows && other in t.rows && other != id
    requires dto.email == Some("") && t.rows[other].email == ""
    ensures Update(t, id, dto, id, c, true) == (t, Err(Failure("Failed to update user")))
  {
    assert t.rows[id].email != t.rows[other].email;
  }

  /** After a self-removal of an account no request refers to, the account is gone. */
  lemma RemoveThenFind(t: Repo, id: int)
    requires Valid(t) && id in t.rows
    ensures var (t', r) := Remove(t, id, id, true, false);
      r == Ok(()) && FindOne(t', id, true) == Err(NotFound("User not found"))
  {
  }
}
