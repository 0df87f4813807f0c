/** Registration and login on top of the user account service: registration refuses a
    known e-mail, login checks the password against the stored hash and signs a token
    carrying the user's id and role. */
module AuthService {
  import opened Wrappers
  import opened Identity
  import Table
  import UsersService
  import JwtAuthGuard

  datatype RegisterUserDto = RegisterUserDto(name: string, email: string, password: string, role: Role)

  datatype LoginDto = LoginDto(email: string, password: string)

  /** What login answers: the user without password, and the signed token. */
  datatype AuthResponse = AuthResponse(user: UsersService.UserView, token: string)

  const UserExists: Error := Unauthorized("El usuario ya existe")
  const BadCredentials: Error := Unauthorized("Credenciales inválidas")

  /** The shared first step of registration: a failed lookup propagates, a known e-mail
      is refused, and otherwise `create` is called with the password `stored`. */
  function RegisterWith(t: UsersService.Repo, dto: RegisterUserDto, stored: string, c: Crypto, dbUp: bool)
    : (res: (UsersService.Repo, Result<UsersService.UserView>))
    requires UsersService.Valid(t)
    ensures UsersService.Valid(res.0)
    ensures !dbUp ==> res == (t, Err(Failure("Failed to fetch user by email")))
    ensures dbUp && UsersService.RowByEmail(t, dto.email).Some? ==> res == (t, Err(UserExists))
    ensures dbUp && UsersService.RowByEmail(t, dto.email).None? ==>
      && res.1.Ok?
      && var v := res.1.value;
      && v.id !in t.rows
      && res.0.rows == t.rows[v.id := UsersService.User(v.id, dto.name, dto.email, c.hash(stored), dto.role)]
      && v == UsersService.UserView(v.id, dto.name, dto.email, dto.role)
  {
    match UsersService.FindByEmail(t, dto.email, dbUp)
    case Err(e) => (t, Err(e))
    case Ok(found) =>
      if found.Some? then (t, Err(UserExists))
      else UsersService.Create(t, UsersService.CreateUserDto(dto.name, dto.email, stored, dto.role), c, dbUp)
  }

  /** `register` as the code stands: it hashes the password and hands the hash to
      `create`, which hashes it again, so the row holds `hash(hash(password))`. */
  function RegisterAsWritten(t: UsersService.Repo, dto: RegisterUserDto, c: Crypto, dbUp: bool)
    : (res: (UsersService.Repo, Result<UsersService.UserView>))
    requires UsersService.Valid(t)
    ensures UsersService.Valid(res.0)
    ensures res.1.Ok? ==> res.1.value.id in res.0.rows && res.0.rows[res.1.value.id].password == c.hash(c.hash(dto.password))
  {
    RegisterWith(t, dto, c.hash(dto.password), c, dbUp)
  }

  /** `register` with the password handed to `create` in plain text, leaving the one
      hashing step to the account service. */
  function Register(t: UsersService.Repo, dto: RegisterUserDto, c: Crypto, dbUp: bool)
    : (res: (UsersService.Repo, Result<UsersService.UserView>))
    requires UsersService.Valid(t)
    ensures UsersService.Valid(res.0)
    ensures res.1.Err? ==> res.0 == t
    ensures dbUp && UsersService.RowByEmail(t, dto.email).Some? ==> res == (t, Err(UserExists))
    ensures res.1.Ok? ==> res.1.value.id in res.0.rows && res.0.rows[res.1.value.id].password == c.hash(dto.password)
  {
    RegisterWith(t, dto, dto.password, c, dbUp)
  }

  /** The payload a login token carries: the user's id and role name. */
  function TokenPayload(u: UsersService.User): (p: Payload)
    ensures p.userId == u.id && p.role == Some(RoleName(u.role))
  {
    Payload(u.id, Some(RoleName(u.role)))
  }

  /** `login`. An unknown e-mail and a wrong password fail with the same error. */
  function Login(t: UsersService.Repo, dto: LoginDto, c: Crypto, dbUp: bool): (r: Result<AuthResponse>)
    requires UsersService.Valid(t)
    ensures !dbUp ==> r == Err(Failure("Failed to fetch user by email"))
    ensures dbUp && r.Err? ==> r.error == BadCredentials
    ensures dbUp && UsersService.RowByEmail(t, dto.email).None? ==> r == Err(BadCredentials)
    ensures dbUp && UsersService.RowByEmail(t, dto.email).Some? ==>
      var u := t.rows[UsersService.RowByEmail(t, dto.email).value];
      && (r.Ok? <==> c.compare(dto.password, u.password))
      && (PasswordsSound(c) ==> (r.Ok? <==> u.password == c.hash(dto.password)))
      && (r.Ok? ==> r.value == AuthResponse(UsersService.Strip(u), c.sign(TokenPayload(u))))
  {
    match UsersService.FindByEmail(t, dto.email, dbUp)
    case Err(e) => Err(e)
    case Ok(found) =>
      if found.None? then Err(BadCredentials)
      else
        var u := found.value;
        if !UsersService.ValidatePassword(dto.password, u.password, c) then Err(BadCredentials)
        else Ok(AuthResponse(UsersService.Strip(u), c.sign(TokenPayload(u))))
  }

  /** Registering and then logging in with the same e-mail and password succeeds and
      answers the registered user. */
  lemma RegisterThenLogin(t: UsersService.Repo, dto: RegisterUserDto, c: Crypto)
    requires UsersService.Valid(t) && PasswordsSound(c)
    requires UsersService.RowByEmail(t, dto.email).None?
    ensures var (t', r) := Register(t, dto, c, true);
      && r.Ok?
      && var login := Login(t', LoginDto(dto.email, dto.password), c, true);
      && login.Ok? && login.value.user == r.value
  {
    var (t', r) := Register(t, dto, c, true);
    var id := r.value.id;
    var k := UsersService.RowByEmail(t', dto.email);
    assert t'.rows[id].email == dto.email;
    assert k.Some?;
    assert k.value == id;
  }

  /** With the code as it stands, the same login fails whenever hashing the hash does
      not give the hash back, which is every password for any useful hash. */
  lemma RegisterAsWrittenThenLoginFails(t: UsersService.Repo, dto: RegisterUserDto, c: Crypto)
    requires UsersService.Valid(t) && PasswordsSound(c)
    requires UsersService.RowByEmail(t, dto.email).None?
    requires c.hash(c.hash(dto.password)) != c.hash(dto.password)
    ensures var (t', r) := RegisterAsWritten(t, dto, c, true);
      && r.Ok?
      && Login(t', LoginDto(dto.email, dto.password), c, true) == Err(BadCredentials)
  {
    var (t', r) := RegisterAsWritten(t, dto, c, true);
    var id := r.value.id;
    var k := UsersService.RowByEmail(t', dto.email);
    assert t'.rows[id].email == dto.email;
    assert k.Some?;
    assert k.value == id;
  }

  /** A hash that tags its input, and the comparison that matches it. */
  function TagHash(s: string): string {
    "$" + s
  }

  const TaggingCrypto: Crypto := Crypto(
    TagHash,
    (p: string, h: string) => h == TagHash(p),
    (x: Payload) => "",
    (s: string) => None)

  /** A concrete run: the user "ana@example.com" registers with "secret" through the
      code as it stands and is then refused at login with that same password. */
  lemma DoubleHashLocksOutNewUser()
    ensures var dto := RegisterUserDto("Ana", "ana@example.com", "secret", Client);
      var (t', r) := RegisterAsWritten(Table.Empty(), dto, TaggingCrypto, true);
      && r.Ok?
      && Login(t', LoginDto("ana@example.com", "secret"), TaggingCrypto, true) == Err(BadCredentials)
  {
    var dto := RegisterUserDto("Ana", "ana@example.com", "secret", Client);
    var t := Table.Empty<UsersService.User>();
    assert PasswordsSound(TaggingCrypto);
    assert TagHash(TagHash("secret")) != TagHash("secret") by {
      assert |TagHash(TagHash("secret"))| == 8;
    }
    RegisterAsWrittenThenLoginFails(t, dto, TaggingCrypto);
  }

  /** A login token, sent back as `Bearer <token>`, passes the bearer-token guard and
      yields the user's id and role name, provided the signer emits tokens without
      spaces (as JWTs are). */
  lemma LoginTokenPassesGuard(t: UsersService.Repo, dto: LoginDto, c: Crypto)
    requires UsersService.Valid(t) && Sound(c)
    requires Login(t, dto, c, true).Ok?
    requires var tok := Login(t, dto, c, true).value.token; tok != "" && ' ' !in tok
    ensures var resp := Login(t, dto, c, true).value;
      var out := JwtAuthGuard.CanActivate(Some("Bearer " + resp.token), c.verify);
      && out.allowed
      && out.user == Some(Payload(resp.user.id, Some(RoleName(resp.user.role))))
  {
    var resp := Login(t, dto, c, true).value;
    var h := "Bearer " + resp.token;
    assert JwtAuthGuard.HeaderShape(h, "Bearer", resp.token, "") by {
      assert h == "Bearer" + " " + resp.token + "";
    }
    JwtAuthGuard.TokenIsSecondField(h, "Bearer", resp.token, "");
  }
}
