/**
 * `POST /api/auth/register`: schema validation, an email lookup and a username
 * lookup with early returns, then one insert with the password hashed; the
 * created user is echoed without its password.
 */
module Register {
  import opened Wrappers
  import opened Store
  import opened Json

  /** The request body's fields; `None` is an absent field. */
  datatype RegisterBody = RegisterBody(
    name: Option<Json>,
    email: Option<Json>,
    dreamXIUsername: Option<Json>,
    password: Option<Json>)

  /** What `registerSchema` yields on success. */
  datatype Registration = Registration(name: string, email: string, dreamXIUsername: string, password: string)

  /** The user object sent back: every column except `password`. */
  datatype PublicUser = PublicUser(
    id: nat,
    name: Option<string>,
    email: string,
    dreamXIUsername: Option<string>,
    profilePicture: Option<string>,
    skillScore: int)

  datatype Response = Response(status: int, message: string, user: Option<PublicUser>)

  const NameMin := 2
  const UsernameMin := 3
  const PasswordMin := 8

  /** `registerSchema.safeParse(body)`; `isEmail` stands for the schema's e-mail check. */
  function ValidateRegistration(b: RegisterBody, isEmail: string -> bool): (r: Option<Registration>)
    ensures r.Some? <==>
      && StringAtLeast(b.name, NameMin)
      && IsString(b.email) && isEmail(b.email.value.s)
      && StringAtLeast(b.dreamXIUsername, UsernameMin)
      && StringAtLeast(b.password, PasswordMin)
    ensures r.Some? ==>
      && r.value == Registration(b.name.value.s, b.email.value.s, b.dreamXIUsername.value.s, b.password.value.s)
      && |r.value.name| >= NameMin && |r.value.dreamXIUsername| >= UsernameMin && |r.value.password| >= PasswordMin
  {
    if StringAtLeast(b.name, NameMin) && IsString(b.email) && isEmail(b.email.value.s)
       && StringAtLeast(b.dreamXIUsername, UsernameMin) && StringAtLeast(b.password, PasswordMin)
    then Some(Registration(b.name.value.s, b.email.value.s, b.dreamXIUsername.value.s, b.password.value.s))
    else None
  }

  /** `const { password: _, ...userWithoutPassword } = user` */
  function WithoutPassword(u: User): (p: PublicUser)
    ensures p.id == u.id && p.name == u.name && p.email == u.email
    ensures p.dreamXIUsername == u.dreamXIUsername && p.profilePicture == u.profilePicture
    ensures p.skillScore == u.skillScore
  {
    PublicUser(u.id, u.name, u.email, u.dreamXIUsername, u.profilePicture, u.skillScore)
  }

  /** The inserted row: the columns the request does not set take their defaults. */
  function NewUser(id: nat, reg: Registration, hash: string -> string): User {
    User(id, Some(reg.name), reg.email, Some(reg.dreamXIUsername), hash(reg.password), None, 0)
  }

  const ServerError := Response(500, "An error occurred during registration", None)

  /**
   * The handler as a function of the store. `body` is `None` when the request
   * body is not JSON; `hash` stands for bcrypt with cost 10.
   */
  function RegisterSpec(db: Tables, body: Option<RegisterBody>, isEmail: string -> bool, hash: string -> string)
    : (Tables, Response)
  {
    if body.None? then (db, ServerError)
    else
      match ValidateRegistration(body.value, isEmail)
      case None => (db, Response(400, "Invalid input data", None))
      case Some(reg) =>
        if UserWithEmail(db.users, reg.email).Some? then
          (db, Response(409, "User with this email already exists", None))
        else if UserWithUsername(db.users, reg.dreamXIUsername).Some? then
          (db, Response(409, "User with this Dream11 username already exists", None))
        else
          var row := NewUser(db.nextId, reg, hash);
          (db.(users := db.users + [row], nextId := db.nextId + 1),
           Response(201, "User registered successfully", Some(WithoutPassword(row))))
  }

  method RegisterPost(db: Db, body: Option<RegisterBody>, isEmail: string -> bool, hash: string -> string)
    returns (resp: Response)
    requires db.Valid()
    modifies db
    ensures db.Valid()
    ensures (db.State(), resp) == RegisterSpec(old(db.State()), body, isEmail, hash)
  {
    RegisterValid(db.State(), body, isEmail, hash);
    if body.None? {
      return ServerError;
    }
    var result := ValidateRegistration(body.value, isEmail);
    if result.None? {
      return Response(400, "Invalid input data", None);
    }
    var reg := result.value;
    if UserWithEmail(db.users, reg.email).Some? {
      return Response(409, "User with this email already exists", None);
    }
    if UserWithUsername(db.users, reg.dreamXIUsername).Some? {
      return Response(409, "User with this Dream11 username already exists", None);
    }
    var hashedPassword := hash(reg.password);
    var row := User(db.nextId, Some(reg.name), reg.email, Some(reg.dreamXIUsername), hashedPassword, None, 0);
    db.users := db.users + [row];
    db.nextId := db.nextId + 1;
    resp := Response(201, "User registered successfully", Some(WithoutPassword(row)));
  }

  // ---------------------------------------------------------------------------
  // Properties

  /** Registration keeps e-mails and usernames unique. */
  lemma RegisterValid(db: Tables, body: Option<RegisterBody>, isEmail: string -> bool, hash: string -> string)
    requires TablesValid(db)
    ensures TablesValid(RegisterSpec(db, body, isEmail, hash).0)
  {
    var (db', resp) := RegisterSpec(db, body, isEmail, hash);
    if resp.status == 201 {
      var reg := ValidateRegistration(body.value, isEmail).value;
      assert UserWithEmail(db.users, reg.email).None?;
      assert UserWithUsername(db.users, reg.dreamXIUsername).None?;
      ParticipationsValidMonotone(db.participations, db.nextId, db.nextId + 1);
    }
  }

  /** A body failing the schema (short name, bad e-mail, short username or password) is a 400 with nothing written. */
  lemma BadInputRejected(db: Tables, b: RegisterBody, isEmail: string -> bool, hash: string -> string)
    requires
      || !StringAtLeast(b.name, NameMin)
      || !IsString(b.email) || !isEmail(b.email.value.s)
      || !StringAtLeast(b.dreamXIUsername, UsernameMin)
      || !StringAtLeast(b.password, PasswordMin)
    ensures RegisterSpec(db, Some(b), isEmail, hash) == (db, Response(400, "Invalid input data", None))
  {
  }

  /**
   * A taken e-mail is a 409, whatever the username: the e-mail is checked first.
   * A free e-mail with a taken username is the other 409. Neither writes.
   */
  lemma ConflictsInOrder(db: Tables, b: RegisterBody, isEmail: string -> bool, hash: string -> string)
    requires ValidateRegistration(b, isEmail).Some?
    ensures var (db', resp) := RegisterSpec(db, Some(b), isEmail, hash);
      var email, username := b.email.value.s, b.dreamXIUsername.value.s;
      && ((exists j :: 0 <= j < |db.users| && db.users[j].email == email) ==>
            resp == Response(409, "User with this email already exists", None) && db' == db)
      && ((forall j :: 0 <= j < |db.users| ==> db.users[j].email != email)
          && (exists j :: 0 <= j < |db.users| && db.users[j].dreamXIUsername == Some(username)) ==>
            resp == Response(409, "User with this Dream11 username already exists", None) && db' == db)
  {
  }

  /**
   * A 201 is answered exactly when the body is valid and both the e-mail and the
   * username are free; it appends one user with the submitted name, e-mail and
   * username, the hashed password, and touches no other table.
   */
  lemma CreatesOneUser(db: Tables, b: RegisterBody, isEmail: string -> bool, hash: string -> string)
    ensures var (db', resp) := RegisterSpec(db, Some(b), isEmail, hash);
      var reg := ValidateRegistration(b, isEmail);
      && (resp.status == 201 <==>
            reg.Some?
            && (forall j :: 0 <= j < |db.users| ==> db.users[j].email != reg.value.email)
            && (forall j :: 0 <= j < |db.users| ==> db.users[j].dreamXIUsername != Some(reg.value.dreamXIUsername)))
      && (resp.status == 201 ==>
            && |db'.users| == |db.users| + 1 && db'.users[..|db.users|] == db.users
            && var row := db'.users[|db.users|];
            && row.name == Some(b.name.value.s) && row.email == b.email.value.s
            && row.dreamXIUsername == Some(b.dreamXIUsername.value.s)
            && row.password == hash(b.password.value.s)
            && db'.teams == db.teams && db'.matches == db.matches && db'.participations == db.participations)
      && (resp.status != 201 ==> db' == db)
  {
    var (db', resp) := RegisterSpec(db, Some(b), isEmail, hash);
    if resp.status == 201 {
      assert db'.users[..|db.users|] == db.users;
    }
  }

  /**
   * The response never carries the password: it is the same whatever the hash
   * function, and on 201 it echoes every other column of the new row.
   */
  lemma ResponseOmitsPassword(db: Tables, body: Option<RegisterBody>, isEmail: string -> bool,
                              hash1: string -> string, hash2: string -> string)
    ensures RegisterSpec(db, body, isEmail, hash1).1 == RegisterSpec(db, body, isEmail, hash2).1
    ensures var (db', resp) := RegisterSpec(db, body, isEmail, hash1);
      resp.status == 201 ==> resp.user == Some(WithoutPassword(db'.users[|db'.users| - 1]))
  {
  }

  /** Registering the same body twice: the second attempt is a 409 on the e-mail. */
  lemma ReRegisterConflicts(db: Tables, b: RegisterBody, isEmail: string -> bool, hash: string -> string)
    requires RegisterSpec(db, Some(b), isEmail, hash).1.status == 201
    ensures var db1 := RegisterSpec(db, Some(b), isEmail, hash).0;
      RegisterSpec(db1, Some(b), isEmail, hash).1 == Response(409, "User with this email already exists", None)
  {
    var db1 := RegisterSpec(db, Some(b), isEmail, hash).0;
    assert db1.users[|db.users|].email == b.email.value.s;
  }
}
