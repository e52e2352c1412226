/**
 * `PUT /api/profile/update`: the signed-in user edits their name, Dream11
 * username and profile picture. A non-empty username is first checked against
 * the other users; then the session user's row is updated in place.
 */
module Profile {
  import opened Wrappers
  import opened Store
  import Collections

  /**
   * One field of the request body as the store's update sees it: absent
   * (`undefined`, the column is kept), `null` (the column is cleared), a
   * string, or another JSON value (which the store rejects).
   */
  datatype Field = Absent | Null | Text(s: string) | Invalid

  datatype ProfileBody = ProfileBody(name: Field, dreamXIUsername: Field, profilePicture: Field)

  /** The three columns echoed back. */
  datatype PublicProfile = PublicProfile(name: Option<string>, dreamXIUsername: Option<string>, profilePicture: Option<string>)

  datatype Response = Response(status: int, success: bool, error: Option<string>, user: Option<PublicProfile>)

  const Unauthorized := Response(401, false, Some("Unauthorized"), None)
  const UsernameTaken := Response(400, false, Some("Dream11 username is already taken"), None)
  const UpdateFailed := Response(500, false, Some("Failed to update profile"), None)

  /** The value a nullable column takes under a field of `data`. */
  function Assign(current: Option<string>, f: Field): (r: Option<string>)
    requires !f.Invalid?
    ensures f.Absent? ==> r == current
    ensures f.Null? ==> r.None?
    ensures f.Text? ==> r == Some(f.s)
  {
    match f
    case Absent => current
    case Null => None
    case Text(s) => Some(s)
  }

  /** `if (data.dreamXIUsername)`: only a non-empty string triggers the uniqueness lookup. */
  predicate ChecksUsername(f: Field) {
    f.Text? && f.s != ""
  }

  /** `user.findFirst({ where: { dreamXIUsername, email: { not: sessionEmail } } })` */
  function HolderElsewhere(users: seq<User>, username: string, sessionEmail: string): (r: Option<nat>)
    ensures r.Some? ==>
      r.value < |users| && users[r.value].dreamXIUsername == Some(username) && users[r.value].email != sessionEmail
    ensures r.None? <==> forall j :: 0 <= j < |users| ==>
      users[j].dreamXIUsername != Some(username) || users[j].email == sessionEmail
  {
    Collections.FindFirst(users, (u: User) => u.dreamXIUsername == Some(username) && u.email != sessionEmail)
  }

  /** The session user's row after the update. */
  function Updated(u: User, b: ProfileBody): User
    requires !b.name.Invalid? && !b.dreamXIUsername.Invalid? && !b.profilePicture.Invalid?
  {
    u.(name := Assign(u.name, b.name),
       dreamXIUsername := Assign(u.dreamXIUsername, b.dreamXIUsername),
       profilePicture := Assign(u.profilePicture, b.profilePicture))
  }

  /** The store refuses an update whose username another row already holds. */
  predicate UniqueViolation(users: seq<User>, i: nat, username: Option<string>)
    requires i < |users|
  {
    username.Some? && exists j :: 0 <= j < |users| && j != i && users[j].dreamXIUsername == username
  }

  /**
   * The handler as a function of the store. `sessionEmail` is the session's
   * e-mail (`None` without a session); `body` is `None` when the request body is
   * not JSON. A non-string field, a missing row and a unique violation all make
   * the store throw, which the handler answers with 500.
   */
  function ProfileSpec(db: Tables, sessionEmail: Option<string>, body: Option<ProfileBody>): (Tables, Response) {
    if sessionEmail.None? || sessionEmail.value == "" then (db, Unauthorized)
    else if body.None? then (db, UpdateFailed)
    else
      var b, email := body.value, sessionEmail.value;
      if ChecksUsername(b.dreamXIUsername) && HolderElsewhere(db.users, b.dreamXIUsername.s, email).Some? then
        (db, UsernameTaken)
      else if b.name.Invalid? || b.dreamXIUsername.Invalid? || b.profilePicture.Invalid? then
        (db, UpdateFailed)
      else
        match UserWithEmail(db.users, email)
        case None => (db, UpdateFailed)
        case Some(i) =>
          var row := Updated(db.users[i], b);
          if UniqueViolation(db.users, i, row.dreamXIUsername) then (db, UpdateFailed)
          else
            (db.(users := db.users[i := row]),
             Response(200, true, None, Some(PublicProfile(row.name, row.dreamXIUsername, row.profilePicture))))
  }

  method ProfileUpdate(db: Db, sessionEmail: Option<string>, body: Option<ProfileBody>) returns (resp: Response)
    requires db.Valid()
    modifies db
    ensures db.Valid()
    ensures (db.State(), resp) == ProfileSpec(old(db.State()), sessionEmail, body)
  {
    ProfileValid(db.State(), sessionEmail, body);
    if sessionEmail.None? || sessionEmail.value == "" {
      return Unauthorized;
    }
    if body.None? {
      return UpdateFailed;
    }
    var b, email := body.value, sessionEmail.value;
    if ChecksUsername(b.dreamXIUsername) {
      var existing := HolderElsewhere(db.users, b.dreamXIUsername.s, email);
      if existing.Some? {
        return UsernameTaken;
      }
    }
    if b.name.Invalid? || b.dreamXIUsername.Invalid? || b.profilePicture.Invalid? {
      return UpdateFailed;
    }
    var found := UserWithEmail(db.users, email);
    if found.None? {
      return UpdateFailed;
    }
    var i := found.value;
    var row := Updated(db.users[i], b);
    if UniqueViolation(db.users, i, row.dreamXIUsername) {
      return UpdateFailed;
    }
    db.users := db.users[i := row];
    resp := Response(200, true, None, Some(PublicProfile(row.name, row.dreamXIUsername, row.profilePicture)));
  }

  // ---------------------------------------------------------------------------
  // Properties

  /** The update keeps e-mails and usernames unique. */
  lemma ProfileValid(db: Tables, sessionEmail: Option<string>, body: Option<ProfileBody>)
    requires TablesValid(db)
    ensures TablesValid(ProfileSpec(db, sessionEmail, body).0)
  {
    var (db', resp) := ProfileSpec(db, sessionEmail, body);
    if resp.status == 200 {
      var i := UserWithEmail(db.users, sessionEmail.value).value;
      var row := db'.users[i];
      assert !UniqueViolation(db.users, i, row.dreamXIUsername);
      assert forall j :: 0 <= j < |db.users| && j != i ==> db'.users[j] == db.users[j];
      assert row.id == db.users[i].id && row.email == db.users[i].email;
    }
  }

  /** Without a session e-mail the answer is 401 and nothing changes. */
  lemma NoSessionUnauthorized(db: Tables, sessionEmail: Option<string>, body: Option<ProfileBody>)
    requires sessionEmail.None? || sessionEmail == Some("")
    ensures ProfileSpec(db, sessionEmail, body) == (db, Unauthorized)
  {
  }

  /** A non-empty username held by a user with another e-mail is a 400, and nothing changes. */
  lemma TakenUsernameRejected(db: Tables, email: string, b: ProfileBody, j: nat)
    requires email != "" && b.dreamXIUsername.Text? && b.dreamXIUsername.s != ""
    requires j < |db.users| && db.users[j].dreamXIUsername == Some(b.dreamXIUsername.s)
    requires db.users[j].email != email
    ensures ProfileSpec(db, Some(email), Some(b)) == (db, UsernameTaken)
  {
  }

  /**
   * The 400 is answered only for a non-empty username that another e-mail holds:
   * keeping one's own username, sending an empty one, or sending none never
   * draws it.
   */
  lemma UsernameCheckScope(db: Tables, email: string, b: ProfileBody)
    requires TablesValid(db) && email != ""
    ensures ProfileSpec(db, Some(email), Some(b)).1 == UsernameTaken <==>
      ChecksUsername(b.dreamXIUsername)
      && exists j :: 0 <= j < |db.users| && db.users[j].dreamXIUsername == Some(b.dreamXIUsername.s)
                     && db.users[j].email != email
  {
  }

  /**
   * Re-submitting one's own profile succeeds: with a row for the session e-mail,
   * string fields and the row's own current username, the answer is 200.
   */
  lemma OwnUsernameAccepted(db: Tables, email: string, b: ProfileBody, i: nat)
    requires TablesValid(db) && email != ""
    requires i < |db.users| && db.users[i].email == email
    requires !b.name.Invalid? && !b.profilePicture.Invalid?
    requires b.dreamXIUsername.Text? && db.users[i].dreamXIUsername == Some(b.dreamXIUsername.s)
    ensures ProfileSpec(db, Some(email), Some(b)).1.status == 200
  {
    var found := UserWithEmail(db.users, email);
    UserEmailUnique(db.users, db.nextId, i, found.value);
    var u := b.dreamXIUsername.s;
    forall j | 0 <= j < |db.users| && db.users[j].dreamXIUsername == Some(u)
      ensures j == i
    {
      UserUsernameUnique(db.users, db.nextId, i, j);
    }
  }

  /**
   * A non-empty username that passed the lookup never trips the store's unique
   * constraint: only the empty string can.
   */
  lemma NonEmptyUsernameNeverViolates(db: Tables, email: string, b: ProfileBody)
    requires TablesValid(db) && email != ""
    requires ChecksUsername(b.dreamXIUsername) && HolderElsewhere(db.users, b.dreamXIUsername.s, email).None?
    requires !b.name.Invalid? && !b.profilePicture.Invalid?
    requires UserWithEmail(db.users, email).Some?
    ensures ProfileSpec(db, Some(email), Some(b)).1.status == 200
  {
    var i := UserWithEmail(db.users, email).value;
    var u := b.dreamXIUsername.s;
    forall j | 0 <= j < |db.users| && db.users[j].dreamXIUsername == Some(u)
      ensures j == i
    {
      UserEmailUnique(db.users, db.nextId, i, j);
    }
  }

  /**
   * Only the session user's row changes, and in it only the name, the username
   * and the picture; the response echoes exactly those three columns. Any other
   * answer leaves the store as it was.
   */
  lemma UpdatesOnlySessionRow(db: Tables, sessionEmail: Option<string>, body: Option<ProfileBody>)
    ensures var (db', resp) := ProfileSpec(db, sessionEmail, body);
      && (resp.status != 200 ==> db' == db)
      && db'.teams == db.teams && db'.matches == db.matches && db'.participations == db.participations
      && |db'.users| == |db.users|
      && (forall j :: 0 <= j < |db.users| && Some(db.users[j].email) != sessionEmail ==> db'.users[j] == db.users[j])
      && (forall j :: 0 <= j < |db.users| ==>
            db'.users[j] == db.users[j].(name := db'.users[j].name, dreamXIUsername := db'.users[j].dreamXIUsername,
                                         profilePicture := db'.users[j].profilePicture))
      && (resp.status == 200 ==>
            var b := body.value;
            exists i :: 0 <= i < |db.users| && Some(db.users[i].email) == sessionEmail
              && db'.users[i].name == Assign(db.users[i].name, b.name)
              && db'.users[i].dreamXIUsername == Assign(db.users[i].dreamXIUsername, b.dreamXIUsername)
              && db'.users[i].profilePicture == Assign(db.users[i].profilePicture, b.profilePicture)
              && resp.user == Some(PublicProfile(db'.users[i].name, db'.users[i].dreamXIUsername,
                                                 db'.users[i].profilePicture)))
  {
    var (db', resp) := ProfileSpec(db, sessionEmail, body);
    if resp.status == 200 {
      var i := UserWithEmail(db.users, sessionEmail.value).value;
      assert Some(db.users[i].email) == sessionEmail;
    }
  }
}
