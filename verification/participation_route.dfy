/**
 * `POST /api/participations`: a signed-in user submits their own result for a
 * match. A chain of early-return guards (session, body schema, match exists,
 * match not completed, no earlier submission) ends in one insert.
 */
module ParticipationRoute {
  import opened Wrappers
  import opened Store
  import opened Json

  /** The request body's fields; `None` is a field that is absent (`undefined`). */
  datatype Body = Body(
    matchId: Option<Json>,
    points: Option<Json>,
    captainName: Option<Json>,
    viceCaptainName: Option<Json>,
    teamScreenshot: Option<Json>)

  /** What the schema yields on success. */
  datatype Submission = Submission(
    matchId: string,
    points: int,
    captainName: string,
    viceCaptainName: string,
    teamScreenshot: Option<string>)

  /** The JSON response: its status, its `message`, and the row on 201. */
  datatype Response = Response(status: int, message: string, participation: Option<Participation>)

  const PointsMax := 1000

  /** `z.string().min(1)` */
  predicate NonEmptyString(v: Option<Json>) {
    StringAtLeast(v, 1)
  }

  /** `z.number().min(0).max(1000)` */
  predicate PointsInRange(v: Option<Json>) {
    v.Some? && v.value.JNumber? && 0 <= v.value.n <= PointsMax
  }

  /** `z.string().url().optional().or(z.string().length(0))`: absent, a URL, or the empty string. */
  predicate ScreenshotOk(v: Option<Json>, isUrl: string -> bool) {
    v.None? || (v.value.JString? && (isUrl(v.value.s) || v.value.s == ""))
  }

  /** `participationSchema.safeParse(body)`; `isUrl` stands for the schema's URL check. */
  function Validate(b: Body, isUrl: string -> bool): (r: Option<Submission>)
    ensures r.Some? <==>
      IsString(b.matchId) && PointsInRange(b.points) && NonEmptyString(b.captainName)
      && NonEmptyString(b.viceCaptainName) && ScreenshotOk(b.teamScreenshot, isUrl)
    ensures r.Some? ==>
      && r.value.matchId == b.matchId.value.s && r.value.points == b.points.value.n
      && 0 <= r.value.points <= PointsMax
      && r.value.captainName != "" && r.value.viceCaptainName != ""
      && r.value.teamScreenshot == (if b.teamScreenshot.None? then None else Some(b.teamScreenshot.value.s))
  {
    if IsString(b.matchId) && PointsInRange(b.points) && NonEmptyString(b.captainName)
       && NonEmptyString(b.viceCaptainName) && ScreenshotOk(b.teamScreenshot, isUrl)
    then
      Some(Submission(b.matchId.value.s, b.points.value.n, b.captainName.value.s, b.viceCaptainName.value.s,
                      if b.teamScreenshot.None? then None else Some(b.teamScreenshot.value.s)))
    else None
  }

  /** `teamScreenshot || null`: an empty string is stored as no screenshot. */
  function StoredScreenshot(s: Option<string>): (r: Option<string>)
    ensures r.Some? <==> s.Some? && s.value != ""
    ensures r.Some? ==> r == s
  {
    if s.Some? && s.value != "" then s else None
  }

  /** The inserted row; the columns the request does not set take their defaults. */
  function NewRow(id: nat, userId: nat, sub: Submission): Participation {
    Participation(id, userId, sub.matchId, sub.points, None, 0, 0,
                  Some(sub.captainName), Some(sub.viceCaptainName), StoredScreenshot(sub.teamScreenshot))
  }

  const ServerError := Response(500, "An error occurred while recording participation", None)

  /**
   * The handler as a function of the store. `session` is the signed-in user's
   * id; `body` is `None` when the request body is not JSON (`req.json()` throws).
   * The insert throws, and the handler answers 500, when the session's user row
   * is missing (the foreign key).
   */
  function PostSpec(db: Tables, session: Option<nat>, body: Option<Body>, isUrl: string -> bool): (Tables, Response) {
    if session.None? then (db, Response(401, "Unauthorized", None))
    else if body.None? then (db, ServerError)
    else
      match Validate(body.value, isUrl)
      case None => (db, Response(400, "Invalid input data", None))
      case Some(sub) => Record(db, session.value, sub)
  }

  /** The guards on the store and the insert, once the body has passed the schema. */
  function Record(db: Tables, user: nat, sub: Submission): (Tables, Response) {
    match MatchWithId(db.matches, sub.matchId)
    case None => (db, Response(404, "Match not found", None))
    case Some(m) =>
      if db.matches[m].isCompleted then (db, Response(400, "Cannot participate in a completed match", None))
      else if ParticipationOf(db.participations, user, sub.matchId).Some? then
        (db, Response(409, "You have already participated in this match", None))
      else if UserWithId(db.users, user).None? then (db, ServerError)
      else
        var row := NewRow(db.nextId, user, sub);
        (db.(participations := db.participations + [row], nextId := db.nextId + 1),
         Response(201, "Participation recorded successfully", Some(row)))
  }


  method Post(db: Db, session: Option<nat>, body: Option<Body>, isUrl: string -> bool) returns (resp: Response)
    requires db.Valid()
    modifies db
    ensures db.Valid()
    ensures (db.State(), resp) == PostSpec(old(db.State()), session, body, isUrl)
  {
    if session.None? {
      return Response(401, "Unauthorized", None);
    }
    if body.None? {
      return ServerError;
    }
    var result := Validate(body.value, isUrl);
    if result.None? {
      return Response(400, "Invalid input data", None);
    }
    resp := RecordRow(db, session.value, result.value);
  }

  method RecordRow(db: Db, user: nat, sub: Submission) returns (resp: Response)
    requires db.Valid()
    modifies db
    ensures db.Valid()
    ensures (db.State(), resp) == Record(old(db.State()), user, sub)
  {
    var found := MatchWithId(db.matches, sub.matchId);
    if found.None? {
      return Response(404, "Match not found", None);
    }
    if db.matches[found.value].isCompleted {
      return Response(400, "Cannot participate in a completed match", None);
    }
    var existing := ParticipationOf(db.participations, user, sub.matchId);
    if existing.Some? {
      return Response(409, "You have already participated in this match", None);
    }
    if UserWithId(db.users, user).None? {
      return ServerError;
    }
    var row := NewRow(db.nextId, user, sub);
    ghost var s0 := db.State();
    ParticipationAppendValid(s0, row);
    db.participations := db.participations + [row];
    db.nextId := db.nextId + 1;
    assert db.State() == s0.(participations := s0.participations + [row], nextId := s0.nextId + 1);
    resp := Response(201, "Participation recorded successfully", Some(row));
  }


  // ---------------------------------------------------------------------------
  // Properties

  /** The handler keeps the store's constraints, one row per (user, match) among them. */
  lemma PostValid(db: Tables, session: Option<nat>, body: Option<Body>, isUrl: string -> bool)
    requires TablesValid(db)
    ensures TablesValid(PostSpec(db, session, body, isUrl).0)
  {
    if session.Some? && body.Some? && Validate(body.value, isUrl).Some? {
      RecordValid(db, session.value, Validate(body.value, isUrl).value);
    }
  }

  lemma RecordValid(db: Tables, user: nat, sub: Submission)
    requires TablesValid(db)
    ensures TablesValid(Record(db, user, sub).0)
  {
    var found := MatchWithId(db.matches, sub.matchId);
    if found.Some? && !db.matches[found.value].isCompleted
       && ParticipationOf(db.participations, user, sub.matchId).None? && UserWithId(db.users, user).Some? {
      var row := NewRow(db.nextId, user, sub);
      ParticipationAppendValid(db, row);
      assert Record(db, user, sub).0 == db.(participations := db.participations + [row], nextId := db.nextId + 1);
    } else {
      assert Record(db, user, sub).0 == db;
    }
  }

  /** Without a session the answer is 401 whatever the body, and nothing is written. */
  lemma NoSessionUnauthorized(db: Tables, body: Option<Body>, isUrl: string -> bool)
    ensures PostSpec(db, None, body, isUrl) == (db, Response(401, "Unauthorized", None))
  {
  }

  /** Every answer other than 201 leaves the store exactly as it was. */
  lemma RejectionsWriteNothing(db: Tables, session: Option<nat>, body: Option<Body>, isUrl: string -> bool)
    ensures var (db', resp) := PostSpec(db, session, body, isUrl);
      (resp.status != 201 <==> db' == db) && (resp.status == 201 <==> resp.participation.Some?)
  {
  }

  /**
   * A body that fails the schema (points outside 0..1000, an empty captain or
   * vice-captain, a screenshot that is neither a URL nor empty, or a missing
   * field) is a 400, checked after the session and before any store lookup.
   */
  lemma BadInputRejected(db: Tables, user: nat, b: Body, isUrl: string -> bool)
    requires
      || !IsString(b.matchId)
      || !PointsInRange(b.points)
      || !NonEmptyString(b.captainName) || !NonEmptyString(b.viceCaptainName)
      || !ScreenshotOk(b.teamScreenshot, isUrl)
    ensures PostSpec(db, Some(user), Some(b), isUrl) == (db, Response(400, "Invalid input data", None))
  {
  }

  /** A valid body for an unknown match is a 404; for a completed match a 400. */
  lemma MatchChecks(db: Tables, user: nat, b: Body, isUrl: string -> bool)
    requires TablesValid(db) && Validate(b, isUrl).Some?
    ensures var (db', resp) := PostSpec(db, Some(user), Some(b), isUrl);
      var id := b.matchId.value.s;
      && (MatchWithId(db.matches, id).None? ==> resp.status == 404)
      && (forall j :: 0 <= j < |db.matches| && db.matches[j].id == id && db.matches[j].isCompleted ==>
            resp == Response(400, "Cannot participate in a completed match", None))
  {
    var id := b.matchId.value.s;
    var found := MatchWithId(db.matches, id);
    forall j | 0 <= j < |db.matches| && db.matches[j].id == id && db.matches[j].isCompleted
      ensures PostSpec(db, Some(user), Some(b), isUrl).1 == Response(400, "Cannot participate in a completed match", None)
    {
      assert found.Some?;
      MatchIdUnique(db.matches, j, found.value);
    }
  }

  /**
   * A 201 is answered exactly when every guard passes; it appends one row for the
   * session user and the match, carrying the submitted points and names, with an
   * empty screenshot stored as none.
   */
  lemma CreatesExactlyOne(db: Tables, user: nat, b: Body, isUrl: string -> bool)
    ensures var (db', resp) := PostSpec(db, Some(user), Some(b), isUrl);
      var sub := Validate(b, isUrl);
      && (resp.status == 201 <==>
            && sub.Some?
            && MatchWithId(db.matches, sub.value.matchId).Some?
            && !db.matches[MatchWithId(db.matches, sub.value.matchId).value].isCompleted
            && ParticipationOf(db.participations, user, sub.value.matchId).None?
            && UserWithId(db.users, user).Some?)
      && (resp.status == 201 ==>
            var row := resp.participation.value;
            && db'.participations == db.participations + [row]
            && db'.teams == db.teams && db'.matches == db.matches && db'.users == db.users
            && row.userId == user && row.matchId == b.matchId.value.s
            && row.points == b.points.value.n
            && row.captainName == Some(b.captainName.value.s)
            && row.viceCaptainName == Some(b.viceCaptainName.value.s)
            && (row.teamScreenshot.None? <==> b.teamScreenshot.None? || b.teamScreenshot.value.s == ""))
  {
  }

  /** Sending the same accepted request again is a 409: a user records a match once. */
  lemma ResubmitConflicts(db: Tables, user: nat, b: Body, isUrl: string -> bool)
    requires PostSpec(db, Some(user), Some(b), isUrl).1.status == 201
    ensures var db1 := PostSpec(db, Some(user), Some(b), isUrl).0;
      PostSpec(db1, Some(user), Some(b), isUrl).1 == Response(409, "You have already participated in this match", None)
  {
    var (db1, resp) := PostSpec(db, Some(user), Some(b), isUrl);
    var sub := Validate(b, isUrl).value;
    var k := |db.participations|;
    assert db1.participations[k].userId == user && db1.participations[k].matchId == sub.matchId;
    assert db1.matches == db.matches;
  }
}
