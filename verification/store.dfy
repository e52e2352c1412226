/**
 * The relational store the application reaches through its ORM client: four
 * tables (Team, Match, User, Participation) held in insertion order, with the
 * uniqueness constraints of their schema, and a counter that stands for the
 * store's generated identifiers.
 */
module Store {
  import opened Wrappers
  import opened Collections

  /** A franchise. `name` is unique; `logoUrl` is `None` when never set. */
  datatype Team = Team(id: nat, name: string, shortName: string, logoUrl: Option<string>, establishedYear: int)

  /** A fixture. `id` is unique; dates are instants in milliseconds. */
  datatype Match = Match(
    id: string,
    matchNumber: int,
    season: int,
    matchDate: int,
    venue: Option<string>,
    homeTeamId: nat,
    awayTeamId: nat,
    isCompleted: bool,
    isLive: bool,
    winningTeamId: Option<nat>,
    winByRuns: Option<int>,
    winByWickets: Option<int>)

  /** A registered player. `email` and `dreamXIUsername` are unique; `password` holds the hash. */
  datatype User = User(
    id: nat,
    name: Option<string>,
    email: string,
    dreamXIUsername: Option<string>,
    password: string,
    profilePicture: Option<string>,
    skillScore: int)

  /** One user's self-reported result for one match; the pair (userId, matchId) is unique. */
  datatype Participation = Participation(
    id: nat,
    userId: nat,
    matchId: string,
    points: int,
    rank: Option<int>,
    moneySpent: int,
    moneyGained: int,
    captainName: Option<string>,
    viceCaptainName: Option<string>,
    teamScreenshot: Option<string>)

  /** A snapshot of every table plus the next generated identifier. */
  datatype Tables = Tables(
    teams: seq<Team>,
    matches: seq<Match>,
    users: seq<User>,
    participations: seq<Participation>,
    nextId: nat)

  ghost predicate TeamsValid(teams: seq<Team>, nextId: nat) {
    && (forall i, j :: 0 <= i < j < |teams| ==> teams[i].name != teams[j].name && teams[i].id != teams[j].id)
    && (forall i :: 0 <= i < |teams| ==> teams[i].id < nextId)
  }

  ghost predicate MatchesValid(matches: seq<Match>) {
    forall i, j :: 0 <= i < j < |matches| ==> matches[i].id != matches[j].id
  }

  ghost predicate UsersValid(users: seq<User>, nextId: nat) {
    && (forall i, j :: 0 <= i < j < |users| ==> users[i].id != users[j].id && users[i].email != users[j].email)
    && (forall i, j :: 0 <= i < j < |users| && users[i].dreamXIUsername.Some? ==>
          users[i].dreamXIUsername != users[j].dreamXIUsername)
    && (forall i :: 0 <= i < |users| ==> users[i].id < nextId)
  }

  ghost predicate ParticipationsValid(ps: seq<Participation>, nextId: nat) {
    && (forall i, j :: 0 <= i < j < |ps| ==>
          ps[i].id != ps[j].id && (ps[i].userId, ps[i].matchId) != (ps[j].userId, ps[j].matchId))
    && (forall i :: 0 <= i < |ps| ==> ps[i].id < nextId)
  }

  /** The schema's constraints: every unique column holds distinct values, every id is below the counter. */
  ghost predicate TablesValid(t: Tables) {
    && TeamsValid(t.teams, t.nextId)
    && MatchesValid(t.matches)
    && UsersValid(t.users, t.nextId)
    && ParticipationsValid(t.participations, t.nextId)
  }

  /** `team.findUnique({ where: { name } })` */
  function TeamNamed(teams: seq<Team>, name: string): (r: Option<nat>)
    ensures r.Some? ==> r.value < |teams| && teams[r.value].name == name
    ensures r.None? <==> forall j :: 0 <= j < |teams| ==> teams[j].name != name
  {
    FindFirst(teams, (t: Team) => t.name == name)
  }

  /** `match.findUnique({ where: { id } })` */
  function MatchWithId(matches: seq<Match>, id: string): (r: Option<nat>)
    ensures r.Some? ==> r.value < |matches| && matches[r.value].id == id
    ensures r.None? <==> forall j :: 0 <= j < |matches| ==> matches[j].id != id
  {
    FindFirst(matches, (m: Match) => m.id == id)
  }

  /** `user.findUnique({ where: { id } })` */
  function UserWithId(users: seq<User>, id: nat): (r: Option<nat>)
    ensures r.Some? ==> r.value < |users| && users[r.value].id == id
    ensures r.None? <==> forall j :: 0 <= j < |users| ==> users[j].id != id
  {
    FindFirst(users, (u: User) => u.id == id)
  }

  /** `user.findUnique({ where: { email } })` */
  function UserWithEmail(users: seq<User>, email: string): (r: Option<nat>)
    ensures r.Some? ==> r.value < |users| && users[r.value].email == email
    ensures r.None? <==> forall j :: 0 <= j < |users| ==> users[j].email != email
  {
    FindFirst(users, (u: User) => u.email == email)
  }

  /** `user.findUnique({ where: { dreamXIUsername } })` */
  function UserWithUsername(users: seq<User>, username: string): (r: Option<nat>)
    ensures r.Some? ==> r.value < |users| && users[r.value].dreamXIUsername == Some(username)
    ensures r.None? <==> forall j :: 0 <= j < |users| ==> users[j].dreamXIUsername != Some(username)
  {
    FindFirst(users, (u: User) => u.dreamXIUsername == Some(username))
  }

  /** `participation.findUnique({ where: { userId_matchId: { userId, matchId } } })` */
  function ParticipationOf(ps: seq<Participation>, userId: nat, matchId: string): (r: Option<nat>)
    ensures r.Some? ==> r.value < |ps| && ps[r.value].userId == userId && ps[r.value].matchId == matchId
    ensures r.None? <==> forall j :: 0 <= j < |ps| ==> ps[j].userId != userId || ps[j].matchId != matchId
  {
    FindFirst(ps, (p: Participation) => p.userId == userId && p.matchId == matchId)
  }

  /** Two rows of a valid user table with the same email are the same row. */
  lemma UserEmailUnique(users: seq<User>, n: nat, i: nat, j: nat)
    requires UsersValid(users, n) && i < |users| && j < |users|
    requires users[i].email == users[j].email
    ensures i == j
  {
  }

  /** Two rows of a valid user table holding the same username are the same row. */
  lemma UserUsernameUnique(users: seq<User>, n: nat, i: nat, j: nat)
    requires UsersValid(users, n) && i < |users| && j < |users|
    requires users[i].dreamXIUsername.Some? && users[i].dreamXIUsername == users[j].dreamXIUsername
    ensures i == j
  {
  }

  /** Raising the id counter keeps the user and participation constraints. */
  lemma UsersValidMonotone(users: seq<User>, n: nat, n': nat)
    requires UsersValid(users, n) && n <= n'
    ensures UsersValid(users, n')
  {
  }

  lemma TeamsValidMonotone(teams: seq<Team>, n: nat, n': nat)
    requires TeamsValid(teams, n) && n <= n'
    ensures TeamsValid(teams, n')
  {
  }

  lemma ParticipationsValidMonotone(ps: seq<Participation>, n: nat, n': nat)
    requires ParticipationsValid(ps, n) && n <= n'
    ensures ParticipationsValid(ps, n')
  {
  }

  /** A row with the next id and a (user, match) pair not yet present can be appended. */
  lemma ParticipationAppendValid(db: Tables, row: Participation)
    requires TablesValid(db) && row.id == db.nextId
    requires ParticipationOf(db.participations, row.userId, row.matchId).None?
    ensures TablesValid(db.(participations := db.participations + [row], nextId := db.nextId + 1))
  {
    TeamsValidMonotone(db.teams, db.nextId, db.nextId + 1);
    UsersValidMonotone(db.users, db.nextId, db.nextId + 1);
  }

  /** Changing a user's skill score touches no unique column. */
  lemma SkillScoreUpdateValid(db: Tables, i: nat, score: int)
    requires TablesValid(db) && i < |db.users|
    ensures TablesValid(db.(users := db.users[i := db.users[i].(skillScore := score)]))
  {
    var users' := db.users[i := db.users[i].(skillScore := score)];
    assert forall j :: 0 <= j < |users'| ==>
      users'[j].id == db.users[j].id && users'[j].email == db.users[j].email
      && users'[j].dreamXIUsername == db.users[j].dreamXIUsername;
  }

  /** Two rows of a valid match table with the same id are the same row. */
  lemma MatchIdUnique(matches: seq<Match>, i: nat, j: nat)
    requires MatchesValid(matches) && i < |matches| && j < |matches|
    requires matches[i].id == matches[j].id
    ensures i == j
  {
  }

  function MaxIdLength(matches: seq<Match>): (n: nat)
    ensures forall i :: 0 <= i < |matches| ==> |matches[i].id| <= n
    decreases |matches|
  {
    if matches == [] then 0
    else
      var rest := MaxIdLength(matches[1..]);
      assert forall i :: 1 <= i < |matches| ==> matches[i] == matches[1..][i - 1];
      if |matches[0].id| > rest then |matches[0].id| else rest
  }

  /** A generated match id: one no row in the table uses (the store's own id default). */
  function FreshMatchId(matches: seq<Match>): (id: string)
    ensures forall i :: 0 <= i < |matches| ==> matches[i].id != id
  {
    seq(MaxIdLength(matches) + 1, _ => 'c')
  }

  /** The store client shared by every handler. */
  class Db {
    var teams: seq<Team>
    var matches: seq<Match>
    var users: seq<User>
    var participations: seq<Participation>
    var nextId: nat

    function State(): Tables
      reads this
    {
      Tables(teams, matches, users, participations, nextId)
    }

    ghost predicate Valid()
      reads this
    {
      TablesValid(State())
    }

    constructor ()
      ensures Valid()
      ensures State() == Tables([], [], [], [], 0)
    {
      teams, matches, users, participations, nextId := [], [], [], [], 0;
    }
  }
}
