/**
 * The first reconciliation engine (src/lib/cricketDataService.ts,
 * `syncLiveMatchesWithDB`): fetch and map the live listing, reject the whole
 * batch when a record has no id, then, record by record, upsert both teams by
 * their key and upsert the match by its upstream id. A record that cannot be
 * written is skipped and the loop goes on.
 */
module LiveSync {
  import opened Wrappers
  import opened Text
  import opened Store
  import opened CricketFeed

  const Season := 2025
  const DefaultEstablishedYear := 2008
  const DefaultLogo := "/default-team-logo.png"

  /** `teamInfo.find(t => t.name === key) || {}`; the empty object reads as all-empty fields. */
  function InfoFor(infos: seq<TeamInfo>, key: string): (r: TeamInfo)
    ensures r == TeamInfo("", "", "") || r in infos
    ensures (exists i :: 0 <= i < |infos| && infos[i].name == key) ==>
              exists i :: 0 <= i < |infos| && r == infos[i] && infos[i].name == key
                          && forall j :: 0 <= j < i ==> infos[j].name != key
    ensures (forall i :: 0 <= i < |infos| ==> infos[i].name != key) ==> r == TeamInfo("", "", "")
    decreases |infos|
  {
    if infos == [] then TeamInfo("", "", "")
    else if infos[0].name == key then infos[0]
    else InfoFor(infos[1..], key)
  }

  /** The short name a created row gets: the info's, else the key's first three letters upper-cased. */
  function ShortNameFor(key: string, info: TeamInfo): string {
    if info.shortName != "" then info.shortName else ToUpper(Prefix(key, 3))
  }

  /** The row created for a key not yet in the table. */
  function NewTeam(id: nat, key: string, info: TeamInfo, createLogo: string): Team {
    Team(id, key, ShortNameFor(key, info),
         Some(if info.img != "" then info.img else createLogo),
         DefaultEstablishedYear)
  }

  /** `team.upsert` keyed by name: an existing row gets `logoUrl := img || ''`, otherwise a row is appended. */
  function UpsertTeam(teams: seq<Team>, nextId: nat, key: string, info: TeamInfo, createLogo: string): (seq<Team>, nat) {
    match TeamNamed(teams, key)
    case Some(i) => (teams[i := teams[i].(logoUrl := Some(info.img))], nextId)
    case None => (teams + [NewTeam(nextId, key, info, createLogo)], nextId + 1)
  }

  ghost predicate HasTeam(teams: seq<Team>, name: string) {
    exists j :: 0 <= j < |teams| && teams[j].name == name
  }

  ghost predicate HasMatch(matches: seq<Match>, id: string) {
    exists j :: 0 <= j < |matches| && matches[j].id == id
  }

  /** `t'` keeps every row of `t` at its place with the same name (rows may be appended). */
  ghost predicate TeamsExtend(t: seq<Team>, t': seq<Team>) {
    |t| <= |t'| && forall j :: 0 <= j < |t| ==> t'[j].name == t[j].name
  }

  /** `m'` keeps every row of `m` at its place with the same id (rows may be appended). */
  ghost predicate MatchesExtend(m: seq<Match>, m': seq<Match>) {
    |m| <= |m'| && forall j :: 0 <= j < |m| ==> m'[j].id == m[j].id
  }

  /**
   * The team upsert never duplicates a name: an existing row changes in `logoUrl`
   * only, and a new row carries the key, the short-name fallback, the creation
   * logo and the default founding year.
   */
  lemma UpsertTeamSpec(teams: seq<Team>, nextId: nat, key: string, info: TeamInfo, createLogo: string)
    requires TeamsValid(teams, nextId)
    ensures var (t', n') := UpsertTeam(teams, nextId, key, info, createLogo);
      && TeamsValid(t', n')
      && TeamsExtend(teams, t')
      && HasTeam(t', key)
      && (HasTeam(teams, key) ==>
            && |t'| == |teams| && n' == nextId
            && forall j :: 0 <= j < |teams| ==>
                 t'[j] == (if teams[j].name == key then teams[j].(logoUrl := Some(info.img)) else teams[j]))
      && (!HasTeam(teams, key) ==>
            && t' == teams + [Team(nextId, key, ShortNameFor(key, info),
                                   Some(if info.img != "" then info.img else createLogo),
                                   2008)]
            && n' == nextId + 1)
  {
    var (t', n') := UpsertTeam(teams, nextId, key, info, createLogo);
    match TeamNamed(teams, key)
    case Some(i) =>
      assert HasTeam(t', key) by { assert t'[i].name == key; }
    case None =>
      assert t'[|teams|].name == key;
  }

  /** The winning team's id, looked up by exact name; `None` leaves the column as it was. */
  function WinnerId(teams: seq<Team>, result: Option<MatchResult>): (r: Option<nat>)
    ensures r.Some? ==> && result.Some? && result.value.winner != ""
                        && exists t :: 0 <= t < |teams| && teams[t].name == result.value.winner && teams[t].id == r.value
    ensures r.None? <==> result.None? || result.value.winner == ""
                         || forall t :: 0 <= t < |teams| ==> teams[t].name != result.value.winner
  {
    if result.Some? && result.value.winner != "" then
      match TeamNamed(teams, result.value.winner)
      case Some(i) => Some(teams[i].id)
      case None => None
    else None
  }

  /** The kick-off written on create: the parsed `dateTimeGMT` when present and valid, else now. */
  function KickoffOrNow(dateTimeGMT: string, parseDate: string -> Option<int>, now: int): (t: int)
    ensures dateTimeGMT != "" && parseDate(dateTimeGMT).Some? ==> t == parseDate(dateTimeGMT).value
    ensures dateTimeGMT == "" || parseDate(dateTimeGMT).None? ==> t == now
  {
    if dateTimeGMT == "" then now else parseDate(dateTimeGMT).GetOr(now)
  }

  /** The columns an update writes; `undefined` values leave a column unchanged. */
  function UpdatedRow(row: Match, c: CricketMatch, winnerId: Option<nat>): Match {
    row.(isCompleted := c.status == Completed,
         winningTeamId := if winnerId.Some? then winnerId else row.winningTeamId,
         winByRuns := if c.result.Some? && c.result.value.winByRuns.Some? then c.result.value.winByRuns else row.winByRuns,
         winByWickets := if c.result.Some? then Some(c.result.value.winByWickets) else row.winByWickets)
  }

  /** The row written on create. */
  function CreatedRow(c: CricketMatch, homeId: nat, awayId: nat, winnerId: Option<nat>,
                      parseDate: string -> Option<int>, now: int): Match
  {
    Match(c.id, c.matchNumber, Season, KickoffOrNow(c.dateTimeGMT, parseDate, now), None, homeId, awayId,
          c.status == Completed, false, winnerId,
          if c.result.Some? then c.result.value.winByRuns else None,
          if c.result.Some? then Some(c.result.value.winByWickets) else None)
  }

  datatype Outcome = Synced(row: Match) | Failed(matchId: string)

  /** The two team upserts of one record: team1 with the default logo on create, team2 with `''`. */
  function UpsertRecordTeams(db: Tables, c: CricketMatch): Tables {
    var (teams1, next1) := UpsertTeam(db.teams, db.nextId, c.team1, InfoFor(c.teamInfo, c.team1), DefaultLogo);
    var (teams2, next2) := UpsertTeam(teams1, next1, c.team2, InfoFor(c.teamInfo, c.team2), "");
    db.(teams := teams2, nextId := next2)
  }

  /**
   * The match upsert keyed by upstream id: an existing row is updated; otherwise a
   * row is created connected to the teams named by the re-normalized keys, and the
   * create fails when one of them is missing.
   */
  function WriteMatch(db: Tables, c: CricketMatch, parseDate: string -> Option<int>, now: int): (Tables, Outcome) {
    var winnerId := WinnerId(db.teams, c.result);
    match MatchWithId(db.matches, c.id)
    case Some(i) =>
      var row := UpdatedRow(db.matches[i], c, winnerId);
      (db.(matches := db.matches[i := row]), Synced(row))
    case None =>
      match (TeamNamed(db.teams, Renormalize(c.team1)), TeamNamed(db.teams, Renormalize(c.team2)))
      case (Some(h), Some(a)) =>
        var row := CreatedRow(c, db.teams[h].id, db.teams[a].id, winnerId, parseDate, now);
        (db.(matches := db.matches + [row]), Synced(row))
      case _ => (db, Failed(c.id))
  }

  /**
   * One iteration of the loop: a record with fewer than two team-info entries is
   * skipped; otherwise its teams are upserted and then its match. A failed create
   * keeps the team writes made before it.
   */
  function SyncRecord(db: Tables, c: CricketMatch, parseDate: string -> Option<int>, now: int): (Tables, Outcome) {
    if |c.teamInfo| < 2 then (db, Failed(c.id))
    else WriteMatch(UpsertRecordTeams(db, c), c, parseDate, now)
  }

  /** The loop over all records: final tables, the rows upserted (in order) and the ids that failed. */
  function SyncAll(db: Tables, cs: seq<CricketMatch>, parseDate: string -> Option<int>, now: int)
    : (Tables, seq<Match>, seq<string>)
    decreases |cs|
  {
    if cs == [] then (db, [], [])
    else
      var (db1, done, failed) := SyncAll(db, cs[..|cs| - 1], parseDate, now);
      var (db2, o) := SyncRecord(db1, cs[|cs| - 1], parseDate, now);
      match o
      case Synced(row) => (db2, done + [row], failed)
      case Failed(id) => (db2, done, failed + [id])
  }

  datatype SyncError = FetchFailed(cause: FetchError) | InvalidMatchData

  /** `liveMatches.every(m => m.team1 && m.team2 && m.id)` */
  predicate AllIdentified(cs: seq<CricketMatch>) {
    forall i :: 0 <= i < |cs| ==> cs[i].team1 != "" && cs[i].team2 != "" && cs[i].id != ""
  }

  /**
   * The whole sync as a function of the store: an error leaves every table as it
   * was, and a listing that cannot be fetched or mapped is reported as a fetch
   * failure.
   */
  function SyncSpec(db: Tables, listing: Listing, parseDate: string -> Option<int>, now: int)
    : (r: (Tables, Result<seq<Match>, SyncError>))
    ensures r.1.Err? ==> r.0 == db
    ensures FetchLiveMatches(listing).Err? <==> r.1.Err? && r.1.error.FetchFailed?
    ensures FetchLiveMatches(listing).Err? ==> r.1 == Err(FetchFailed(FetchLiveMatches(listing).error))
  {
    match FetchLiveMatches(listing)
    case Err(e) => (db, Err(FetchFailed(e)))
    case Ok(cs) =>
      if !AllIdentified(cs) then (db, Err(InvalidMatchData))
      else
        var (db', done, _) := SyncAll(db, cs, parseDate, now);
        (db', Ok(done))
  }

  /** The message the error carries out of `syncLiveMatchesWithDB`. */
  function ErrorMessage(e: SyncError): string {
    "Database transaction failed: " +
    match e
    case FetchFailed(UpstreamFailed(reason)) => "Failed to fetch live match data: " + reason
    case FetchFailed(MappingFailed) => "Failed to fetch live match data: record mapping failed"
    case InvalidMatchData => "Database sync failed: Invalid match data structure from API"
  }

  // ---------------------------------------------------------------------------
  // The store-mutating implementation

  method UpsertTeamRow(db: Db, key: string, info: TeamInfo, createLogo: string)
    modifies db
    ensures (db.teams, db.nextId) == UpsertTeam(old(db.teams), old(db.nextId), key, info, createLogo)
    ensures db.matches == old(db.matches) && db.users == old(db.users)
    ensures db.participations == old(db.participations)
  {
    var found := TeamNamed(db.teams, key);
    if found.Some? {
      var i := found.value;
      db.teams := db.teams[i := db.teams[i].(logoUrl := Some(info.img))];
    } else {
      db.teams := db.teams + [NewTeam(db.nextId, key, info, createLogo)];
      db.nextId := db.nextId + 1;
    }
  }

  method WriteMatchRow(db: Db, c: CricketMatch, parseDate: string -> Option<int>, now: int) returns (o: Outcome)
    modifies db
    ensures (db.State(), o) == WriteMatch(old(db.State()), c, parseDate, now)
  {
    var winnerId := WinnerId(db.teams, c.result);
    var existing := MatchWithId(db.matches, c.id);
    if existing.Some? {
      var i := existing.value;
      var row := UpdatedRow(db.matches[i], c, winnerId);
      db.matches := db.matches[i := row];
      o := Synced(row);
    } else {
      var home, away := Renormalize(c.team1), Renormalize(c.team2);
      var h, a := TeamNamed(db.teams, home), TeamNamed(db.teams, away);
      if h.Some? && a.Some? {
        var row := CreatedRow(c, db.teams[h.value].id, db.teams[a.value].id, winnerId, parseDate, now);
        db.matches := db.matches + [row];
        o := Synced(row);
      } else {
        o := Failed(c.id);
      }
    }
  }

  method SyncOne(db: Db, c: CricketMatch, parseDate: string -> Option<int>, now: int) returns (o: Outcome)
    modifies db
    ensures (db.State(), o) == SyncRecord(old(db.State()), c, parseDate, now)
  {
    if |c.teamInfo| < 2 {
      return Failed(c.id);
    }
    UpsertTeamRow(db, c.team1, InfoFor(c.teamInfo, c.team1), DefaultLogo);
    UpsertTeamRow(db, c.team2, InfoFor(c.teamInfo, c.team2), "");
    assert db.State() == UpsertRecordTeams(old(db.State()), c);
    o := WriteMatchRow(db, c, parseDate, now);
  }

  /** `syncLiveMatchesWithDB`: the listing is the HTTP result, `parseDate` and `now` stand for `Date`. */
  method SyncLiveMatchesWithDB(db: Db, listing: Listing, parseDate: string -> Option<int>, now: int)
    returns (r: Result<seq<Match>, SyncError>)
    requires db.Valid()
    modifies db
    ensures db.Valid()
    ensures (db.State(), r) == SyncSpec(old(db.State()), listing, parseDate, now)
  {
    var fetched := FetchLiveMatches(listing);
    if fetched.Err? {
      return Err(FetchFailed(fetched.error));
    }
    var cs := fetched.value;
    if !AllIdentified(cs) {
      return Err(InvalidMatchData);
    }
    var processed: seq<Match> := [];
    ghost var failed: seq<string> := [];
    var i := 0;
    while i < |cs|
      invariant 0 <= i <= |cs|
      invariant (db.State(), processed, failed) == SyncAll(old(db.State()), cs[..i], parseDate, now)
      invariant TablesValid(db.State())
    {
      SyncAllSnoc(old(db.State()), cs, i, parseDate, now);
      SyncRecordValid(db.State(), cs[i], parseDate, now);
      var o := SyncOne(db, cs[i], parseDate, now);
      if o.Synced? {
        processed := processed + [o.row];
      } else {
        failed := failed + [o.matchId];
      }
      i := i + 1;
    }
    assert cs[..|cs|] == cs;
    r := Ok(processed);
  }

  // ---------------------------------------------------------------------------
  // Properties

  lemma UpdateKeepsMatchesValid(m: seq<Match>, i: nat, row: Match)
    requires MatchesValid(m) && i < |m| && row.id == m[i].id
    ensures MatchesValid(m[i := row]) && MatchesExtend(m, m[i := row])
  {
  }

  lemma AppendKeepsMatchesValid(m: seq<Match>, row: Match)
    requires MatchesValid(m)
    requires forall j :: 0 <= j < |m| ==> m[j].id != row.id
    ensures MatchesValid(m + [row]) && MatchesExtend(m, m + [row])
  {
  }

  /**
   * The team phase keeps the schema's constraints, only appends team rows and
   * leaves both keys stored; when both were stored already it adds no row.
   */
  lemma UpsertRecordTeamsSpec(db: Tables, c: CricketMatch)
    requires TablesValid(db)
    ensures var t := UpsertRecordTeams(db, c);
      && TablesValid(t)
      && TeamsExtend(db.teams, t.teams) && db.nextId <= t.nextId
      && t.matches == db.matches && t.users == db.users && t.participations == db.participations
      && HasTeam(t.teams, c.team1) && HasTeam(t.teams, c.team2)
      && (HasTeam(db.teams, c.team1) && HasTeam(db.teams, c.team2) ==> |t.teams| == |db.teams|)
  {
    var (teams1, next1) := UpsertTeam(db.teams, db.nextId, c.team1, InfoFor(c.teamInfo, c.team1), DefaultLogo);
    UpsertTeamSpec(db.teams, db.nextId, c.team1, InfoFor(c.teamInfo, c.team1), DefaultLogo);
    var (teams2, next2) := UpsertTeam(teams1, next1, c.team2, InfoFor(c.teamInfo, c.team2), "");
    UpsertTeamSpec(teams1, next1, c.team2, InfoFor(c.teamInfo, c.team2), "");
    var j :| 0 <= j < |teams1| && teams1[j].name == c.team1;
    assert teams2[j].name == c.team1;
    if HasTeam(db.teams, c.team2) {
      var k :| 0 <= k < |db.teams| && db.teams[k].name == c.team2;
      assert teams1[k].name == c.team2;
    }
    UsersValidMonotone(db.users, db.nextId, next2);
    ParticipationsValidMonotone(db.participations, db.nextId, next2);
  }

  /**
   * One team upsert, column by column: the key's row ends with logo `img`, or
   * the creation logo when it was created without one; every other stored row
   * is untouched and a stored row changes in its logo only; a created row
   * carries the short-name fallback and the default founding year.
   */
  lemma UpsertTeamColumns(teams: seq<Team>, nextId: nat, key: string, info: TeamInfo, createLogo: string)
    requires TeamsValid(teams, nextId)
    ensures var (t', _) := UpsertTeam(teams, nextId, key, info, createLogo);
      && |teams| <= |t'| <= |teams| + 1
      && (forall j :: 0 <= j < |t'| && t'[j].name == key ==>
            t'[j].logoUrl == Some(if HasTeam(teams, key) || info.img != "" then info.img else createLogo))
      && (forall j :: 0 <= j < |teams| && teams[j].name != key ==> t'[j] == teams[j])
      && (forall j :: 0 <= j < |teams| ==> t'[j].(logoUrl := teams[j].logoUrl) == teams[j])
      && (forall j :: |teams| <= j < |t'| ==>
            && t'[j].name == key && !HasTeam(teams, key)
            && t'[j].establishedYear == 2008 && t'[j].shortName == ShortNameFor(key, info))
  {
    UpsertTeamSpec(teams, nextId, key, info, createLogo);
  }

  /**
   * What the team phase writes into the columns: team2's row always ends with
   * logo `img` (its create and its update both write `img || ''`); a distinct
   * team1's row ends with `img`, or the default logo when it was created without
   * one. Every created row is one of the two keys, with the short-name fallback
   * and the default founding year.
   */
  lemma RecordTeamColumns(db: Tables, c: CricketMatch)
    requires TablesValid(db)
    ensures var t := UpsertRecordTeams(db, c);
      var info1 := InfoFor(c.teamInfo, c.team1);
      var info2 := InfoFor(c.teamInfo, c.team2);
      && (forall j :: 0 <= j < |t.teams| && t.teams[j].name == c.team2 ==> t.teams[j].logoUrl == Some(info2.img))
      && (c.team1 != c.team2 ==>
            forall j :: 0 <= j < |t.teams| && t.teams[j].name == c.team1 ==>
              t.teams[j].logoUrl == Some(if HasTeam(db.teams, c.team1) || info1.img != "" then info1.img else DefaultLogo))
      && (forall j :: |db.teams| <= j < |t.teams| ==>
            && (t.teams[j].name == c.team1 || t.teams[j].name == c.team2)
            && !HasTeam(db.teams, t.teams[j].name)
            && t.teams[j].establishedYear == 2008
            && t.teams[j].shortName == ShortNameFor(t.teams[j].name, InfoFor(c.teamInfo, t.teams[j].name)))
  {
    var info1 := InfoFor(c.teamInfo, c.team1);
    var info2 := InfoFor(c.teamInfo, c.team2);
    var (teams1, next1) := UpsertTeam(db.teams, db.nextId, c.team1, info1, DefaultLogo);
    UpsertTeamSpec(db.teams, db.nextId, c.team1, info1, DefaultLogo);
    UpsertTeamColumns(db.teams, db.nextId, c.team1, info1, DefaultLogo);
    var (teams2, next2) := UpsertTeam(teams1, next1, c.team2, info2, "");
    UpsertTeamColumns(teams1, next1, c.team2, info2, "");
    assert UpsertRecordTeams(db, c).teams == teams2;
    assert (if HasTeam(teams1, c.team2) || info2.img != "" then info2.img else "") == info2.img;
    if c.team1 != c.team2 {
      forall j | 0 <= j < |teams2| && teams2[j].name == c.team1
        ensures teams2[j].logoUrl == Some(if HasTeam(db.teams, c.team1) || info1.img != "" then info1.img else DefaultLogo)
      {
        assert j < |teams1| && teams2[j] == teams1[j];
      }
    }
    forall j | |db.teams| <= j < |teams2|
      ensures && (teams2[j].name == c.team1 || teams2[j].name == c.team2)
              && !HasTeam(db.teams, teams2[j].name)
              && teams2[j].establishedYear == 2008
              && teams2[j].shortName == ShortNameFor(teams2[j].name, InfoFor(c.teamInfo, teams2[j].name))
    {
      if j < |teams1| {
        assert teams2[j].(logoUrl := teams1[j].logoUrl) == teams1[j];
      }
    }
  }

  /**
   * The match phase keeps the schema's constraints and touches only the match
   * table; a stored id is updated in place, and a create succeeds exactly when
   * both re-normalized keys name stored teams. A failed create writes nothing.
   */
  lemma WriteMatchSpec(db: Tables, c: CricketMatch, parseDate: string -> Option<int>, now: int)
    requires TablesValid(db)
    ensures var (db', o) := WriteMatch(db, c, parseDate, now);
      && TablesValid(db')
      && db'.teams == db.teams && db'.nextId == db.nextId
      && db'.users == db.users && db'.participations == db.participations
      && MatchesExtend(db.matches, db'.matches)
      && (HasMatch(db.matches, c.id) ==> o.Synced? && |db'.matches| == |db.matches|)
      && (HasTeam(db.teams, Renormalize(c.team1)) && HasTeam(db.teams, Renormalize(c.team2)) ==> o.Synced?)
      && (o.Synced? ==> o.row.id == c.id && HasMatch(db'.matches, c.id))
      && (!HasMatch(db.matches, c.id) ==>
            (o.Synced? <==> HasTeam(db.teams, Renormalize(c.team1)) && HasTeam(db.teams, Renormalize(c.team2))))
      && (o.Failed? ==> db' == db)
  {
    var winnerId := WinnerId(db.teams, c.result);
    match MatchWithId(db.matches, c.id)
    case Some(i) =>
      var row := UpdatedRow(db.matches[i], c, winnerId);
      UpdateKeepsMatchesValid(db.matches, i, row);
      assert db.matches[i := row][i].id == c.id;
    case None =>
      match (TeamNamed(db.teams, Renormalize(c.team1)), TeamNamed(db.teams, Renormalize(c.team2)))
      case (Some(h), Some(a)) =>
        var row := CreatedRow(c, db.teams[h].id, db.teams[a].id, winnerId, parseDate, now);
        AppendKeepsMatchesValid(db.matches, row);
        assert (db.matches + [row])[|db.matches|].id == c.id;
      case _ =>
  }

  /**
   * The row a successful create appends: the record's id and number, season
   * 2025, the kick-off (or now), the teams named by the re-normalized keys as
   * home and away, completion from the status, not live, no venue, the winner
   * looked up by exact name, and the record's margins.
   */
  lemma WriteMatchCreate(db: Tables, c: CricketMatch, parseDate: string -> Option<int>, now: int)
    requires !HasMatch(db.matches, c.id)
    requires HasTeam(db.teams, Renormalize(c.team1)) && HasTeam(db.teams, Renormalize(c.team2))
    ensures var (db', o) := WriteMatch(db, c, parseDate, now);
      && o.Synced? && db'.matches == db.matches + [o.row]
      && o.row.id == c.id && o.row.matchNumber == c.matchNumber && o.row.season == 2025
      && o.row.matchDate == KickoffOrNow(c.dateTimeGMT, parseDate, now)
      && (exists h :: 0 <= h < |db.teams| && db.teams[h].name == Renormalize(c.team1) && db.teams[h].id == o.row.homeTeamId)
      && (exists a :: 0 <= a < |db.teams| && db.teams[a].name == Renormalize(c.team2) && db.teams[a].id == o.row.awayTeamId)
      && o.row.isCompleted == (c.status == Completed) && !o.row.isLive && o.row.venue == None
      && o.row.winningTeamId == WinnerId(db.teams, c.result)
      && o.row.winByRuns == (if c.result.Some? then c.result.value.winByRuns else None)
      && o.row.winByWickets == (if c.result.Some? then Some(c.result.value.winByWickets) else None)
  {
    var h := TeamNamed(db.teams, Renormalize(c.team1)).value;
    var a := TeamNamed(db.teams, Renormalize(c.team2)).value;
    var (db', o) := WriteMatch(db, c, parseDate, now);
    assert o.row.homeTeamId == db.teams[h].id && o.row.awayTeamId == db.teams[a].id;
  }

  /** A record step keeps the schema's constraints and never drops or renames a row. */
  lemma SyncRecordValid(db: Tables, c: CricketMatch, parseDate: string -> Option<int>, now: int)
    requires TablesValid(db)
    ensures var (db', _) := SyncRecord(db, c, parseDate, now);
      && TablesValid(db')
      && TeamsExtend(db.teams, db'.teams)
      && MatchesExtend(db.matches, db'.matches)
      && db'.users == db.users && db'.participations == db.participations
      && db.nextId <= db'.nextId
  {
    if |c.teamInfo| >= 2 {
      UpsertRecordTeamsSpec(db, c);
      WriteMatchSpec(UpsertRecordTeams(db, c), c, parseDate, now);
    }
  }

  /** The loop's step: one more record folds one more `SyncRecord` onto the prefix. */
  lemma SyncAllSnoc(db: Tables, cs: seq<CricketMatch>, i: nat, parseDate: string -> Option<int>, now: int)
    requires i < |cs|
    ensures var (db1, done, failed) := SyncAll(db, cs[..i], parseDate, now);
      var (db2, o) := SyncRecord(db1, cs[i], parseDate, now);
      SyncAll(db, cs[..i + 1], parseDate, now)
        == (db2, if o.Synced? then done + [o.row] else done, if o.Failed? then failed + [o.matchId] else failed)
  {
    assert cs[..i + 1][..i] == cs[..i];
  }

  /** Every column of `a` except the four the match update writes equals the same column of `b`. */
  predicate SameExceptResult(a: Match, b: Match) {
    a.(isCompleted := b.isCompleted, winningTeamId := b.winningTeamId,
       winByRuns := b.winByRuns, winByWickets := b.winByWickets) == b
  }

  /**
   * Re-syncing a record whose id is already stored adds no match row and rewrites
   * only that row's completion, winner and margins; every other row is untouched.
   * A winner name no team carries leaves the stored winner as it was.
   */
  lemma SyncRecordUpdate(db: Tables, c: CricketMatch, parseDate: string -> Option<int>, now: int)
    requires TablesValid(db) && |c.teamInfo| >= 2 && HasMatch(db.matches, c.id)
    ensures var (db', o) := SyncRecord(db, c, parseDate, now);
      && o.Synced? && o.row.id == c.id
      && |db'.matches| == |db.matches|
      && (forall j :: 0 <= j < |db.matches| && db.matches[j].id != c.id ==> db'.matches[j] == db.matches[j])
      && (forall j :: 0 <= j < |db.matches| && db.matches[j].id == c.id ==>
            && db'.matches[j] == o.row
            && SameExceptResult(db.matches[j], o.row)
            && o.row.isCompleted == (c.status == Completed)
            && o.row.winningTeamId == (if WinnerId(db'.teams, c.result).Some? then WinnerId(db'.teams, c.result)
                                       else db.matches[j].winningTeamId)
            && o.row.winByRuns == (if c.result.Some? && c.result.value.winByRuns.Some? then c.result.value.winByRuns
                                   else db.matches[j].winByRuns)
            && o.row.winByWickets == (if c.result.Some? then Some(c.result.value.winByWickets)
                                      else db.matches[j].winByWickets)
            && (c.result.None? ==> o.row.winningTeamId == db.matches[j].winningTeamId)
            && (c.result.Some? && (forall t :: 0 <= t < |db'.teams| ==> db'.teams[t].name != c.result.value.winner) ==>
                  o.row.winningTeamId == db.matches[j].winningTeamId))
  {
    var t := UpsertRecordTeams(db, c);
    UpsertRecordTeamsSpec(db, c);
    var i := MatchWithId(t.matches, c.id).value;
    forall j | 0 <= j < |db.matches| && db.matches[j].id == c.id
      ensures j == i
    {
      MatchIdUnique(db.matches, i, j);
    }
  }

  /** Whether the store already holds the record's two teams and its match. */
  ghost predicate Known(db: Tables, c: CricketMatch) {
    HasTeam(db.teams, c.team1) && HasTeam(db.teams, c.team2) && HasMatch(db.matches, c.id)
  }

  lemma KnownPersists(db: Tables, db': Tables, c: CricketMatch)
    requires Known(db, c)
    requires TeamsExtend(db.teams, db'.teams) && MatchesExtend(db.matches, db'.matches)
    ensures Known(db', c)
  {
    var a :| 0 <= a < |db.teams| && db.teams[a].name == c.team1;
    var b :| 0 <= b < |db.teams| && db.teams[b].name == c.team2;
    var m :| 0 <= m < |db.matches| && db.matches[m].id == c.id;
    assert db'.teams[a].name == c.team1 && db'.teams[b].name == c.team2;
    assert db'.matches[m].id == c.id;
  }

  /**
   * A mapped record never fails: its keys are already normalized, so the connect
   * step finds the rows the upserts wrote, and afterwards both teams and the match
   * are stored.
   */
  lemma SyncRecordWellFormed(db: Tables, c: CricketMatch, parseDate: string -> Option<int>, now: int)
    requires TablesValid(db) && WellFormed(c)
    ensures var (db', o) := SyncRecord(db, c, parseDate, now);
      o.Synced? && o.row.id == c.id && Known(db', c)
  {
    var t := UpsertRecordTeams(db, c);
    UpsertRecordTeamsSpec(db, c);
    RenormalizeKey(c.team1);
    RenormalizeKey(c.team2);
    WriteMatchSpec(t, c, parseDate, now);
    var (db', o) := WriteMatch(t, c, parseDate, now);
    assert SyncRecord(db, c, parseDate, now) == (db', o);
    assert db'.teams == t.teams && o.Synced?;
  }

  /** A record whose teams and match are already stored adds no row to either table. */
  lemma SyncRecordKnown(db: Tables, c: CricketMatch, parseDate: string -> Option<int>, now: int)
    requires TablesValid(db) && Known(db, c)
    ensures var (db', _) := SyncRecord(db, c, parseDate, now);
      |db'.teams| == |db.teams| && |db'.matches| == |db.matches|
  {
    if |c.teamInfo| >= 2 {
      UpsertRecordTeamsSpec(db, c);
      WriteMatchSpec(UpsertRecordTeams(db, c), c, parseDate, now);
    }
  }

  /** The loop keeps the schema's constraints, only appends rows, and accounts for every record. */
  lemma {:induction false} SyncAllValid(db: Tables, cs: seq<CricketMatch>, parseDate: string -> Option<int>, now: int)
    requires TablesValid(db)
    ensures var (db', done, failed) := SyncAll(db, cs, parseDate, now);
      && TablesValid(db')
      && TeamsExtend(db.teams, db'.teams) && MatchesExtend(db.matches, db'.matches)
      && db'.users == db.users && db'.participations == db.participations
      && |done| + |failed| == |cs|
    decreases |cs|
  {
    if cs != [] {
      var (db1, done1, failed1) := SyncAll(db, cs[..|cs| - 1], parseDate, now);
      SyncAllValid(db, cs[..|cs| - 1], parseDate, now);
      SyncRecordValid(db1, cs[|cs| - 1], parseDate, now);
    }
  }

  /**
   * Over mapped records the loop never skips one: the returned list holds one row
   * per record, in input order, with the record's id, and every record's teams
   * and match are stored afterwards.
   */
  lemma {:induction false} SyncAllWellFormed(db: Tables, cs: seq<CricketMatch>, parseDate: string -> Option<int>, now: int)
    requires TablesValid(db)
    requires forall i :: 0 <= i < |cs| ==> WellFormed(cs[i])
    ensures var (db', done, failed) := SyncAll(db, cs, parseDate, now);
      && failed == [] && |done| == |cs|
      && (forall i :: 0 <= i < |cs| ==> done[i].id == cs[i].id)
      && (forall i :: 0 <= i < |cs| ==> Known(db', cs[i]))
    decreases |cs|
  {
    if cs != [] {
      var prefix := cs[..|cs| - 1];
      var last := cs[|cs| - 1];
      assert cs == prefix + [last];
      forall i | 0 <= i < |prefix|
        ensures WellFormed(prefix[i])
      {
        assert prefix[i] == cs[i];
      }
      var (db1, done1, failed1) := SyncAll(db, prefix, parseDate, now);
      SyncAllWellFormed(db, prefix, parseDate, now);
      SyncAllValid(db, prefix, parseDate, now);
      WellFormedStep(db1, done1, prefix, last, parseDate, now);
      SyncAllLast(db, cs, parseDate, now);
    }
  }

  /** The last record of a run is folded onto the run over the others. */
  lemma SyncAllLast(db: Tables, cs: seq<CricketMatch>, parseDate: string -> Option<int>, now: int)
    requires cs != []
    ensures var (db1, done1, failed1) := SyncAll(db, cs[..|cs| - 1], parseDate, now);
      var (db2, o) := SyncRecord(db1, cs[|cs| - 1], parseDate, now);
      o.Synced? ==> SyncAll(db, cs, parseDate, now) == (db2, done1 + [o.row], failed1)
  {
  }

  /** One more mapped record after a run that wrote every earlier one. */
  lemma WellFormedStep(db1: Tables, done1: seq<Match>, prefix: seq<CricketMatch>, last: CricketMatch,
                       parseDate: string -> Option<int>, now: int)
    requires TablesValid(db1) && WellFormed(last) && |done1| == |prefix|
    requires forall i :: 0 <= i < |prefix| ==> done1[i].id == prefix[i].id && Known(db1, prefix[i])
    ensures var (db2, o) := SyncRecord(db1, last, parseDate, now);
      && o.Synced?
      && var cs, done := prefix + [last], done1 + [o.row];
         forall i :: 0 <= i < |cs| ==> done[i].id == cs[i].id && Known(db2, cs[i])
  {
    SyncRecordValid(db1, last, parseDate, now);
    SyncRecordWellFormed(db1, last, parseDate, now);
    var (db2, o) := SyncRecord(db1, last, parseDate, now);
    var cs, done := prefix + [last], done1 + [o.row];
    forall i | 0 <= i < |cs|
      ensures done[i].id == cs[i].id && Known(db2, cs[i])
    {
      if i < |prefix| {
        KnownPersists(db1, db2, prefix[i]);
      }
    }
  }

  /** A loop over records that are all already stored adds no team and no match. */
  lemma {:induction false} SyncAllKnown(db: Tables, cs: seq<CricketMatch>, parseDate: string -> Option<int>, now: int)
    requires TablesValid(db)
    requires forall i :: 0 <= i < |cs| ==> Known(db, cs[i])
    ensures var (db', _, _) := SyncAll(db, cs, parseDate, now);
      |db'.teams| == |db.teams| && |db'.matches| == |db.matches|
    decreases |cs|
  {
    if cs != [] {
      var prefix := cs[..|cs| - 1];
      var last := cs[|cs| - 1];
      var (db1, _, _) := SyncAll(db, prefix, parseDate, now);
      assert forall i :: 0 <= i < |prefix| ==> prefix[i] == cs[i];
      SyncAllKnown(db, prefix, parseDate, now);
      SyncAllValid(db, prefix, parseDate, now);
      KnownPersists(db, db1, last);
      SyncRecordKnown(db1, last, parseDate, now);
    }
  }

  /**
   * For a listing that maps, the batch validation fails exactly when some record
   * has an empty id (the team keys are never empty); otherwise one row per record
   * is returned, in order.
   */
  lemma SyncSpecFetched(db: Tables, data: seq<ApiMatch>, parseDate: string -> Option<int>, now: int)
    requires TablesValid(db) && FetchLiveMatches(Listing(data)).Ok?
    ensures var (db', r) := SyncSpec(db, Listing(data), parseDate, now);
      && (r.Ok? <==> forall i :: 0 <= i < |data| ==> data[i].id != "")
      && (r.Err? ==> r.error == InvalidMatchData && db' == db)
      && (r.Ok? ==> |r.value| == |data| && forall i :: 0 <= i < |data| ==> r.value[i].id == data[i].id)
  {
    var cs := FetchLiveMatches(Listing(data)).value;
    FetchKeepsEveryRecord(data);
    IdentifiedByIds(data);
    if AllIdentified(cs) {
      SyncAllWellFormed(db, cs, parseDate, now);
    }
  }

  /** Mapped team keys are never empty, so the batch check reduces to the upstream ids. */
  lemma IdentifiedByIds(data: seq<ApiMatch>)
    requires FetchLiveMatches(Listing(data)).Ok?
    ensures AllIdentified(FetchLiveMatches(Listing(data)).value) <==> forall i :: 0 <= i < |data| ==> data[i].id != ""
  {
    var cs := FetchLiveMatches(Listing(data)).value;
    FetchKeepsEveryRecord(data);
    assert forall i :: 0 <= i < |cs| ==> cs[i].team1 != "" && cs[i].team2 != "" && cs[i].id == data[i].id;
  }

  /**
   * Running the sync twice on the same listing: the second run adds no team and
   * no match, because both upserts are keyed.
   */
  lemma ResyncAddsNoRows(db: Tables, listing: Listing, parseDate: string -> Option<int>, now: int)
    requires TablesValid(db)
    ensures var (db1, _) := SyncSpec(db, listing, parseDate, now);
      var (db2, _) := SyncSpec(db1, listing, parseDate, now);
      |db2.teams| == |db1.teams| && |db2.matches| == |db1.matches|
  {
    match FetchLiveMatches(listing)
    case Err(_) =>
    case Ok(cs) =>
      if AllIdentified(cs) {
        FetchKeepsEveryRecord(listing.data);
        SyncAllWellFormed(db, cs, parseDate, now);
        SyncAllValid(db, cs, parseDate, now);
        var (db1, _, _) := SyncAll(db, cs, parseDate, now);
        SyncAllKnown(db1, cs, parseDate, now);
      }
  }
}
