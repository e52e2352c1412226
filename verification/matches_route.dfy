/**
 * `GET /api/matches`: the current season's fixtures in date order, each with its
 * teams and, for a signed-in user, that user's own points and rank, split into
 * "current and upcoming" and "completed" lists.
 */
module MatchesRoute {
  import opened Wrappers
  import opened Collections
  import opened Store

  const CurrentSeason := 2025

  /** `select: { points: true, rank: true }` */
  datatype Score = Score(points: int, rank: Option<int>)

  /** One fixture as returned: the row, its three team relations, and the scores (absent without a session). */
  datatype MatchView = MatchView(
    row: Match,
    homeTeam: Option<Team>,
    awayTeam: Option<Team>,
    winningTeam: Option<Team>,
    participations: Option<seq<Score>>)

  datatype MatchesResponse = MatchesResponse(currentAndUpcomingMatches: seq<MatchView>, completedMatches: seq<MatchView>)

  predicate InSeason(m: Match) {
    m.season == CurrentSeason
  }

  /** `orderBy: { matchDate: 'asc' }` as a strict "goes before". */
  predicate EarlierDate(a: Match, b: Match) {
    a.matchDate < b.matchDate
  }

  predicate EarlierView(a: MatchView, b: MatchView) {
    EarlierDate(a.row, b.row)
  }

  /** The season's rows in ascending date; rows with equal dates keep table order. */
  function SeasonMatches(matches: seq<Match>): seq<Match> {
    SortBy(Filter(matches, InSeason), EarlierDate)
  }

  function TeamWithId(teams: seq<Team>, id: nat): (r: Option<Team>)
    ensures r.Some? ==> r.value in teams && r.value.id == id
    ensures r.None? ==> forall j :: 0 <= j < |teams| ==> teams[j].id != id
  {
    match FindFirst(teams, (t: Team) => t.id == id)
    case Some(i) => Some(teams[i])
    case None => None
  }

  /** The rows of one (user, match) pair. */
  function PairIs(userId: nat, matchId: string): Participation -> bool {
    (p: Participation) => p.userId == userId && p.matchId == matchId
  }

  /** `participations: { where: { userId } }` for one match, in table order. */
  function ScoresFor(ps: seq<Participation>, matchId: string, userId: nat): seq<Score> {
    var mine := Filter(ps, PairIs(userId, matchId));
    seq(|mine|, k requires 0 <= k < |mine| => Score(mine[k].points, mine[k].rank))
  }

  function View(db: Tables, m: Match, session: Option<nat>): MatchView {
    MatchView(
      m,
      TeamWithId(db.teams, m.homeTeamId),
      TeamWithId(db.teams, m.awayTeamId),
      if m.winningTeamId.Some? then TeamWithId(db.teams, m.winningTeamId.value) else None,
      if session.Some? then Some(ScoresFor(db.participations, m.id, session.value)) else None)
  }

  /** The `findMany` result: one view per season row, in date order. */
  function Views(db: Tables, session: Option<nat>): (vs: seq<MatchView>)
    ensures |vs| == |SeasonMatches(db.matches)|
    ensures forall k :: 0 <= k < |vs| ==> vs[k] == View(db, SeasonMatches(db.matches)[k], session)
  {
    var ms := SeasonMatches(db.matches);
    seq(|ms|, k requires 0 <= k < |ms| => View(db, ms[k], session))
  }

  /** `new Date(match.matchDate) < now && match.isCompleted` */
  function IsPast(now: int): MatchView -> bool {
    (v: MatchView) => v.row.matchDate < now && v.row.isCompleted
  }

  /** `new Date(match.matchDate) >= now || !match.isCompleted` */
  function IsCurrent(now: int): MatchView -> bool {
    (v: MatchView) => v.row.matchDate >= now || !v.row.isCompleted
  }

  /** The handler; `session` is the signed-in user's id and `now` the request time. */
  function MatchesGet(db: Tables, session: Option<nat>, now: int): MatchesResponse {
    var vs := Views(db, session);
    MatchesResponse(Filter(vs, IsCurrent(now)), Filter(vs, IsPast(now)))
  }

  // ---------------------------------------------------------------------------
  // Properties

  lemma EarlierDateStrict()
    ensures StrictOrder(EarlierDate)
  {
  }

  /** Only season-2025 rows are listed, each exactly once, in ascending date. */
  lemma SeasonInDateOrder(matches: seq<Match>)
    ensures multiset(SeasonMatches(matches)) == multiset(Filter(matches, InSeason))
    ensures forall m :: m in SeasonMatches(matches) <==> m in matches && m.season == CurrentSeason
    ensures forall i, j :: 0 <= i < j < |SeasonMatches(matches)| ==>
      SeasonMatches(matches)[i].matchDate <= SeasonMatches(matches)[j].matchDate
  {
    EarlierDateStrict();
    SortBySorted(Filter(matches, InSeason), EarlierDate);
    var ms := SeasonMatches(matches);
    forall m
      ensures m in ms <==> m in matches && m.season == CurrentSeason
    {
      calc {
        m in ms;
        m in multiset(ms);
        m in multiset(Filter(matches, InSeason));
        m in Filter(matches, InSeason);
      }
    }
  }

  /** The two lists split the season: every fixture is in exactly one of them. */
  lemma ListsPartition(db: Tables, session: Option<nat>, now: int)
    ensures var r := MatchesGet(db, session, now);
      && multiset(r.currentAndUpcomingMatches) + multiset(r.completedMatches) == multiset(Views(db, session))
      && (forall v :: v in r.currentAndUpcomingMatches ==> v !in r.completedMatches)
  {
    FilterPartition(Views(db, session), IsPast(now), IsCurrent(now));
  }

  /** Both lists keep the ascending date order. */
  lemma ListsInDateOrder(db: Tables, session: Option<nat>, now: int)
    ensures var r := MatchesGet(db, session, now);
      && SortedBy(r.currentAndUpcomingMatches, EarlierView)
      && SortedBy(r.completedMatches, EarlierView)
  {
    SeasonInDateOrder(db.matches);
    var vs := Views(db, session);
    assert SortedBy(vs, EarlierView);
    FilterSorted(vs, IsCurrent(now), EarlierView);
    FilterSorted(vs, IsPast(now), EarlierView);
  }

  /**
   * Where a fixture lands: a completed fixture dated in the future is still
   * listed as current, and a fixture is listed as completed exactly when it is
   * completed and dated before now.
   */
  lemma Classification(db: Tables, session: Option<nat>, now: int, k: nat)
    requires k < |Views(db, session)|
    ensures var r, v := MatchesGet(db, session, now), Views(db, session)[k];
      && (v in r.completedMatches <==> v.row.matchDate < now && v.row.isCompleted)
      && (v in r.currentAndUpcomingMatches <==> v.row.matchDate >= now || !v.row.isCompleted)
  {
    var v := Views(db, session)[k];
    assert v in Views(db, session);
  }

  /**
   * Scores appear only with a session, and then only the session user's own, at
   * most one per fixture because a user records a match once.
   */
  lemma ScoresAreTheSessionUsers(db: Tables, session: Option<nat>, k: nat)
    requires TablesValid(db) && k < |Views(db, session)|
    ensures var v := Views(db, session)[k];
      && (session.None? <==> v.participations.None?)
      && (session.Some? ==>
            && |v.participations.value| <= 1
            && (forall s :: s in v.participations.value <==>
                  exists p :: p in db.participations && p.userId == session.value && p.matchId == v.row.id
                              && s == Score(p.points, p.rank)))
  {
    var v := Views(db, session)[k];
    if session.Some? {
      ScoresForSpec(db.participations, v.row.id, session.value);
      AtMostOneRow(db.participations, db.nextId, session.value, v.row.id);
    }
  }

  /** The scores of a match are those of the user's rows for it, one per row. */
  lemma ScoresForSpec(ps: seq<Participation>, matchId: string, userId: nat)
    ensures |ScoresFor(ps, matchId, userId)| == |Filter(ps, PairIs(userId, matchId))|
    ensures forall s :: s in ScoresFor(ps, matchId, userId) <==>
      exists p :: p in ps && p.userId == userId && p.matchId == matchId && s == Score(p.points, p.rank)
  {
    var mine := Filter(ps, PairIs(userId, matchId));
    var scores := ScoresFor(ps, matchId, userId);
    forall s
      ensures s in scores <==> exists p :: p in ps && p.userId == userId && p.matchId == matchId
                                          && s == Score(p.points, p.rank)
    {
      if s in scores {
        var i :| 0 <= i < |scores| && scores[i] == s;
        assert mine[i] in mine;
      }
      if exists p :: p in ps && p.userId == userId && p.matchId == matchId && s == Score(p.points, p.rank) {
        var p :| p in ps && p.userId == userId && p.matchId == matchId && s == Score(p.points, p.rank);
        assert p in mine;
        var i :| 0 <= i < |mine| && mine[i] == p;
        assert scores[i] == s;
      }
    }
  }

  /** A valid participation table holds at most one row for a (user, match) pair. */
  lemma {:induction false} AtMostOneRow(ps: seq<Participation>, n: nat, userId: nat, matchId: string)
    requires ParticipationsValid(ps, n)
    ensures |Filter(ps, PairIs(userId, matchId))| <= 1
    decreases |ps|
  {
    if ps != [] {
      var p := PairIs(userId, matchId);
      if p(ps[0]) {
        forall k | 0 <= k < |ps[1..]|
          ensures !p(ps[1..][k])
        {
          assert ps[1..][k] == ps[k + 1];
        }
        FilterEmpty(ps[1..], p);
      } else {
        AtMostOneRow(ps[1..], n, userId, matchId);
      }
    }
  }
}
