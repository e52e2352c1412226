/**
 * The second reconciliation engine (src/app/api/sync-matches/route.ts, `GET`):
 * walks the series' match list, finds or creates both teams by name or short
 * name, derives the match number, the status flags, the winner and the margin
 * from text, and upserts the match keyed by (matchNumber, season). There is no
 * transaction: an exception stops the loop and keeps every earlier write.
 */
module SeriesSync {
  import opened Wrappers
  import opened Collections
  import opened Text
  import opened Store

  const Season := 2025
  const DefaultEstablishedYear := 2008

  /** An entry of the upstream `matchList`; absent strings are `""`, absent lists `[]`. */
  datatype Entry = Entry(
    id: string,
    name: string,
    teams: seq<string>,
    matchStarted: Option<bool>,
    matchEnded: Option<bool>,
    status: string,
    venue: Option<string>,
    dateTimeGMT: string)

  /** The series listing, or the message of the error thrown while fetching it. */
  datatype Feed = MatchList(entries: seq<Entry>) | FeedFailed(reason: string)

  // ---------------------------------------------------------------------------
  // Match number: `name.match(/(\d+)(st|nd|rd|th) Match/)`

  predicate OrdinalSuffixAt(s: string, e: nat)
    requires e <= |s|
  {
    var rest := s[e..];
    StartsWith(rest, "st Match") || StartsWith(rest, "nd Match")
    || StartsWith(rest, "rd Match") || StartsWith(rest, "th Match")
  }

  /** The pattern matches at `p`: a digit run starts there and the suffix follows its end. */
  predicate OrdinalAt(s: string, p: nat) {
    p < |s| && IsDigit(s[p]) && OrdinalSuffixAt(s, DigitRunEnd(s, p))
  }

  /** The captured digits of a match at `p`, read in base 10. */
  function OrdinalValue(s: string, p: nat): nat
    requires p <= |s|
  {
    var e := DigitRunEnd(s, p);
    assert forall k :: 0 <= k < e - p ==> s[p..e][k] == s[p + k];
    DigitsValue(s[p..e])
  }

  /** Every position inside a digit run has the same run end. */
  lemma RunSharesEnd(s: string, i: nat)
    requires i <= |s|
    ensures forall q :: i <= q < DigitRunEnd(s, i) ==> DigitRunEnd(s, q) == DigitRunEnd(s, i)
  {
    var e := DigitRunEnd(s, i);
    forall q | i <= q < e
      ensures DigitRunEnd(s, q) == e
    {
      DigitRunEndIs(s, q, e);
    }
  }

  /**
   * The leftmost match at or after `i`. A run whose end is not followed by the
   * suffix is skipped whole, since every position inside it reaches the same end.
   */
  function OrdinalFrom(s: string, i: nat): (r: Option<nat>)
    requires i <= |s|
    ensures r.Some? ==> i <= r.value < |s| && OrdinalAt(s, r.value)
    ensures r.Some? ==> forall q :: i <= q < r.value ==> !OrdinalAt(s, q)
    ensures r.None? ==> forall q :: i <= q < |s| ==> !OrdinalAt(s, q)
    decreases |s| - i
  {
    if i == |s| then None
    else if !IsDigit(s[i]) then OrdinalFrom(s, i + 1)
    else if OrdinalSuffixAt(s, DigitRunEnd(s, i)) then Some(i)
    else
      RunSharesEnd(s, i);
      OrdinalFrom(s, DigitRunEnd(s, i))
  }

  /** `matchNumberMatch ? parseInt(matchNumberMatch[1], 10) : 0` */
  function OrdinalNumber(name: string): nat {
    match OrdinalFrom(name, 0)
    case Some(p) => OrdinalValue(name, p)
    case None => 0
  }

  /** The number is read at the leftmost match of the pattern, and is 0 when the pattern never matches. */
  lemma OrdinalNumberSpec(name: string)
    ensures (forall q :: 0 <= q < |name| ==> !OrdinalAt(name, q)) ==> OrdinalNumber(name) == 0
    ensures forall p :: 0 <= p < |name| && OrdinalAt(name, p) && (forall q :: 0 <= q < p ==> !OrdinalAt(name, q))
              ==> OrdinalNumber(name) == OrdinalValue(name, p)
  {
    match OrdinalFrom(name, 0)
    case Some(r) =>
      assert OrdinalAt(name, r);
    case None =>
  }

  /** "3rd Match" carries number 3; a name without the pattern carries 0. */
  lemma OrdinalNumberExamples()
    ensures OrdinalNumber("3rd Match") == 3
    ensures OrdinalNumber("Final") == 0
  {
    var s := "3rd Match";
    assert DigitRunEnd(s, 1) == 1;
    assert DigitRunEnd(s, 0) == 1;
    assert s[1..] == "rd Match";
    assert s[0..1] == "3";
    assert DigitsValue("3") == 3 by {
      assert "3"[..0] == [];
    }
    var f := "Final";
    assert forall q :: 0 <= q < |f| ==> !IsDigit(f[q]);
    OrdinalNumberSpec(f);
  }

  // ---------------------------------------------------------------------------
  // Margins: `status.match(/won by (\d+) <unit>s?/i)`

  /** The pattern matches at `p` of the lower-cased status `t`: "won by ", digits, then " " and the unit. */
  predicate MarginAt(t: string, unit: string, p: nat) {
    && p + 7 <= |t| && t[p..p + 7] == "won by "
    && var e := DigitRunEnd(t, p + 7);
       e > p + 7 && StartsWith(t[e..], " " + unit)
  }

  /** The leftmost position at or after `p` where the margin pattern matches. */
  function FirstMarginAt(t: string, unit: string, p: nat): (r: Option<nat>)
    requires p <= |t|
    ensures r.Some? ==> p <= r.value < |t| && MarginAt(t, unit, r.value)
    ensures r.Some? ==> forall q :: p <= q < r.value ==> !MarginAt(t, unit, q)
    ensures r.None? <==> forall q :: p <= q < |t| ==> !MarginAt(t, unit, q)
    decreases |t| - p
  {
    if p == |t| then None
    else if MarginAt(t, unit, p) then Some(p)
    else FirstMarginAt(t, unit, p + 1)
  }

  /** The captured digits `(\d+)` of a match at `p`, read in base 10. */
  function MarginValue(t: string, p: nat): nat
    requires p + 7 <= |t|
  {
    var digits := t[p + 7..DigitRunEnd(t, p + 7)];
    assert forall k :: 0 <= k < |digits| ==> digits[k] == t[p + 7 + k];
    DigitsValue(digits)
  }

  /** The captured number of the leftmost match, compared case-insensitively (ASCII). */
  function Margin(status: string, unit: string): (r: Option<nat>)
    ensures r.None? <==> forall q :: 0 <= q < |status| ==> !MarginAt(ToLower(status), unit, q)
    ensures forall p :: 0 <= p < |status| && MarginAt(ToLower(status), unit, p)
                          && (forall q :: 0 <= q < p ==> !MarginAt(ToLower(status), unit, q))
                        ==> r == Some(MarginValue(ToLower(status), p))
  {
    var t := ToLower(status);
    match FirstMarginAt(t, unit, 0)
    case Some(p) =>
      LeftmostMarginUnique(t, unit, p);
      Some(MarginValue(t, p))
    case None => None
  }

  /** Two leftmost matches are the same match. */
  lemma LeftmostMarginUnique(t: string, unit: string, p: nat)
    requires p < |t| && MarginAt(t, unit, p) && forall q :: 0 <= q < p ==> !MarginAt(t, unit, q)
    ensures forall p' :: 0 <= p' < |t| && MarginAt(t, unit, p') && (forall q :: 0 <= q < p' ==> !MarginAt(t, unit, q))
                         ==> p' == p
  {
  }

  /** "won by 23 runs" carries a 23-run margin. */
  lemma RunsMarginExample()
    ensures RunsMargin("won by 23 runs") == Some(23)
  {
    var s := ToLower("won by 23 runs");
    assert s == "won by 23 runs";
    DigitRunEndIs(s, 7, 9);
    assert s[0..7] == "won by " && s[9..] == " runs";
    assert MarginAt(s, "run", 0);
    assert s[7..9] == "23";
    assert DigitsValue("23") == 23 by {
      assert "23"[..1] == "2" && "2"[..0] == [];
    }
  }

  /** "Won by 4 wkts" carries a 4-wicket margin, matched case-insensitively. */
  lemma WicketsMarginExample()
    ensures WicketsMargin("Won by 4 wkts") == Some(4)
  {
    var w := "Won by 4 wkts";
    var t := ToLower(w);
    assert t == "won by 4 wkts";
    DigitRunEndIs(t, 7, 8);
    assert t[0..7] == "won by " && t[8..] == " wkts";
    assert MarginAt(t, "wkt", 0);
    assert t[7..8] == "4";
    assert DigitsValue("4") == 4 by {
      assert "4"[..0] == [];
    }
  }

  /** `runWinMatch` */
  function RunsMargin(status: string): Option<nat> {
    Margin(status, "run")
  }

  /** `wicketWinMatch`: the `wkts?` pattern, else the `wickets?` pattern. */
  function WicketsMargin(status: string): Option<nat> {
    if Margin(status, "wkt").Some? then Margin(status, "wkt") else Margin(status, "wicket")
  }

  // ---------------------------------------------------------------------------
  // Teams: `findOrCreateTeam`

  predicate NonEmpty(w: string) {
    w != ""
  }

  /** The first character of each word: `map(word => word[0]).join('')`, where an empty word contributes nothing. */
  function Initials(words: seq<string>): (r: string)
    ensures |r| == |Filter(words, NonEmpty)|
    ensures forall k :: 0 <= k < |r| ==> var w := Filter(words, NonEmpty)[k]; w != "" && r[k] == w[0]
    decreases |words|
  {
    if words == [] then ""
    else
      var rest := Initials(words[1..]);
      assert Filter(words, NonEmpty) == (if NonEmpty(words[0]) then [words[0]] else []) + Filter(words[1..], NonEmpty);
      if words[0] != "" then [words[0][0]] + rest else rest
  }

  function ShortNameFor(name: string): string {
    ToUpper(Initials(Split(name, ' ')))
  }

  predicate NameOrShort(t: Team, name: string) {
    t.name == name || t.shortName == name
  }

  /** `team.findFirst({ where: { OR: [{ name }, { shortName: name }] } })` */
  function FindTeam(teams: seq<Team>, name: string): (r: Option<nat>)
    ensures r.Some? ==> r.value < |teams| && NameOrShort(teams[r.value], name)
    ensures r.Some? ==> forall j :: 0 <= j < r.value ==> !NameOrShort(teams[j], name)
    ensures r.None? <==> forall j :: 0 <= j < |teams| ==> !NameOrShort(teams[j], name)
  {
    FindFirst(teams, (t: Team) => NameOrShort(t, name))
  }

  /** The table after the lookup-or-insert, the next id, and the team returned. */
  function FindOrCreateTeam(teams: seq<Team>, nextId: nat, name: string): (seq<Team>, nat, Team) {
    match FindTeam(teams, name)
    case Some(i) => (teams, nextId, teams[i])
    case None =>
      var created := Team(nextId, name, ShortNameFor(name), None, DefaultEstablishedYear);
      (teams + [created], nextId + 1, created)
  }

  ghost predicate TeamFound(teams: seq<Team>, name: string) {
    exists j :: 0 <= j < |teams| && NameOrShort(teams[j], name)
  }

  /**
   * An existing team whose name or short name equals the input is returned and
   * nothing is written; only when there is none is a team created, named by the
   * input, with its initials as short name, no logo and founding year 2008.
   */
  lemma FindOrCreateTeamSpec(teams: seq<Team>, nextId: nat, name: string)
    requires TeamsValid(teams, nextId)
    ensures var (t', n', team) := FindOrCreateTeam(teams, nextId, name);
      && TeamsValid(t', n') && |teams| <= |t'| && t'[..|teams|] == teams
      && NameOrShort(team, name) && team in t'
      && (TeamFound(teams, name) ==> t' == teams && n' == nextId && team in teams)
      && (!TeamFound(teams, name) ==>
            && team == Team(nextId, name, ToUpper(Initials(Split(name, ' '))), None, 2008)
            && t' == teams + [team] && n' == nextId + 1)
  {
    match FindTeam(teams, name)
    case Some(i) =>
      assert teams[..|teams|] == teams;
    case None =>
      var created := Team(nextId, name, ShortNameFor(name), None, DefaultEstablishedYear);
      TeamsAppend(teams, nextId, created);
      assert (teams + [created])[..|teams|] == teams;
      assert (teams + [created])[|teams|] == created;
  }

  /** A team with a fresh id and an unused name can be appended. */
  lemma TeamsAppend(teams: seq<Team>, nextId: nat, t: Team)
    requires TeamsValid(teams, nextId) && t.id == nextId
    requires forall j :: 0 <= j < |teams| ==> teams[j].name != t.name
    ensures TeamsValid(teams + [t], nextId + 1)
  {
  }

  /** A name found in a table is still found once the table has grown at its end. */
  lemma TeamFoundKept(teams: seq<Team>, teams': seq<Team>, name: string)
    requires |teams| <= |teams'| && teams'[..|teams|] == teams && TeamFound(teams, name)
    ensures TeamFound(teams', name)
  {
    var a :| 0 <= a < |teams| && NameOrShort(teams[a], name);
    assert teams'[a] == teams[a];
  }

  /** Replacing the teams table by a valid one with a larger counter keeps the store valid. */
  lemma TablesWithTeams(db: Tables, teams: seq<Team>, n: nat)
    requires TablesValid(db) && TeamsValid(teams, n) && db.nextId <= n
    ensures TablesValid(db.(teams := teams, nextId := n))
  {
    UsersValidMonotone(db.users, db.nextId, n);
    ParticipationsValidMonotone(db.participations, db.nextId, n);
  }

  // ---------------------------------------------------------------------------
  // Per-entry derivation

  /** `isCompleted = matchEnded === true` */
  function CompletedFlag(e: Entry): bool {
    e.matchEnded == Some(true)
  }

  /** `isLive = matchStarted === true && matchEnded === false`: never set together with completion. */
  function LiveFlag(e: Entry): (live: bool)
    ensures live ==> !CompletedFlag(e)
  {
    e.matchStarted == Some(true) && e.matchEnded == Some(false)
  }

  predicate Mentions(status: string, team: Team) {
    Contains(status, team.name) || Contains(status, team.shortName)
  }

  /** What `matchData` carries: `matchDate` is `None` for an invalid `Date`. */
  datatype MatchData = MatchData(
    matchNumber: nat,
    matchDate: Option<int>,
    homeTeamId: nat,
    awayTeamId: nat,
    isCompleted: bool,
    isLive: bool,
    venue: Option<string>,
    winningTeamId: Option<nat>,
    winByRuns: Option<int>,
    winByWickets: Option<int>)

  /** `new Date(apiMatch.dateTimeGMT)`; an absent value gives an invalid date. */
  function EntryDate(e: Entry, parseDate: string -> Option<int>): Option<int> {
    if e.dateTimeGMT == "" then None else parseDate(e.dateTimeGMT)
  }

  /** The winner and margins: home team first, runs before wickets, nothing unless completed with a status. */
  function Verdict(e: Entry, home: Team, away: Team): (Option<nat>, Option<int>, Option<int>) {
    if CompletedFlag(e) && e.status != "" then
      var winner := if Mentions(e.status, home) then Some(home.id)
                    else if Mentions(e.status, away) then Some(away.id)
                    else None;
      if winner.None? then (None, None, None)
      else if RunsMargin(e.status).Some? then (winner, Some(RunsMargin(e.status).value as int), None)
      else if WicketsMargin(e.status).Some? then (winner, None, Some(WicketsMargin(e.status).value as int))
      else (winner, None, None)
    else (None, None, None)
  }

  function Derive(e: Entry, home: Team, away: Team, parseDate: string -> Option<int>): MatchData {
    var (winner, runs, wickets) := Verdict(e, home, away);
    MatchData(OrdinalNumber(e.name), EntryDate(e, parseDate), home.id, away.id,
              CompletedFlag(e), LiveFlag(e), e.venue, winner, runs, wickets)
  }

  /**
   * The winner rule: a winner only for a completed match with a status, the home
   * team when it is mentioned (even if the away team is too), at most one margin,
   * runs taking priority, and never a margin without a winner.
   */
  lemma VerdictSpec(e: Entry, home: Team, away: Team)
    ensures var (winner, runs, wickets) := Verdict(e, home, away);
      && (winner.Some? <==> CompletedFlag(e) && e.status != "" && (Mentions(e.status, home) || Mentions(e.status, away)))
      && (winner.Some? && Mentions(e.status, home) ==> winner == Some(home.id))
      && (winner.Some? && !Mentions(e.status, home) ==> winner == Some(away.id))
      && (runs.Some? || wickets.Some? ==> winner.Some?)
      && !(runs.Some? && wickets.Some?)
      && (winner.Some? && RunsMargin(e.status).Some? ==> runs == Some(RunsMargin(e.status).value as int))
      && (winner.Some? && RunsMargin(e.status).None? ==>
            wickets == if WicketsMargin(e.status).Some? then Some(WicketsMargin(e.status).value as int) else None)
  {
  }

  // ---------------------------------------------------------------------------
  // Match upsert keyed by (matchNumber, season)

  /** `match.findFirst({ where: { matchNumber, season } })` */
  function NumberRow(matches: seq<Match>, n: nat): (r: Option<nat>)
    ensures r.Some? ==> r.value < |matches| && matches[r.value].matchNumber == n && matches[r.value].season == Season
    ensures r.Some? ==> forall j :: 0 <= j < r.value ==> !(matches[j].matchNumber == n && matches[j].season == Season)
    ensures r.None? <==> forall j :: 0 <= j < |matches| ==> !(matches[j].matchNumber == n && matches[j].season == Season)
  {
    FindFirst(matches, (m: Match) => m.matchNumber == n && m.season == Season)
  }

  /** `match.update({ data: matchData })`: `undefined` fields leave their column unchanged. */
  function Apply(row: Match, d: MatchData): Match
    requires d.matchDate.Some?
  {
    row.(matchNumber := d.matchNumber, season := Season, matchDate := d.matchDate.value,
         homeTeamId := d.homeTeamId, awayTeamId := d.awayTeamId,
         isCompleted := d.isCompleted, isLive := d.isLive,
         venue := if d.venue.Some? then d.venue else row.venue,
         winningTeamId := if d.winningTeamId.Some? then d.winningTeamId else row.winningTeamId,
         winByRuns := if d.winByRuns.Some? then d.winByRuns else row.winByRuns,
         winByWickets := if d.winByWickets.Some? then d.winByWickets else row.winByWickets)
  }

  /** `match.create({ data: matchData })` with a generated id. */
  function Create(id: string, d: MatchData): Match
    requires d.matchDate.Some?
  {
    Match(id, d.matchNumber, Season, d.matchDate.value, d.venue, d.homeTeamId, d.awayTeamId,
          d.isCompleted, d.isLive, d.winningTeamId, d.winByRuns, d.winByWickets)
  }

  function UpsertByNumber(matches: seq<Match>, d: MatchData): seq<Match>
    requires d.matchDate.Some?
  {
    match NumberRow(matches, d.matchNumber)
    case Some(i) => matches[i := Apply(matches[i], d)]
    case None => matches + [Create(FreshMatchId(matches), d)]
  }

  ghost predicate NumberFound(matches: seq<Match>, n: nat) {
    exists j :: 0 <= j < |matches| && matches[j].matchNumber == n && matches[j].season == Season
  }

  /** Rows keep their place, id, number and season; rows may be appended. */
  ghost predicate KeysKept(m: seq<Match>, m': seq<Match>) {
    && |m| <= |m'|
    && forall j :: 0 <= j < |m| ==>
         m'[j].id == m[j].id && m'[j].matchNumber == m[j].matchNumber && m'[j].season == m[j].season
  }

  /** Row `row` carries the columns `d` always defines. */
  ghost predicate CarriesDefined(row: Match, d: MatchData)
    requires d.matchDate.Some?
  {
    && row.matchNumber == d.matchNumber && row.season == Season && row.matchDate == d.matchDate.value
    && row.homeTeamId == d.homeTeamId && row.awayTeamId == d.awayTeamId
    && row.isCompleted == d.isCompleted && row.isLive == d.isLive
  }

  /**
   * The keyed upsert: when a season row with the number exists, the first one
   * (and no other row) is updated in place with every derived column, keeping its
   * id and every undefined column, and no row is added; otherwise one row with a
   * fresh id and exactly the derived columns is appended. Match ids stay distinct.
   */
  lemma UpsertByNumberSpec(matches: seq<Match>, d: MatchData)
    requires MatchesValid(matches) && d.matchDate.Some?
    ensures var m' := UpsertByNumber(matches, d);
      && MatchesValid(m') && KeysKept(matches, m') && NumberFound(m', d.matchNumber)
      && (NumberFound(matches, d.matchNumber) <==> NumberRow(matches, d.matchNumber).Some?)
      && (NumberRow(matches, d.matchNumber).Some? ==>
            var i := NumberRow(matches, d.matchNumber).value;
            && |m'| == |matches|
            && (forall j :: 0 <= j < |matches| && j != i ==> m'[j] == matches[j])
            && m'[i].id == matches[i].id && CarriesDefined(m'[i], d)
            && m'[i].venue == (if d.venue.Some? then d.venue else matches[i].venue)
            && m'[i].winningTeamId == (if d.winningTeamId.Some? then d.winningTeamId else matches[i].winningTeamId)
            && m'[i].winByRuns == (if d.winByRuns.Some? then d.winByRuns else matches[i].winByRuns)
            && m'[i].winByWickets == (if d.winByWickets.Some? then d.winByWickets else matches[i].winByWickets))
      && (NumberRow(matches, d.matchNumber).None? ==>
            && |m'| == |matches| + 1 && m'[..|matches|] == matches
            && (forall j :: 0 <= j < |matches| ==> matches[j].id != m'[|matches|].id)
            && CarriesDefined(m'[|matches|], d) && m'[|matches|].venue == d.venue
            && m'[|matches|].winningTeamId == d.winningTeamId
            && m'[|matches|].winByRuns == d.winByRuns && m'[|matches|].winByWickets == d.winByWickets)
  {
    var m' := UpsertByNumber(matches, d);
    match NumberRow(matches, d.matchNumber)
    case Some(i) =>
      assert m'[i].matchNumber == d.matchNumber && m'[i].season == Season;
    case None =>
      assert m'[..|matches|] == matches;
      assert m'[|matches|].matchNumber == d.matchNumber && m'[|matches|].season == Season;
  }

  // ---------------------------------------------------------------------------
  // The loop

  /** An entry the loop does not skip: it has an id and at least two team names. */
  predicate Eligible(e: Entry) {
    e.id != "" && |e.teams| >= 2
  }

  datatype EntryOutcome = Skipped | Written | Aborted

  /** Both team lookups of an eligible entry, home first. */
  function EntryTeams(db: Tables, e: Entry): (Tables, Team, Team)
    requires |e.teams| >= 2
  {
    var (teams1, next1, home) := FindOrCreateTeam(db.teams, db.nextId, e.teams[0]);
    var (teams2, next2, away) := FindOrCreateTeam(teams1, next1, e.teams[1]);
    (db.(teams := teams2, nextId := next2), home, away)
  }

  /**
   * One iteration: skip, or find-or-create both teams and upsert the match. An
   * invalid date makes the store reject the write, after the team writes.
   */
  function SyncEntry(db: Tables, e: Entry, parseDate: string -> Option<int>): (Tables, EntryOutcome) {
    if !Eligible(e) then (db, Skipped)
    else
      var (db1, home, away) := EntryTeams(db, e);
      var d := Derive(e, home, away, parseDate);
      if d.matchDate.None? then (db1, Aborted)
      else (db1.(matches := UpsertByNumber(db1.matches, d)), Written)
  }

  datatype SeriesError = FeedError(reason: string) | InvalidMatchDate(entryId: string)

  /** One turn of the loop on the running (tables, `syncedCount`) pair; a stopped loop stays stopped. */
  function Step(acc: (Tables, Result<nat, SeriesError>), e: Entry, parseDate: string -> Option<int>)
    : (Tables, Result<nat, SeriesError>)
  {
    if acc.1.Err? then acc
    else
      var (db', o) := SyncEntry(acc.0, e, parseDate);
      match o
      case Skipped => (db', acc.1)
      case Written => (db', Ok(acc.1.value + 1))
      case Aborted => (db', Err(InvalidMatchDate(e.id)))
  }

  /** The loop over a prefix of the list: final tables and `syncedCount`, or the error that stopped it. */
  function SyncEntries(db: Tables, es: seq<Entry>, parseDate: string -> Option<int>): (Tables, Result<nat, SeriesError>)
    decreases |es|
  {
    if es == [] then (db, Ok(0))
    else Step(SyncEntries(db, es[..|es| - 1], parseDate), es[|es| - 1], parseDate)
  }

  /** The JSON body and status of the response. */
  datatype Response = Response(status: nat, success: bool, message: string)

  /** `error.message`; the invalid-date text stands for the message the store raises, not its exact wording. */
  function ErrorText(e: SeriesError): string {
    match e
    case FeedError(reason) => reason
    case InvalidMatchDate(_) => "Invalid value for argument `matchDate`: Provided Date object is invalid."
  }

  function SuccessResponse(n: nat): Response {
    Response(200, true, "Successfully synced " + NatToString(n) + " matches")
  }

  function ErrorResponse(e: SeriesError): Response {
    Response(500, false, ErrorText(e))
  }

  /**
   * The handler as a function of the store: a failed listing fetch writes
   * nothing and answers 500 with its message; every answer is a 200 success or a
   * 500 failure.
   */
  function SeriesSpec(db: Tables, feed: Feed, parseDate: string -> Option<int>): (r: (Tables, Response))
    ensures feed.FeedFailed? ==> r.0 == db && r.1 == Response(500, false, feed.reason)
    ensures r.1.success <==> r.1.status == 200
    ensures r.1.status == 200 || r.1.status == 500
  {
    match feed
    case FeedFailed(reason) => (db, ErrorResponse(FeedError(reason)))
    case MatchList(es) =>
      var (db', r) := SyncEntries(db, es, parseDate);
      (db', if r.Ok? then SuccessResponse(r.value) else ErrorResponse(r.error))
  }

  // ---------------------------------------------------------------------------
  // The store-mutating implementation

  /** `findOrCreateTeam`: `let team = findFirst(...)`, replaced by a created row when absent. */
  method FindOrCreateTeamRow(db: Db, name: string) returns (team: Team)
    modifies db
    ensures (db.teams, db.nextId, team) == FindOrCreateTeam(old(db.teams), old(db.nextId), name)
    ensures db.matches == old(db.matches) && db.users == old(db.users)
    ensures db.participations == old(db.participations)
  {
    var found := FindTeam(db.teams, name);
    if found.Some? {
      team := db.teams[found.value];
    } else {
      var shortName := ShortNameFor(name);
      team := Team(db.nextId, name, shortName, None, DefaultEstablishedYear);
      db.teams := db.teams + [team];
      db.nextId := db.nextId + 1;
    }
  }

  /** The `matchData` of an entry, with the winner and margin assigned in place. */
  method BuildMatchData(e: Entry, home: Team, away: Team, parseDate: string -> Option<int>) returns (matchData: MatchData)
    ensures matchData == Derive(e, home, away, parseDate)
  {
    var isCompleted := CompletedFlag(e);
    var isLive := LiveFlag(e);
    matchData := MatchData(OrdinalNumber(e.name), EntryDate(e, parseDate), home.id, away.id,
                           isCompleted, isLive, e.venue, None, None, None);
    if isCompleted && e.status != "" {
      var homeWon := Mentions(e.status, home);
      var awayWon := Mentions(e.status, away);
      var runWin := RunsMargin(e.status);
      var wicketWin := WicketsMargin(e.status);
      if homeWon {
        matchData := matchData.(winningTeamId := Some(home.id));
        if runWin.Some? {
          matchData := matchData.(winByRuns := Some(runWin.value));
        } else if wicketWin.Some? {
          matchData := matchData.(winByWickets := Some(wicketWin.value));
        }
      } else if awayWon {
        matchData := matchData.(winningTeamId := Some(away.id));
        if runWin.Some? {
          matchData := matchData.(winByRuns := Some(runWin.value));
        } else if wicketWin.Some? {
          matchData := matchData.(winByWickets := Some(wicketWin.value));
        }
      }
    }
  }

  /** The body of the loop for an entry that is not skipped: team lookups, then the keyed write. */
  method SyncEntryRow(db: Db, e: Entry, parseDate: string -> Option<int>) returns (o: EntryOutcome)
    requires Eligible(e)
    modifies db
    ensures (db.State(), o) == SyncEntry(old(db.State()), e, parseDate)
  {
    var home := FindOrCreateTeamRow(db, e.teams[0]);
    var away := FindOrCreateTeamRow(db, e.teams[1]);
    assert (db.State(), home, away) == EntryTeams(old(db.State()), e);
    var matchData := BuildMatchData(e, home, away, parseDate);
    if matchData.matchDate.None? {
      return Aborted;
    }
    var existing := NumberRow(db.matches, matchData.matchNumber);
    if existing.Some? {
      var k := existing.value;
      db.matches := db.matches[k := Apply(db.matches[k], matchData)];
    } else {
      var id := FreshMatchId(db.matches);
      db.matches := db.matches + [Create(id, matchData)];
    }
    o := Written;
  }

  /** `GET`: the upstream listing is an input; `parseDate` stands for `new Date`. */
  method SyncMatches(db: Db, feed: Feed, parseDate: string -> Option<int>) returns (resp: Response)
    requires db.Valid()
    modifies db
    ensures db.Valid()
    ensures (db.State(), resp) == SeriesSpec(old(db.State()), feed, parseDate)
  {
    if feed.FeedFailed? {
      return ErrorResponse(FeedError(feed.reason));
    }
    ghost var start := db.State();
    var entries := feed.entries;
    var syncedCount: nat := 0;
    var i := 0;
    while i < |entries|
      invariant 0 <= i <= |entries|
      invariant (db.State(), Ok(syncedCount)) == SyncEntries(start, entries[..i], parseDate)
      invariant TablesValid(db.State())
    {
      var e := entries[i];
      ghost var before := db.State();
      SyncEntryValid(before, e, parseDate);
      if e.id == "" || |e.teams| < 2 {
        LoopSkips(start, entries, i, syncedCount, before, parseDate);
        i := i + 1;
        continue;
      }
      var o := SyncEntryRow(db, e, parseDate);
      if o == Aborted {
        LoopAborts(start, entries, i, syncedCount, before, parseDate);
        LoopStops(start, entries, i, db.State(), InvalidMatchDate(e.id), parseDate);
        return ErrorResponse(InvalidMatchDate(e.id));
      }
      LoopWrites(start, entries, i, syncedCount, before, parseDate);
      syncedCount := syncedCount + 1;
      i := i + 1;
    }
    assert entries[..|entries|] == entries;
    resp := SuccessResponse(syncedCount);
  }

  // ---------------------------------------------------------------------------
  // Properties

  /** The loop's step: one more entry applies one more `Step` to the prefix. */
  lemma SyncEntriesSnoc(db: Tables, es: seq<Entry>, i: nat, parseDate: string -> Option<int>)
    requires i < |es|
    ensures SyncEntries(db, es[..i + 1], parseDate) == Step(SyncEntries(db, es[..i], parseDate), es[i], parseDate)
  {
    assert es[..i + 1][..i] == es[..i];
  }

  lemma StepWritten(acc: (Tables, Result<nat, SeriesError>), e: Entry, parseDate: string -> Option<int>)
    requires acc.1.Ok? && SyncEntry(acc.0, e, parseDate).1 == Written
    ensures Step(acc, e, parseDate) == (SyncEntry(acc.0, e, parseDate).0, Ok(acc.1.value + 1))
  {
  }

  lemma StepAborted(acc: (Tables, Result<nat, SeriesError>), e: Entry, parseDate: string -> Option<int>)
    requires acc.1.Ok? && SyncEntry(acc.0, e, parseDate).1 == Aborted
    ensures Step(acc, e, parseDate) == (SyncEntry(acc.0, e, parseDate).0, Err(InvalidMatchDate(e.id)))
  {
  }

  lemma StepSkipped(acc: (Tables, Result<nat, SeriesError>), e: Entry, parseDate: string -> Option<int>)
    requires acc.1.Ok? && !Eligible(e)
    ensures Step(acc, e, parseDate) == acc
  {
  }

  lemma LoopSkips(start: Tables, es: seq<Entry>, i: nat, count: nat, db: Tables, parseDate: string -> Option<int>)
    requires i < |es| && SyncEntries(start, es[..i], parseDate) == (db, Ok(count)) && !Eligible(es[i])
    ensures SyncEntries(start, es[..i + 1], parseDate) == (db, Ok(count))
  {
    SyncEntriesSnoc(start, es, i, parseDate);
    StepSkipped((db, Ok(count)), es[i], parseDate);
  }

  lemma LoopWrites(start: Tables, es: seq<Entry>, i: nat, count: nat, db: Tables, parseDate: string -> Option<int>)
    requires i < |es| && SyncEntries(start, es[..i], parseDate) == (db, Ok(count))
    requires SyncEntry(db, es[i], parseDate).1 == Written
    ensures SyncEntries(start, es[..i + 1], parseDate) == (SyncEntry(db, es[i], parseDate).0, Ok(count + 1))
  {
    var acc: (Tables, Result<nat, SeriesError>) := (db, Ok(count));
    StepWritten(acc, es[i], parseDate);
    assert Step(acc, es[i], parseDate) == (SyncEntry(db, es[i], parseDate).0, Ok(count + 1));
    SyncEntriesSnoc(start, es, i, parseDate);
  }

  lemma LoopAborts(start: Tables, es: seq<Entry>, i: nat, count: nat, db: Tables, parseDate: string -> Option<int>)
    requires i < |es| && SyncEntries(start, es[..i], parseDate) == (db, Ok(count))
    requires SyncEntry(db, es[i], parseDate).1 == Aborted
    ensures SyncEntries(start, es[..i + 1], parseDate) == (SyncEntry(db, es[i], parseDate).0, Err(InvalidMatchDate(es[i].id)))
  {
    var acc: (Tables, Result<nat, SeriesError>) := (db, Ok(count));
    StepAborted(acc, es[i], parseDate);
    SyncEntriesSnoc(start, es, i, parseDate);
  }

  /** A prefix that stopped the loop is the whole run's result. */
  lemma LoopStops(start: Tables, es: seq<Entry>, i: nat, after: Tables, err: SeriesError, parseDate: string -> Option<int>)
    requires i < |es| && SyncEntries(start, es[..i + 1], parseDate) == (after, Err(err))
    ensures SyncEntries(start, es, parseDate) == (after, Err(err))
  {
    AbortSticks(start, es[..i + 1], es[i + 1..], parseDate);
    assert es[..i + 1] + es[i + 1..] == es;
  }


  /** Once an entry has stopped the loop, later entries change nothing: the writes made so far are kept. */
  lemma {:induction false} AbortSticks(db: Tables, es: seq<Entry>, more: seq<Entry>, parseDate: string -> Option<int>)
    requires SyncEntries(db, es, parseDate).1.Err?
    ensures SyncEntries(db, es + more, parseDate) == SyncEntries(db, es, parseDate)
    decreases |more|
  {
    if more != [] {
      var init := more[..|more| - 1];
      AbortSticks(db, es, init, parseDate);
      var all := es + more;
      assert all[..|all| - 1] == es + init;
      assert SyncEntries(db, all, parseDate) == Step(SyncEntries(db, es + init, parseDate), all[|all| - 1], parseDate);
    } else {
      assert es + more == es;
    }
  }

  /** One entry keeps the schema's constraints, only appends teams and keeps every match row's keys. */
  lemma SyncEntryValid(db: Tables, e: Entry, parseDate: string -> Option<int>)
    requires TablesValid(db)
    ensures var (db', _) := SyncEntry(db, e, parseDate);
      && TablesValid(db')
      && |db.teams| <= |db'.teams| && db'.teams[..|db.teams|] == db.teams
      && KeysKept(db.matches, db'.matches)
      && db'.users == db.users && db'.participations == db.participations
  {
    if Eligible(e) {
      EntryTeamsSpec(db, e);
      var (db1, home, away) := EntryTeams(db, e);
      var d := Derive(e, home, away, parseDate);
      if d.matchDate.Some? {
        UpsertByNumberSpec(db1.matches, d);
      }
    }
  }

  /**
   * The two team lookups keep the constraints, only append teams, leave both
   * names findable, and write nothing when both were findable already.
   */
  lemma EntryTeamsSpec(db: Tables, e: Entry)
    requires TablesValid(db) && |e.teams| >= 2
    ensures var (db1, _, _) := EntryTeams(db, e);
      && TablesValid(db1)
      && |db.teams| <= |db1.teams| && db1.teams[..|db.teams|] == db.teams
      && db1.matches == db.matches && db1.users == db.users && db1.participations == db.participations
      && TeamFound(db1.teams, e.teams[0]) && TeamFound(db1.teams, e.teams[1])
      && (TeamFound(db.teams, e.teams[0]) && TeamFound(db.teams, e.teams[1]) ==> db1.teams == db.teams)
  {
    var r1 := FindOrCreateTeam(db.teams, db.nextId, e.teams[0]);
    FindOrCreateTeamSpec(db.teams, db.nextId, e.teams[0]);
    var r2 := FindOrCreateTeam(r1.0, r1.1, e.teams[1]);
    FindOrCreateTeamSpec(r1.0, r1.1, e.teams[1]);
    assert EntryTeams(db, e).0 == db.(teams := r2.0, nextId := r2.1);
    assert r2.0[..|db.teams|] == db.teams by {
      assert r2.0[..|r1.0|] == r1.0;
    }
    TablesWithTeams(db, r2.0, r2.1);
    TeamFoundKept(r1.0, r2.0, e.teams[0]);
    if TeamFound(db.teams, e.teams[1]) {
      TeamFoundKept(db.teams, r1.0, e.teams[1]);
    }
  }

  /** Every eligible entry has a valid date. */
  ghost predicate DatesValid(es: seq<Entry>, parseDate: string -> Option<int>) {
    forall i :: 0 <= i < |es| && Eligible(es[i]) ==> EntryDate(es[i], parseDate).Some?
  }

  /** An entry is skipped exactly when it is not eligible, and stops the loop exactly when its date is invalid. */
  lemma SyncEntryOutcome(db: Tables, e: Entry, parseDate: string -> Option<int>)
    ensures var o := SyncEntry(db, e, parseDate).1;
      && (o == Skipped <==> !Eligible(e))
      && (o == Aborted <==> Eligible(e) && EntryDate(e, parseDate).None?)
  {
  }

  lemma DatesValidSnoc(es: seq<Entry>, e: Entry, parseDate: string -> Option<int>)
    ensures DatesValid(es + [e], parseDate) <==> DatesValid(es, parseDate) && (Eligible(e) ==> EntryDate(e, parseDate).Some?)
  {
    assert forall i :: 0 <= i < |es| ==> (es + [e])[i] == es[i];
    assert (es + [e])[|es|] == e;
  }

  /**
   * The loop runs to the end exactly when every eligible entry has a valid date,
   * and then `syncedCount` is the number of eligible entries: skipped entries are
   * not counted and every other one is written.
   */
  lemma {:induction false} SyncEntriesCount(db: Tables, es: seq<Entry>, parseDate: string -> Option<int>)
    ensures var (_, r) := SyncEntries(db, es, parseDate);
      && (r.Ok? <==> DatesValid(es, parseDate))
      && (r.Ok? ==> r.value == |Filter(es, Eligible)|)
      && (r.Err? ==> r.error.InvalidMatchDate?)
    decreases |es|
  {
    if es != [] {
      var init, last := es[..|es| - 1], es[|es| - 1];
      assert init + [last] == es;
      var acc := SyncEntries(db, init, parseDate);
      SyncEntriesCount(db, init, parseDate);
      assert SyncEntries(db, es, parseDate) == Step(acc, last, parseDate);
      FilterSnoc(init, last, Eligible);
      DatesValidSnoc(init, last, parseDate);
      if acc.1.Ok? {
        SyncEntryOutcome(acc.0, last, parseDate);
      }
    }
  }

  /**
   * The handler's answer for a fetched listing: "Successfully synced N matches"
   * with N the number of eligible entries exactly when every eligible entry has
   * a valid date; otherwise the 500 carrying the invalid-date message.
   */
  lemma SeriesReportsSync(db: Tables, feed: Feed, parseDate: string -> Option<int>)
    ensures var (_, resp) := SeriesSpec(db, feed, parseDate);
      feed.MatchList? ==>
        && (resp.success <==> DatesValid(feed.entries, parseDate))
        && (resp.success ==> resp == SuccessResponse(|Filter(feed.entries, Eligible)|))
        && (!resp.success ==> resp == Response(500, false, ErrorText(InvalidMatchDate(""))))
  {
    if feed.MatchList? {
      var r := SyncEntries(db, feed.entries, parseDate).1;
      SyncEntriesCount(db, feed.entries, parseDate);
      assert SeriesSpec(db, feed, parseDate).1 == if r.Ok? then SuccessResponse(r.value) else ErrorResponse(r.error);
    }
  }

  /** The entries' teams and (number, season) rows are already stored. */
  ghost predicate Known(db: Tables, e: Entry) {
    Eligible(e) ==> TeamFound(db.teams, e.teams[0]) && TeamFound(db.teams, e.teams[1])
                    && NumberFound(db.matches, OrdinalNumber(e.name))
  }

  lemma KnownPersists(db: Tables, db': Tables, e: Entry)
    requires Known(db, e)
    requires |db.teams| <= |db'.teams| && db'.teams[..|db.teams|] == db.teams
    requires KeysKept(db.matches, db'.matches)
    ensures Known(db', e)
  {
    if Eligible(e) {
      var a :| 0 <= a < |db.teams| && NameOrShort(db.teams[a], e.teams[0]);
      var b :| 0 <= b < |db.teams| && NameOrShort(db.teams[b], e.teams[1]);
      assert db'.teams[a] == db.teams[a] && db'.teams[b] == db.teams[b];
      var n := OrdinalNumber(e.name);
      var m :| 0 <= m < |db.matches| && db.matches[m].matchNumber == n && db.matches[m].season == Season;
      assert db'.matches[m].matchNumber == n && db'.matches[m].season == Season;
    }
  }

  /** A written entry leaves its teams and its (number, season) row stored; a known one adds no row. */
  lemma SyncEntryKnown(db: Tables, e: Entry, parseDate: string -> Option<int>)
    requires TablesValid(db)
    ensures var (db', o) := SyncEntry(db, e, parseDate);
      && (o != Aborted ==> Known(db', e))
      && (o == Skipped ==> db' == db)
      && (Known(db, e) ==> |db'.teams| == |db.teams| && |db'.matches| == |db.matches|)
  {
    if Eligible(e) {
      EntryTeamsSpec(db, e);
      var (db1, home, away) := EntryTeams(db, e);
      var d := Derive(e, home, away, parseDate);
      assert d.matchNumber == OrdinalNumber(e.name);
      if d.matchDate.Some? {
        UpsertByNumberSpec(db1.matches, d);
      }
    }
  }


  /** The loop keeps the schema's constraints, only appends teams and keeps every row's keys. */
  lemma {:induction false} SyncEntriesValid(db: Tables, es: seq<Entry>, parseDate: string -> Option<int>)
    requires TablesValid(db)
    ensures var (db', _) := SyncEntries(db, es, parseDate);
      && TablesValid(db')
      && |db.teams| <= |db'.teams| && db'.teams[..|db.teams|] == db.teams
      && KeysKept(db.matches, db'.matches)
      && db'.users == db.users && db'.participations == db.participations
    decreases |es|
  {
    if es != [] {
      var init, last := es[..|es| - 1], es[|es| - 1];
      var acc := SyncEntries(db, init, parseDate);
      SyncEntriesValid(db, init, parseDate);
      assert SyncEntries(db, es, parseDate) == Step(acc, last, parseDate);
      if acc.1.Ok? {
        var db1 := acc.0;
        SyncEntryValid(db1, last, parseDate);
        var db2 := SyncEntry(db1, last, parseDate).0;
        assert Step(acc, last, parseDate).0 == db2;
        assert db2.teams[..|db.teams|] == db.teams by {
          assert db2.teams[..|db1.teams|] == db1.teams;
        }
      }
    }
  }

  /** A run that reaches the end leaves every eligible entry's teams and row stored. */
  lemma {:induction false} SyncEntriesKnown(db: Tables, es: seq<Entry>, parseDate: string -> Option<int>)
    requires TablesValid(db)
    ensures var (db', r) := SyncEntries(db, es, parseDate);
      r.Ok? ==> forall i :: 0 <= i < |es| ==> Known(db', es[i])
    decreases |es|
  {
    if es != [] {
      var init := es[..|es| - 1];
      var last := es[|es| - 1];
      var (db1, r1) := SyncEntries(db, init, parseDate);
      SyncEntriesLast(db, es, parseDate);
      var (db2, o) := SyncEntry(db1, last, parseDate);
      if r1.Ok? && o != Aborted {
        SyncEntriesKnown(db, init, parseDate);
        SyncEntriesValid(db, init, parseDate);
        assert forall i :: 0 <= i < |init| ==> init[i] == es[i];
        SyncEntryValid(db1, last, parseDate);
        SyncEntryKnown(db1, last, parseDate);
        KnownStep(db1, db2, es);
      }
    }
  }

  /** A run that ends without error applied its last entry without an abort. */
  lemma SyncEntriesLast(db: Tables, es: seq<Entry>, parseDate: string -> Option<int>)
    requires es != []
    ensures var (db1, r1) := SyncEntries(db, es[..|es| - 1], parseDate);
      var (db2, o) := SyncEntry(db1, es[|es| - 1], parseDate);
      SyncEntries(db, es, parseDate).1.Ok? ==> r1.Ok? && o != Aborted && SyncEntries(db, es, parseDate).0 == db2
  {
  }

  /** One more stored entry on top of earlier entries that stay known. */
  lemma KnownStep(db1: Tables, db2: Tables, es: seq<Entry>)
    requires es != [] && Known(db2, es[|es| - 1])
    requires forall i :: 0 <= i < |es| - 1 ==> Known(db1, es[i])
    requires |db1.teams| <= |db2.teams| && db2.teams[..|db1.teams|] == db1.teams
    requires KeysKept(db1.matches, db2.matches)
    ensures forall i :: 0 <= i < |es| ==> Known(db2, es[i])
  {
    forall i | 0 <= i < |es| - 1
      ensures Known(db2, es[i])
    {
      KnownPersists(db1, db2, es[i]);
    }
  }

  /** Entries that are all known add no row to either table. */
  lemma {:induction false} SyncEntriesNoGrowth(db: Tables, es: seq<Entry>, parseDate: string -> Option<int>)
    requires TablesValid(db)
    requires forall i :: 0 <= i < |es| ==> Known(db, es[i])
    ensures var (db', _) := SyncEntries(db, es, parseDate);
      |db'.teams| == |db.teams| && |db'.matches| == |db.matches|
    decreases |es|
  {
    if es != [] {
      var init := es[..|es| - 1];
      var last := es[|es| - 1];
      var (db1, r1) := SyncEntries(db, init, parseDate);
      assert forall i :: 0 <= i < |init| ==> init[i] == es[i];
      SyncEntriesNoGrowth(db, init, parseDate);
      SyncEntriesValid(db, init, parseDate);
      if r1.Ok? {
        KnownPersists(db, db1, last);
        SyncEntryKnown(db1, last, parseDate);
      }
    }
  }

  /**
   * Re-running a sync that succeeded, on the same listing, adds no team and no
   * match: both lookups find what the first run wrote.
   */
  lemma SeriesResyncAddsNoRows(db: Tables, feed: Feed, parseDate: string -> Option<int>)
    requires TablesValid(db)
    requires SeriesSpec(db, feed, parseDate).1.success
    ensures var (db1, _) := SeriesSpec(db, feed, parseDate);
      var (db2, resp2) := SeriesSpec(db1, feed, parseDate);
      |db2.teams| == |db1.teams| && |db2.matches| == |db1.matches| && resp2.success
  {
    var es := feed.entries;
    var (db1, r1) := SyncEntries(db, es, parseDate);
    SyncEntriesValid(db, es, parseDate);
    SyncEntriesKnown(db, es, parseDate);
    SyncEntriesNoGrowth(db1, es, parseDate);
    SyncEntriesCount(db, es, parseDate);
    SyncEntriesCount(db1, es, parseDate);
  }
}
