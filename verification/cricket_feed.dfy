/**
 * The record mapping of the live-match feed client (src/lib/cricketDataService.ts,
 * `fetchLiveMatches`): each upstream record of the current-matches listing becomes a
 * `CricketMatch` with normalized team keys, a match number, a status and an optional
 * result. The HTTP exchange itself is not modelled: the listing is an input.
 */
module CricketFeed {
  import opened Wrappers
  import opened Collections
  import opened Text

  /** An entry of the upstream `teamInfo` array; absent strings are `""`. */
  datatype TeamInfo = TeamInfo(name: string, shortName: string, img: string)

  /** An entry of the upstream `score` array. */
  datatype Inning = Inning(inning: string, r: int, w: Option<int>)

  /**
   * One upstream record. Fields the code only tests for truthiness use `""` for
   * absent; `teams` and `teamInfo` use `[]`; `name`, `date` and `score` are
   * dereferenced unconditionally, so their absence is kept visible.
   */
  datatype ApiMatch = ApiMatch(
    id: string,
    name: Option<string>,
    date: Option<string>,
    dateTimeGMT: string,
    teams: seq<string>,
    teamInfo: seq<TeamInfo>,
    status: string,
    team1: string,
    team2: string,
    score: Option<seq<Inning>>)

  datatype Status = Upcoming | Live | Completed

  /** The result derived from a status containing "won"; `winByRuns` is `None` where the source computes NaN. */
  datatype MatchResult = MatchResult(winner: string, winByRuns: Option<int>, winByWickets: int)

  /** A mapped record, as `fetchLiveMatches` returns it. */
  datatype CricketMatch = CricketMatch(
    id: string,
    matchNumber: nat,
    date: string,
    dateTimeGMT: string,
    team1: string,
    team2: string,
    teamInfo: seq<TeamInfo>,
    status: Status,
    result: Option<MatchResult>)

  /** What the HTTP exchange produced: the `data` array, or the reason it failed (missing key, 401, non-ok, bad envelope). */
  datatype Listing = Listing(data: seq<ApiMatch>) | Unreachable(reason: string)

  datatype FetchError = UpstreamFailed(reason: string) | MappingFailed

  /** A team key: non-empty, no whitespace, no hyphen, no upper-case letter. */
  predicate IsTeamKey(k: string) {
    k != [] && forall i :: 0 <= i < |k| ==> !IsSeparator(k[i]) && !IsUpper(k[i])
  }

  /** `match.teams?.[i] || fallback` */
  function TeamName(teams: seq<string>, i: nat, fallback: string): string {
    if i < |teams| && teams[i] != "" then teams[i] else fallback
  }

  /** `(raw.trim().replace(/[\s-]+/g, '') || fallback).toLowerCase()` */
  function TeamKey(raw: string, fallback: string): string {
    var stripped := StripSeparators(Trim(raw));
    ToLower(if stripped == [] then fallback else stripped)
  }

  /** The second normalization applied before connecting a match to its teams: no trim, no fallback. */
  function Renormalize(s: string): string {
    ToLower(StripSeparators(s))
  }

  lemma LowerKeepsKeyChars(s: string)
    requires forall i :: 0 <= i < |s| ==> !IsSeparator(s[i])
    ensures forall i :: 0 <= i < |ToLower(s)| ==> !IsSeparator(ToLower(s)[i]) && !IsUpper(ToLower(s)[i])
  {
  }

  /** Every key the mapping produces is non-empty, lower-case and free of whitespace and hyphens. */
  lemma TeamKeyIsKey(raw: string, fallback: string)
    requires IsTeamKey(fallback)
    ensures IsTeamKey(TeamKey(raw, fallback))
  {
    var stripped := StripSeparators(Trim(raw));
    LowerKeepsKeyChars(if stripped == [] then fallback else stripped);
  }

  /** Trimming is redundant: the key depends only on the non-separator characters. */
  lemma TeamKeyIgnoresTrim(raw: string, fallback: string)
    ensures TeamKey(raw, fallback)
         == ToLower(if StripSeparators(raw) == [] then fallback else StripSeparators(raw))
  {
    StripAfterTrim(raw);
  }

  /** Re-normalizing a key gives the key back, so the connect step finds the row the upsert wrote. */
  lemma RenormalizeKey(k: string)
    requires IsTeamKey(k)
    ensures Renormalize(k) == k
  {
    StripSeparatorsFixed(k);
    assert ToLower(k) == k;
  }

  /** Normalization is idempotent on every string. */
  lemma RenormalizeIdempotent(s: string)
    ensures Renormalize(Renormalize(s)) == Renormalize(s)
  {
    var once := Renormalize(s);
    LowerKeepsKeyChars(StripSeparators(s));
    StripSeparatorsFixed(once);
    assert ToLower(once) == once;
  }

  /** Position of the first digit at or after `i`, or `|s|`. */
  function FirstDigit(s: string, i: nat): (k: nat)
    requires i <= |s|
    ensures i <= k <= |s|
    ensures forall j :: i <= j < k ==> !IsDigit(s[j])
    ensures k < |s| ==> IsDigit(s[k])
    decreases |s| - i
  {
    if i == |s| || IsDigit(s[i]) then i else FirstDigit(s, i + 1)
  }

  /** `parseInt(name.match(/\d+/)?.[0] || '0')`: the value of the first maximal digit run, or 0. */
  function LeadingNumber(name: string): nat {
    var k := FirstDigit(name, 0);
    if k == |name| then 0 else DigitsValue(name[k..DigitRunEnd(name, k)])
  }

  /** The number is read from the first digit run, which is maximal, and is 0 exactly when there is no digit. */
  lemma LeadingNumberSpec(name: string)
    ensures (forall j :: 0 <= j < |name| ==> !IsDigit(name[j])) ==> LeadingNumber(name) == 0
    ensures forall k, e :: 0 <= k < e <= |name|
              && (forall j :: 0 <= j < k ==> !IsDigit(name[j]))
              && (forall j :: k <= j < e ==> IsDigit(name[j]))
              && (e == |name| || !IsDigit(name[e]))
              ==> LeadingNumber(name) == DigitsValue(name[k..e])
  {
    forall k, e | 0 <= k < e <= |name|
              && (forall j :: 0 <= j < k ==> !IsDigit(name[j]))
              && (forall j :: k <= j < e ==> IsDigit(name[j]))
              && (e == |name| || !IsDigit(name[e]))
      ensures LeadingNumber(name) == DigitsValue(name[k..e])
    {
      FirstDigitIs(name, 0, k);
      DigitRunEndIs(name, k, e);
    }
  }

  lemma {:induction false} FirstDigitIs(s: string, i: nat, k: nat)
    requires i <= k < |s| && IsDigit(s[k])
    requires forall j :: i <= j < k ==> !IsDigit(s[j])
    ensures FirstDigit(s, i) == k
    decreases k - i
  {
    if i < k {
      FirstDigitIs(s, i + 1, k);
    }
  }

  /**
   * `status` keyword classification: keywords are looked for case-insensitively,
   * "live" taking priority over "completed", and anything else is upcoming.
   */
  function StatusOf(raw: string): (st: Status)
    ensures st == Live <==> Contains(ToLower(raw), "live")
    ensures st == Completed <==> !Contains(ToLower(raw), "live") && Contains(ToLower(raw), "completed")
    ensures st == Upcoming <==> !Contains(ToLower(raw), "live") && !Contains(ToLower(raw), "completed")
  {
    var lowered := ToLower(raw);
    if Contains(lowered, "live") then Live
    else if Contains(lowered, "completed") then Completed
    else Upcoming
  }

  /** First inning whose label contains `team` (`score.find(s => s.inning.includes(team))`). */
  function InningFor(score: seq<Inning>, team: string): (r: Option<Inning>)
    ensures r.Some? ==> r.value in score && Contains(r.value.inning, team)
    ensures r.Some? ==> exists i :: 0 <= i < |score| && score[i] == r.value
                                    && forall j :: 0 <= j < i ==> !Contains(score[j].inning, team)
    ensures r.None? ==> forall s :: s in score ==> !Contains(s.inning, team)
  {
    match FindFirst(score, (s: Inning) => Contains(s.inning, team))
    case Some(i) => Some(score[i])
    case None => None
  }

  /** The mapping throws (a TypeError) for this record, which fails the whole fetch. */
  predicate MappingThrows(m: ApiMatch) {
    || m.name.None?
    || m.date.None?
    || (Contains(m.status, "won") && m.team1 != "" && m.team2 != "" && m.score.None?)
  }

  /** `teams.find(t => status.includes(t)) || status.split(' ')[0]` */
  function WinnerName(teams: seq<string>, status: string): (w: string)
    ensures forall i :: 0 <= i < |teams| && Contains(status, teams[i])
                          && (forall j :: 0 <= j < i ==> !Contains(status, teams[j]))
                        ==> w == if teams[i] != "" then teams[i] else Before(status, ' ')
    ensures (forall i :: 0 <= i < |teams| ==> !Contains(status, teams[i])) ==> w == Before(status, ' ')
  {
    match FindFirst(teams, (t: string) => Contains(status, t))
    case Some(i) => if teams[i] != "" then teams[i] else Before(status, ' ')
    case None => Before(status, ' ')
  }

  /** Runs margin: the difference of the two teams' runs, `None` where a score line is missing (NaN). */
  function RunsMargin(m: ApiMatch): Option<int>
    requires !MappingThrows(m)
  {
    if m.team1 != "" && m.team2 != "" && m.score.Some? then
      match (InningFor(m.score.value, m.team1), InningFor(m.score.value, m.team2))
      case (Some(a), Some(b)) => Some(a.r - b.r)
      case _ => None
    else Some(0)
  }

  /** Wickets margin: 10 less the second team's wickets (a missing count reads as 0). */
  function WicketsMargin(m: ApiMatch): int
    requires !MappingThrows(m)
  {
    if m.team1 != "" && m.team2 != "" && m.score.Some? then
      match InningFor(m.score.value, m.team2)
      case Some(b) => 10 - b.w.GetOr(0)
      case None => 10
    else 0
  }

  function ResultOf(m: ApiMatch): Option<MatchResult>
    requires !MappingThrows(m)
  {
    if Contains(m.status, "won") then
      Some(MatchResult(WinnerName(m.teams, m.status), RunsMargin(m), WicketsMargin(m)))
    else None
  }

  /** The placeholders substituted when `teamInfo` has fewer than two entries. */
  function TeamInfoOf(m: ApiMatch): seq<TeamInfo> {
    if |m.teamInfo| >= 2 then m.teamInfo
    else [TeamInfo(TeamName(m.teams, 0, "Team 1"), "", ""), TeamInfo(TeamName(m.teams, 1, "Team 2"), "", "")]
  }

  /**
   * The per-record mapping; `None` when it throws: on a missing name or date, or
   * on a "won" status with both team fields but no score list.
   */
  function MapMatch(m: ApiMatch): (r: Option<CricketMatch>)
    ensures r.None? <==> m.name.None? || m.date.None?
                         || (Contains(m.status, "won") && m.team1 != "" && m.team2 != "" && m.score.None?)
    ensures r.Some? ==> r.value.id == m.id && r.value.dateTimeGMT == m.dateTimeGMT
  {
    if MappingThrows(m) then None
    else Some(CricketMatch(
      id := m.id,
      matchNumber := LeadingNumber(m.name.value),
      date := Before(m.date.value, 'T'),
      dateTimeGMT := m.dateTimeGMT,
      team1 := TeamKey(TeamName(m.teams, 0, "Team 1"), "team1"),
      team2 := TeamKey(TeamName(m.teams, 1, "Team 2"), "team2"),
      teamInfo := TeamInfoOf(m),
      status := StatusOf(m.status),
      result := ResultOf(m)))
  }

  /** `data.map(...)`: all records mapped, or nothing when one of them throws. */
  function MapAll(data: seq<ApiMatch>): (r: Option<seq<CricketMatch>>)
    ensures r.Some? <==> forall i :: 0 <= i < |data| ==> MapMatch(data[i]).Some?
    ensures r.Some? ==> |r.value| == |data|
    ensures r.Some? ==> forall i :: 0 <= i < |data| ==> MapMatch(data[i]) == Some(r.value[i])
    decreases |data|
  {
    if data == [] then Some([])
    else match (MapMatch(data[0]), MapAll(data[1..]))
      case (Some(first), Some(rest)) =>
        assert forall i :: 1 <= i < |data| ==> data[i] == data[1..][i - 1];
        Some([first] + rest)
      case (None, _) => None
      case (_, None) =>
        assert forall i :: 1 <= i < |data| ==> data[i] == data[1..][i - 1];
        None
  }

  /** `fetchLiveMatches`; the records with fewer than two `teamInfo` entries only feed a warning. */
  function FetchLiveMatches(listing: Listing): (r: Result<seq<CricketMatch>, FetchError>)
    ensures listing.Unreachable? ==> r == Err(UpstreamFailed(listing.reason))
    ensures r.Ok? <==> listing.Listing? && forall i :: 0 <= i < |listing.data| ==> MapMatch(listing.data[i]).Some?
    ensures r.Ok? ==> |r.value| == |listing.data|
                      && forall i :: 0 <= i < |listing.data| ==> MapMatch(listing.data[i]) == Some(r.value[i])
    ensures listing.Listing? && r.Err? ==> r == Err(MappingFailed)
  {
    match listing
    case Unreachable(reason) => Err(UpstreamFailed(reason))
    case Listing(data) =>
      match MapAll(data)
      case Some(ms) => Ok(ms)
      case None => Err(MappingFailed)
  }

  /** What every mapped record looks like. */
  ghost predicate WellFormed(c: CricketMatch) {
    IsTeamKey(c.team1) && IsTeamKey(c.team2) && |c.teamInfo| >= 2
  }

  /** A mapped record keeps the upstream id, has valid team keys and at least two team-info entries. */
  lemma MapMatchShape(m: ApiMatch)
    requires MapMatch(m).Some?
    ensures WellFormed(MapMatch(m).value)
    ensures MapMatch(m).value.id == m.id
    ensures |m.teamInfo| >= 2 ==> MapMatch(m).value.teamInfo == m.teamInfo
  {
    FallbackKeys();
    TeamKeyIsKey(TeamName(m.teams, 0, "Team 1"), "team1");
    TeamKeyIsKey(TeamName(m.teams, 1, "Team 2"), "team2");
  }

  /** The fallback keys are keys themselves. */
  lemma FallbackKeys()
    ensures IsTeamKey("team1") && IsTeamKey("team2")
  {
  }

  /** Every upstream record yields exactly one mapped record, in order; the validity filter drops nothing. */
  lemma FetchKeepsEveryRecord(data: seq<ApiMatch>)
    requires FetchLiveMatches(Listing(data)).Ok?
    ensures |FetchLiveMatches(Listing(data)).value| == |data|
    ensures forall i :: 0 <= i < |data| ==>
              var c := FetchLiveMatches(Listing(data)).value[i];
              WellFormed(c) && c.id == data[i].id
  {
    var ms := FetchLiveMatches(Listing(data)).value;
    forall i | 0 <= i < |data|
      ensures WellFormed(ms[i]) && ms[i].id == data[i].id
    {
      MapMatchShape(data[i]);
    }
  }

  /**
   * A result exists exactly when the raw status contains "won". Its winner is
   * the first listed team the status contains, or the status's first word when
   * that team name is empty or no team is contained. With both team fields set,
   * the runs margin is the first matching innings' runs difference (`None` when
   * either innings is missing) and the wickets margin is 10 less the second
   * team's wickets (10 without its innings); otherwise both margins are 0.
   */
  lemma ResultSpec(m: ApiMatch)
    requires MapMatch(m).Some?
    ensures MapMatch(m).value.result.Some? <==> Contains(m.status, "won")
    ensures MapMatch(m).value.result.Some? ==>
              var w := MapMatch(m).value.result.value.winner;
              && (forall i :: 0 <= i < |m.teams| && Contains(m.status, m.teams[i])
                                && (forall j :: 0 <= j < i ==> !Contains(m.status, m.teams[j]))
                              ==> w == if m.teams[i] != "" then m.teams[i] else Before(m.status, ' '))
              && ((forall i :: 0 <= i < |m.teams| ==> !Contains(m.status, m.teams[i])) ==> w == Before(m.status, ' '))
    ensures MapMatch(m).value.result.Some? && m.team1 != "" && m.team2 != "" ==>
              && m.score.Some?
              && var res := MapMatch(m).value.result.value;
                 var a := InningFor(m.score.value, m.team1);
                 var b := InningFor(m.score.value, m.team2);
                 && res.winByRuns == (if a.Some? && b.Some? then Some(a.value.r - b.value.r) else None)
                 && res.winByWickets == (if b.Some? then 10 - b.value.w.GetOr(0) else 10)
    ensures MapMatch(m).value.result.Some? && (m.team1 == "" || m.team2 == "") ==>
              MapMatch(m).value.result.value.winByRuns == Some(0) && MapMatch(m).value.result.value.winByWickets == 0
  {
    assert MapMatch(m).value.result == ResultOf(m);
    if Contains(m.status, "won") {
      var res := ResultOf(m).value;
      assert res.winner == WinnerName(m.teams, m.status);
      assert res.winByRuns == RunsMargin(m) && res.winByWickets == WicketsMargin(m);
      if m.team1 != "" && m.team2 != "" {
        MarginsFromInnings(m);
      }
    }
  }

  /** Both margins of a record with both team fields, read off the first matching innings. */
  lemma MarginsFromInnings(m: ApiMatch)
    requires !MappingThrows(m) && Contains(m.status, "won") && m.team1 != "" && m.team2 != ""
    ensures m.score.Some?
    ensures var a := InningFor(m.score.value, m.team1);
            var b := InningFor(m.score.value, m.team2);
            && RunsMargin(m) == (if a.Some? && b.Some? then Some(a.value.r - b.value.r) else None)
            && WicketsMargin(m) == (if b.Some? then 10 - b.value.w.GetOr(0) else 10)
  {
    var a := InningFor(m.score.value, m.team1);
    var b := InningFor(m.score.value, m.team2);
    if a.Some? && b.Some? {
      assert RunsMargin(m) == Some(a.value.r - b.value.r);
    } else {
      assert RunsMargin(m) == None;
    }
  }
}
