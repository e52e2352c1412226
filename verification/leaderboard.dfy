/**
 * The leaderboard table: users sorted by weighted score (skill score times
 * matches played), then average points per match, then net money, all
 * descending, and numbered from 1.
 */
module Leaderboard {
  import opened Wrappers
  import opened Collections

  /** One user as the page hands it to the table; optional columns may be missing. */
  datatype Entry = Entry(
    id: nat,
    name: Option<string>,
    email: Option<string>,
    dreamXIUsername: Option<string>,
    skillScore: int,
    matchesPlayed: Option<int>,
    avgPointsPerMatch: int,
    totalMoneyGained: Option<int>,
    totalMoneyLost: Option<int>)

  /** One rendered row. */
  datatype Row = Row(
    rank: nat,
    user: string,
    weightedScore: int,
    matches: int,
    avgPoints: int,
    moneyGained: int,
    moneyLost: int,
    netMoney: int)

  /** `v || 1`: a missing or zero count counts as one. */
  function OrOne(v: Option<int>): (r: int)
    ensures r != 0
    ensures v.Some? && v.value != 0 ==> r == v.value
  {
    if v.None? || v.value == 0 then 1 else v.value
  }

  /** `v || 0` */
  function OrZero(v: Option<int>): (r: int)
    ensures v.None? ==> r == 0
    ensures v.Some? ==> r == v.value
  {
    if v.None? then 0 else v.value
  }

  function WeightedScore(u: Entry): int {
    u.skillScore * OrOne(u.matchesPlayed)
  }

  function NetMoney(u: Entry): int {
    OrZero(u.totalMoneyGained) - OrZero(u.totalMoneyLost)
  }

  /** The comparator as written: negative when `a` goes first. */
  function Compare(a: Entry, b: Entry): int {
    if WeightedScore(b) != WeightedScore(a) then WeightedScore(b) - WeightedScore(a)
    else if b.avgPointsPerMatch != a.avgPointsPerMatch then b.avgPointsPerMatch - a.avgPointsPerMatch
    else NetMoney(b) - NetMoney(a)
  }

  /** `a` is placed strictly ahead of `b`. */
  predicate Ahead(a: Entry, b: Entry) {
    Compare(a, b) < 0
  }

  /** `[...users].sort(compare)`: a copy; the input is left as it is. */
  function Ranked(users: seq<Entry>): (r: seq<Entry>)
    ensures multiset(r) == multiset(users) && |r| == |users|
  {
    var r := SortBy(users, Ahead);
    assert |r| == |multiset(r)| == |multiset(users)| == |users|;
    r
  }

  /** `user.name || user.email || user.dreamXIUsername || 'Anonymous User'` */
  function DisplayName(u: Entry): (r: string)
    ensures r != ""
  {
    if u.name.Some? && u.name.value != "" then u.name.value
    else if u.email.Some? && u.email.value != "" then u.email.value
    else if u.dreamXIUsername.Some? && u.dreamXIUsername.value != "" then u.dreamXIUsername.value
    else "Anonymous User"
  }

  function RowOf(index: nat, u: Entry): Row {
    Row(index + 1, DisplayName(u), WeightedScore(u), OrZero(u.matchesPlayed), u.avgPointsPerMatch,
        OrZero(u.totalMoneyGained), OrZero(u.totalMoneyLost), NetMoney(u))
  }

  /** `sortedUsers.map((user, index) => …)` */
  function Rows(users: seq<Entry>): (rows: seq<Row>)
    ensures |rows| == |users|
    ensures forall i :: 0 <= i < |rows| ==> rows[i] == RowOf(i, Ranked(users)[i])
  {
    var sorted := Ranked(users);
    seq(|sorted|, i requires 0 <= i < |sorted| => RowOf(i, sorted[i]))
  }

  // ---------------------------------------------------------------------------
  // Properties

  /**
   * The comparator is the descending lexicographic order on (weighted score,
   * average points, net money).
   */
  lemma AheadIsLexicographic(a: Entry, b: Entry)
    ensures Ahead(a, b) <==>
      || WeightedScore(a) > WeightedScore(b)
      || (WeightedScore(a) == WeightedScore(b) && a.avgPointsPerMatch > b.avgPointsPerMatch)
      || (WeightedScore(a) == WeightedScore(b) && a.avgPointsPerMatch == b.avgPointsPerMatch
          && NetMoney(a) > NetMoney(b))
  {
  }

  /** The comparator is consistent: irreflexive and transitive. */
  lemma AheadIsStrictOrder()
    ensures StrictOrder(Ahead)
  {
    forall a, b, c | Ahead(a, b) && Ahead(b, c)
      ensures Ahead(a, c)
    {
      AheadIsLexicographic(a, b);
      AheadIsLexicographic(b, c);
      AheadIsLexicographic(a, c);
    }
  }

  /**
   * The table lists every user exactly once, and going down it the weighted
   * score never rises; among equal weighted scores the average never rises;
   * among equal both, the net money never rises.
   */
  lemma RankedOrder(users: seq<Entry>)
    ensures var r := Ranked(users);
      forall i, j :: 0 <= i < j < |r| ==>
        && WeightedScore(r[i]) >= WeightedScore(r[j])
        && (WeightedScore(r[i]) == WeightedScore(r[j]) ==> r[i].avgPointsPerMatch >= r[j].avgPointsPerMatch)
        && (WeightedScore(r[i]) == WeightedScore(r[j]) && r[i].avgPointsPerMatch == r[j].avgPointsPerMatch ==>
              NetMoney(r[i]) >= NetMoney(r[j]))
  {
    AheadIsStrictOrder();
    SortBySorted(users, Ahead);
    var r := Ranked(users);
    forall i, j | 0 <= i < j < |r|
      ensures WeightedScore(r[i]) >= WeightedScore(r[j])
      ensures WeightedScore(r[i]) == WeightedScore(r[j]) ==> r[i].avgPointsPerMatch >= r[j].avgPointsPerMatch
      ensures WeightedScore(r[i]) == WeightedScore(r[j]) && r[i].avgPointsPerMatch == r[j].avgPointsPerMatch ==>
              NetMoney(r[i]) >= NetMoney(r[j])
    {
      assert !Ahead(r[j], r[i]);
      AheadIsLexicographic(r[j], r[i]);
    }
  }

  /**
   * The rendered table: ranks run 1..n down the rows, and the displayed weighted
   * scores, being the sort key, never rise.
   */
  lemma RowsRankedAndOrdered(users: seq<Entry>)
    ensures var rows := Rows(users);
      && (forall i :: 0 <= i < |rows| ==> rows[i].rank == i + 1)
      && (forall i, j :: 0 <= i < j < |rows| ==> rows[i].weightedScore >= rows[j].weightedScore)
      && (forall i :: 0 <= i < |rows| ==> rows[i].netMoney == rows[i].moneyGained - rows[i].moneyLost)
  {
    RankedOrder(users);
  }

  /** A user with no recorded matches is weighted by the skill score alone. */
  lemma NoMatchesCountsOnce(u: Entry)
    requires u.matchesPlayed.None? || u.matchesPlayed == Some(0)
    ensures WeightedScore(u) == u.skillScore
  {
  }
}
