/**
 * The admin server action that records a participation (`addParticipation`) and
 * the skill-score recomputation it triggers (`updateUserSkillScore`): an upsert
 * keyed by (user, match) followed by a write of the user's rounded average.
 */
module AdminParticipation {
  import opened Wrappers
  import opened Collections
  import opened Store

  /** The form fields, already read as numbers; `rank` is `None` when the field is empty or absent. */
  datatype AddForm = AddForm(
    userId: nat,
    matchId: string,
    points: int,
    rank: Option<int>,
    moneySpent: int,
    moneyGained: int)

  /** `{ success: true }` or `{ success: false, error }`. */
  datatype ActionResult = ActionResult(success: bool, error: Option<string>)

  const FailedToAdd := "Failed to add participation"

  // ---------------------------------------------------------------------------
  // The skill score

  /** `Math.round(sum / n)` for `n > 0`: the nearest integer, halves rounded up. */
  function RoundedAverage(sum: int, n: nat): (r: int)
    requires n > 0
    ensures 2 * n * r - n <= 2 * sum < 2 * n * r + n
  {
    (2 * sum + n) / (2 * n)
  }

  /** `reduce((sum, p) => sum + p.points, 0)` */
  function SumPoints(ps: seq<Participation>): int
    decreases |ps|
  {
    if ps == [] then 0 else ps[0].points + SumPoints(ps[1..])
  }

  /** `participation.findMany({ where: { userId } })`, in table order. */
  function RowsOf(ps: seq<Participation>, userId: nat): (r: seq<Participation>)
    ensures forall p :: p in r <==> p in ps && p.userId == userId
  {
    Filter(ps, (p: Participation) => p.userId == userId)
  }

  /** The score `updateUserSkillScore` writes: the rounded mean of the user's points, 0 without rows. */
  function SkillScore(ps: seq<Participation>, userId: nat): (r: int)
    ensures (forall j :: 0 <= j < |ps| ==> ps[j].userId != userId) ==> r == 0
  {
    var mine := RowsOf(ps, userId);
    if |mine| > 0 then
      assert mine[0] in mine;
      RoundedAverage(SumPoints(mine), |mine|)
    else 0
  }

  // ---------------------------------------------------------------------------
  // The action as functions of the store

  /** The row a create inserts: the money columns as given, no captain, no screenshot. */
  function NewParticipation(id: nat, f: AddForm): Participation {
    Participation(id, f.userId, f.matchId, f.points, f.rank, f.moneySpent, f.moneyGained, None, None, None)
  }

  /** The update branch overwrites exactly these four columns. */
  function Overwrite(p: Participation, f: AddForm): Participation {
    p.(points := f.points, rank := f.rank, moneySpent := f.moneySpent, moneyGained := f.moneyGained)
  }

  /**
   * The find-then-update-or-create step. `None` is the create that the store
   * refuses because the user or the match does not exist.
   */
  function UpsertParticipation(db: Tables, f: AddForm): Option<Tables> {
    match ParticipationOf(db.participations, f.userId, f.matchId)
    case Some(i) =>
      Some(db.(participations := db.participations[i := Overwrite(db.participations[i], f)]))
    case None =>
      if UserWithId(db.users, f.userId).None? || MatchWithId(db.matches, f.matchId).None? then None
      else Some(db.(participations := db.participations + [NewParticipation(db.nextId, f)],
                    nextId := db.nextId + 1))
  }

  /** `updateUserSkillScore`: `None` when `user.update` finds no row with that id. */
  function RecomputeSkill(db: Tables, userId: nat): Option<Tables> {
    match UserWithId(db.users, userId)
    case None => None
    case Some(i) =>
      Some(db.(users := db.users[i := db.users[i].(skillScore := SkillScore(db.participations, userId))]))
  }

  /** `addParticipation`: a failure after the upsert keeps the upsert, as there is no transaction. */
  function AddParticipationSpec(db: Tables, f: AddForm): (Tables, ActionResult) {
    match UpsertParticipation(db, f)
    case None => (db, ActionResult(false, Some(FailedToAdd)))
    case Some(db1) =>
      match RecomputeSkill(db1, f.userId)
      case None => (db1, ActionResult(false, Some(FailedToAdd)))
      case Some(db2) => (db2, ActionResult(true, None))
  }

  // ---------------------------------------------------------------------------
  // The store-mutating implementation

  method UpdateUserSkillScore(db: Db, userId: nat) returns (ok: bool)
    modifies db
    ensures ok == RecomputeSkill(old(db.State()), userId).Some?
    ensures db.State() == (if ok then RecomputeSkill(old(db.State()), userId).value else old(db.State()))
  {
    var skillScore := SkillScore(db.participations, userId);
    var found := UserWithId(db.users, userId);
    if found.None? {
      return false;
    }
    var i := found.value;
    db.users := db.users[i := db.users[i].(skillScore := skillScore)];
    ok := true;
  }

  /** The find-then-update-or-create step on the store; `false` when the create is refused. */
  method UpsertParticipationRow(db: Db, f: AddForm) returns (ok: bool)
    modifies db
    ensures ok == UpsertParticipation(old(db.State()), f).Some?
    ensures db.State() == (if ok then UpsertParticipation(old(db.State()), f).value else old(db.State()))
  {
    var existing := ParticipationOf(db.participations, f.userId, f.matchId);
    if existing.Some? {
      var i := existing.value;
      db.participations := db.participations[i := Overwrite(db.participations[i], f)];
    } else {
      if UserWithId(db.users, f.userId).None? || MatchWithId(db.matches, f.matchId).None? {
        return false;
      }
      db.participations := db.participations + [NewParticipation(db.nextId, f)];
      db.nextId := db.nextId + 1;
    }
    ok := true;
  }

  method AddParticipation(db: Db, f: AddForm) returns (res: ActionResult)
    requires db.Valid()
    modifies db
    ensures db.Valid()
    ensures (db.State(), res) == AddParticipationSpec(old(db.State()), f)
  {
    ghost var start := db.State();
    var upserted := UpsertParticipationRow(db, f);
    if !upserted {
      return ActionResult(false, Some(FailedToAdd));
    }
    UpsertParticipationValid(start, f);
    AddParticipationValid(start, f);
    var ok := UpdateUserSkillScore(db, f.userId);
    if !ok {
      return ActionResult(false, Some(FailedToAdd));
    }
    res := ActionResult(true, None);
  }


  // ---------------------------------------------------------------------------
  // Properties

  /** Rounding examples: halves go up, towards positive infinity, as `Math.round` does. */
  lemma RoundedAverageExamples()
    ensures RoundedAverage(5, 2) == 3 && RoundedAverage(-5, 2) == -2
    ensures RoundedAverage(7, 3) == 2 && RoundedAverage(8, 3) == 3
  {
  }

  lemma {:induction false} SumPointsBounds(ps: seq<Participation>, lo: int, hi: int)
    requires forall k :: 0 <= k < |ps| ==> lo <= ps[k].points <= hi
    ensures |ps| * lo <= SumPoints(ps) <= |ps| * hi
    decreases |ps|
  {
    if ps != [] {
      SumPointsBounds(ps[1..], lo, hi);
    }
  }

  lemma RoundedAverageBounds(sum: int, n: nat, lo: int, hi: int)
    requires n > 0 && n * lo <= sum <= n * hi
    ensures lo <= RoundedAverage(sum, n) <= hi
  {
    var r := RoundedAverage(sum, n);
    if r > hi {
      assert 2 * n * r >= 2 * n * (hi + 1) by {
        MulMonotone(2 * n, hi + 1, r);
      }
      assert false;
    }
    if r < lo {
      assert 2 * n * (r + 1) <= 2 * n * lo by {
        MulMonotone(2 * n, r + 1, lo);
      }
      assert false;
    }
  }

  lemma MulMonotone(m: nat, a: int, b: int)
    requires a <= b
    ensures m * a <= m * b
  {
    assert m * b - m * a == m * (b - a);
  }

  /** The score lies between the user's lowest and highest points. */
  lemma SkillScoreBounds(ps: seq<Participation>, userId: nat, lo: int, hi: int)
    requires lo <= hi
    requires forall k :: 0 <= k < |ps| && ps[k].userId == userId ==> lo <= ps[k].points <= hi
    requires exists k :: 0 <= k < |ps| && ps[k].userId == userId
    ensures lo <= SkillScore(ps, userId) <= hi
  {
    var mine := RowsOf(ps, userId);
    var j0 :| 0 <= j0 < |ps| && ps[j0].userId == userId;
    assert ps[j0] in mine;
    if |mine| > 0 {
      forall k | 0 <= k < |mine|
        ensures lo <= mine[k].points <= hi
      {
        assert mine[k] in mine;
        var j :| 0 <= j < |ps| && ps[j] == mine[k];
      }
      SumPointsBounds(mine, lo, hi);
      RoundedAverageBounds(SumPoints(mine), |mine|, lo, hi);
    }
  }

  /** Every user whose rows all carry the same points gets exactly that score. */
  lemma SkillScoreConstant(ps: seq<Participation>, userId: nat, v: int)
    requires exists k :: 0 <= k < |ps| && ps[k].userId == userId
    requires forall k :: 0 <= k < |ps| && ps[k].userId == userId ==> ps[k].points == v
    ensures SkillScore(ps, userId) == v
  {
    SkillScoreBounds(ps, userId, v, v);
  }

  /** The action keeps every uniqueness constraint; in particular one row per (user, match). */
  lemma AddParticipationValid(db: Tables, f: AddForm)
    requires TablesValid(db)
    ensures TablesValid(AddParticipationSpec(db, f).0)
  {
    match UpsertParticipation(db, f)
    case None =>
    case Some(db1) =>
      UpsertParticipationValid(db, f);
      match RecomputeSkill(db1, f.userId)
      case None =>
      case Some(db2) =>
        var i := UserWithId(db1.users, f.userId).value;
        SkillScoreUpdateValid(db1, i, SkillScore(db1.participations, f.userId));
  }

  lemma UpsertParticipationValid(db: Tables, f: AddForm)
    requires TablesValid(db) && UpsertParticipation(db, f).Some?
    ensures TablesValid(UpsertParticipation(db, f).value)
  {
    var ps := db.participations;
    var db1 := UpsertParticipation(db, f).value;
    match ParticipationOf(ps, f.userId, f.matchId)
    case Some(i) =>
      assert forall j :: 0 <= j < |ps| ==>
        db1.participations[j].id == ps[j].id && db1.participations[j].userId == ps[j].userId
        && db1.participations[j].matchId == ps[j].matchId;
    case None =>
      ParticipationAppendValid(db, NewParticipation(db.nextId, f));
  }

  /**
   * On success the store holds exactly one row for the pair, carrying the form's
   * points, rank and money; the update branch keeps every other column of that
   * row, and every other row is untouched.
   */
  lemma AddParticipationRecords(db: Tables, f: AddForm)
    requires TablesValid(db)
    ensures var (db', res) := AddParticipationSpec(db, f);
      var ps, ps' := db.participations, db'.participations;
      res.success ==>
        && (exists k :: 0 <= k < |ps'| && ps'[k].userId == f.userId && ps'[k].matchId == f.matchId)
        && (forall k :: 0 <= k < |ps'| && ps'[k].userId == f.userId && ps'[k].matchId == f.matchId ==>
              ps'[k].points == f.points && ps'[k].rank == f.rank
              && ps'[k].moneySpent == f.moneySpent && ps'[k].moneyGained == f.moneyGained)
        && (forall k :: 0 <= k < |ps| && (ps[k].userId != f.userId || ps[k].matchId != f.matchId) ==>
              ps'[k] == ps[k])
        && (forall k :: 0 <= k < |ps| ==>
              ps'[k].id == ps[k].id && ps'[k].captainName == ps[k].captainName
              && ps'[k].viceCaptainName == ps[k].viceCaptainName && ps'[k].teamScreenshot == ps[k].teamScreenshot)
        && |ps'| == |ps| + (if ParticipationOf(ps, f.userId, f.matchId).Some? then 0 else 1)
  {
    if AddParticipationSpec(db, f).1.success {
      UpsertRecords(db, f);
    }
  }

  /** The participation facts of a successful upsert; the score update then leaves that table alone. */
  lemma UpsertRecords(db: Tables, f: AddForm)
    requires TablesValid(db) && UpsertParticipation(db, f).Some?
    ensures var ps, ps' := db.participations, UpsertParticipation(db, f).value.participations;
      && (exists k :: 0 <= k < |ps'| && ps'[k].userId == f.userId && ps'[k].matchId == f.matchId)
      && (forall k :: 0 <= k < |ps'| && ps'[k].userId == f.userId && ps'[k].matchId == f.matchId ==>
            ps'[k].points == f.points && ps'[k].rank == f.rank
            && ps'[k].moneySpent == f.moneySpent && ps'[k].moneyGained == f.moneyGained)
      && (forall k :: 0 <= k < |ps| && (ps[k].userId != f.userId || ps[k].matchId != f.matchId) ==>
            ps'[k] == ps[k])
      && (forall k :: 0 <= k < |ps| ==>
            ps'[k].id == ps[k].id && ps'[k].captainName == ps[k].captainName
            && ps'[k].viceCaptainName == ps[k].viceCaptainName && ps'[k].teamScreenshot == ps[k].teamScreenshot)
      && |ps'| == |ps| + (if ParticipationOf(ps, f.userId, f.matchId).Some? then 0 else 1)
  {
    var db1 := UpsertParticipation(db, f).value;
    UpsertParticipationValid(db, f);
    var ps' := db1.participations;
    var k: nat;
    match ParticipationOf(db.participations, f.userId, f.matchId) {
      case Some(i) => k := i;
      case None => k := |db.participations|;
    }
    assert ps'[k].userId == f.userId && ps'[k].matchId == f.matchId;
    forall j | 0 <= j < |ps'| && ps'[j].userId == f.userId && ps'[j].matchId == f.matchId
      ensures j == k
    {
      PairUnique(ps', db1.nextId, j, k);
    }
  }


  lemma PairUnique(ps: seq<Participation>, n: nat, i: nat, j: nat)
    requires ParticipationsValid(ps, n) && i < |ps| && j < |ps|
    requires ps[i].userId == ps[j].userId && ps[i].matchId == ps[j].matchId
    ensures i == j
  {
  }

  /**
   * On success only the submitting user's row changes, and only its skill score,
   * which becomes the score of that user's rows after the upsert; teams and
   * matches are untouched.
   */
  lemma AddParticipationRescores(db: Tables, f: AddForm)
    ensures var (db', res) := AddParticipationSpec(db, f);
      && db'.teams == db.teams && db'.matches == db.matches
      && |db'.users| == |db.users|
      && (forall j :: 0 <= j < |db.users| && db.users[j].id != f.userId ==> db'.users[j] == db.users[j])
      && (forall j :: 0 <= j < |db.users| ==> db'.users[j] == db.users[j].(skillScore := db'.users[j].skillScore))
      && (res.success ==>
            exists j :: 0 <= j < |db.users| && db.users[j].id == f.userId
                        && db'.users[j].skillScore == SkillScore(db'.participations, f.userId))
  {
    match UpsertParticipation(db, f)
    case None =>
    case Some(db1) =>
      match RecomputeSkill(db1, f.userId)
      case None =>
      case Some(db2) =>
        var i := UserWithId(db1.users, f.userId).value;
        assert db2.users[i].skillScore == SkillScore(db2.participations, f.userId);
  }

  /**
   * Every failure answers with the fixed message. A failure before any write
   * (the refused create) leaves the store as it was; a failure in the score
   * update leaves the participation written and the users untouched.
   */
  lemma AddParticipationFailures(db: Tables, f: AddForm)
    ensures var (db', res) := AddParticipationSpec(db, f);
      && (!res.success <==> res.error == Some(FailedToAdd))
      && (!res.success && UpsertParticipation(db, f).None? ==> db' == db)
      && (!res.success && UpsertParticipation(db, f).Some? ==>
            db' == UpsertParticipation(db, f).value && db'.users == db.users)
      && (UpsertParticipation(db, f).None? <==>
            ParticipationOf(db.participations, f.userId, f.matchId).None?
            && (UserWithId(db.users, f.userId).None? || MatchWithId(db.matches, f.matchId).None?))
  {
  }
}
