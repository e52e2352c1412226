/**
 * The scheduled trigger for the live sync (`GET /api/cron/sync-matches`): a guard
 * on the `CRON_SECRET` setting, one run of `syncLiveMatchesWithDB`, and the JSON
 * response built from its result or its error.
 */
module CronSync {
  import opened Wrappers
  import opened Store
  import opened CricketFeed
  import opened LiveSync

  /** The JSON body and status: `syncedMatches` is present only on success. */
  datatype CronResponse = CronResponse(status: int, success: bool, syncedMatches: Option<nat>, message: string)

  const MissingSecret := "CRON_SECRET environment variable not set"
  const SyncedMessage := "Successfully synchronized match data"

  /** `!cronSecret`: an unset variable and an empty one are both falsy. */
  predicate SecretSet(cronSecret: Option<string>) {
    cronSecret.Some? && cronSecret.value != ""
  }

  /** The handler as a function of the store and the environment. */
  function CronSpec(db: Tables, cronSecret: Option<string>, listing: Listing,
                    parseDate: string -> Option<int>, now: int): (Tables, CronResponse)
  {
    if !SecretSet(cronSecret) then (db, CronResponse(500, false, None, MissingSecret))
    else
      var (db', r) := SyncSpec(db, listing, parseDate, now);
      match r
      case Ok(rows) => (db', CronResponse(200, true, Some(|rows|), SyncedMessage))
      case Err(e) => (db', CronResponse(500, false, None, ErrorMessage(e)))
  }

  /** `GET`: the environment variable is a parameter; the sync runs only when it is set. */
  method CronGet(db: Db, cronSecret: Option<string>, listing: Listing,
                 parseDate: string -> Option<int>, now: int) returns (resp: CronResponse)
    requires db.Valid()
    modifies db
    ensures db.Valid()
    ensures (db.State(), resp) == CronSpec(old(db.State()), cronSecret, listing, parseDate, now)
  {
    if !SecretSet(cronSecret) {
      return CronResponse(500, false, None, MissingSecret);
    }
    var r := SyncLiveMatchesWithDB(db, listing, parseDate, now);
    match r
    case Ok(rows) =>
      resp := CronResponse(200, true, Some(|rows|), SyncedMessage);
    case Err(e) =>
      resp := CronResponse(500, false, None, ErrorMessage(e));
  }

  // ---------------------------------------------------------------------------
  // Properties

  /** Without the secret the sync never runs: the store is untouched and the answer is a 500. */
  lemma CronNeedsSecret(db: Tables, cronSecret: Option<string>, listing: Listing,
                        parseDate: string -> Option<int>, now: int)
    requires !SecretSet(cronSecret)
    ensures var (db', resp) := CronSpec(db, cronSecret, listing, parseDate, now);
      && db' == db && resp.status == 500 && !resp.success
      && resp.message == MissingSecret && resp.syncedMatches.None?
  {
  }

  /** Only the presence of the secret matters: no request value is compared with it. */
  lemma CronSecretValueIrrelevant(db: Tables, s1: string, s2: string, listing: Listing,
                                  parseDate: string -> Option<int>, now: int)
    requires s1 != "" && s2 != ""
    ensures CronSpec(db, Some(s1), listing, parseDate, now) == CronSpec(db, Some(s2), listing, parseDate, now)
  {
  }

  /**
   * With the secret set the response mirrors the sync: success (status 200) exactly
   * when the sync succeeds, with `syncedMatches` its row count; otherwise status 500
   * carrying the error's message, and the store is as it was.
   */
  lemma CronReportsSync(db: Tables, cronSecret: Option<string>, listing: Listing,
                        parseDate: string -> Option<int>, now: int)
    requires SecretSet(cronSecret)
    ensures var (db', resp) := CronSpec(db, cronSecret, listing, parseDate, now);
      var (dbs, r) := SyncSpec(db, listing, parseDate, now);
      && db' == dbs
      && (resp.success <==> r.Ok?)
      && (resp.success <==> resp.status == 200)
      && (r.Ok? ==> resp.syncedMatches == Some(|r.value|) && resp.message == SyncedMessage)
      && (r.Err? ==> resp.status == 500 && resp.message == ErrorMessage(r.error) && db' == db)
  {
  }

  /**
   * For a feed whose records all map and carry an id, the reported count is the
   * number of records in the feed.
   */
  lemma CronCountsEveryRecord(db: Tables, cronSecret: Option<string>, data: seq<ApiMatch>,
                              parseDate: string -> Option<int>, now: int)
    requires TablesValid(db) && SecretSet(cronSecret)
    requires FetchLiveMatches(Listing(data)).Ok?
    requires forall i :: 0 <= i < |data| ==> data[i].id != ""
    ensures CronSpec(db, cronSecret, Listing(data), parseDate, now).1 ==
      CronResponse(200, true, Some(|data|), SyncedMessage)
  {
    SyncSpecFetched(db, data, parseDate, now);
  }

  /** Every response is either a 200 success or a 500 failure. */
  lemma CronStatuses(db: Tables, cronSecret: Option<string>, listing: Listing,
                     parseDate: string -> Option<int>, now: int)
    ensures var resp := CronSpec(db, cronSecret, listing, parseDate, now).1;
      (resp.status == 200 && resp.success) || (resp.status == 500 && !resp.success)
  {
  }
}
