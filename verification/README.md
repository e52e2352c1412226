# DreamXI Rankings — match-data reconciliation, modelled in Dafny

DreamXI Rankings is a fantasy-cricket league site. Players record their own
Dream11 results per IPL match, and the site ranks them on a leaderboard. This
project models the part that keeps the match data consistent:

- **The live feed client** (`CricketFeed`). It maps each record of the upstream
  current-matches listing to a `CricketMatch`: a normalized team key, a match
  number, a status and an optional result.
- **Live sync** (`LiveSync`). This is the first reconciliation engine. It
  rejects a batch with a record that has no id. Then, record by record, it
  upserts both teams by key and the match by its upstream id. A record that
  fails is logged and skipped.
- **Scheduled trigger** (`CronSync`). It guards on the `CRON_SECRET` setting,
  runs the live sync once and reports the row count.
- **Series sync** (`SeriesSync`). This is the second engine. It finds or
  creates teams by name or short name. It derives the match number, the status
  flags, the winner and the margin from text. It upserts the match keyed by
  (match number, season). Writes are not wrapped in a transaction, and an
  exception stops the loop.
- **Participations**. The admin action (`AdminParticipation`) upserts by (user,
  match) and recomputes the user's skill score as the rounded mean of their
  points. The player route (`ParticipationRoute`) is a chain of guards ending
  in one insert.
- **Accounts**. `Register` covers sign-up; `Profile` covers profile update.
- **Read side**. The season's fixtures split into current and completed lists
  (`MatchesRoute`). The leaderboard's ordering (`Leaderboard`). The navigation
  bar's active-link rule (`Navigation`).

The relational store is the class `Store.Db`. It holds four tables as
sequences in insertion order, plus a counter standing for generated ids.
`Store.TablesValid` states the schema's uniqueness constraints: team name,
match id, user e-mail, user username, and the participation pair (user,
match). Each request handler is a method that updates the `Db` and is proved equal to a function of
the old store (`…Spec`). That function's properties are lemmas, and the
method's `ensures db.Valid()` is the constraint-preservation lemma applied.

Things the code consumes but does not compute are parameters:

- the HTTP listing (`Listing`, `Feed`);
- `new Date(...)` (`parseDate`) and the clock (`now`);
- bcrypt (`hash`);
- the schema library's e-mail and URL checks (`isEmail`, `isUrl`);
- the session.

## Model

| member | source | states |
|---|---|---|
| CricketFeed.TeamKeyIsKey | src/lib/cricketDataService.ts:75-76 | every team key the mapping produces is non-empty, lower-case, and free of whitespace and hyphens |
| CricketFeed.TeamKeyIgnoresTrim | src/lib/cricketDataService.ts:75-76 | the `trim()` before the separator removal changes no key |
| CricketFeed.RenormalizeKey | src/lib/cricketDataService.ts:174-175 | re-normalizing an already normalized key gives it back, so the connect step finds the team row the upsert wrote |
| CricketFeed.RenormalizeIdempotent | src/lib/cricketDataService.ts:174-175 | normalization applied twice equals normalization applied once |
| CricketFeed.FirstDigit | src/lib/cricketDataService.ts:82 | the position returned is the first digit at or after the start, or the end when there is none |
| CricketFeed.LeadingNumberSpec | src/lib/cricketDataService.ts:82 | the match number is the value of the first maximal digit run of the name, and 0 when the name has no digit |
| CricketFeed.StatusOf | src/lib/cricketDataService.ts:86 | status is live exactly when the lower-cased text contains "live"; completed when it contains "completed" but not "live"; else upcoming |
| CricketFeed.InningFor | src/lib/cricketDataService.ts:89-90 | the inning found is the first in list order whose label contains the team; none means no label contains it |
| CricketFeed.WinnerName | src/lib/cricketDataService.ts:88 | the winner is the first listed team the status contains when that name is non-empty, otherwise the status's first word; with no team contained it is the first word |
| CricketFeed.ResultSpec | src/lib/cricketDataService.ts:87-91 | a result exists exactly when the raw status contains "won"; its winner is as for the first contained team; with both team fields the runs margin is the first matching innings' runs difference (none when either innings is missing) and the wickets margin is 10 less team2's wickets (10 without its innings); otherwise both margins are 0 |
| CricketFeed.MapMatch | src/lib/cricketDataService.ts:72-92 | a record fails to map exactly when its name or date is missing, or its status contains "won" with both team fields but no score list; a mapped record keeps the id and kick-off text |
| CricketFeed.MapAll | src/lib/cricketDataService.ts:71-99 | mapping the array succeeds exactly when no record throws, and then yields one mapped record per input at the same index |
| CricketFeed.MapMatchShape | src/lib/cricketDataService.ts:72-92 | a mapped record keeps the upstream id, carries valid team keys and at least two team-info entries, and keeps the upstream team info when it had two |
| CricketFeed.FetchKeepsEveryRecord | src/lib/cricketDataService.ts:64-92 | a successful fetch returns exactly one well-formed record per upstream record, in order; the team-info filter drops nothing |
| CricketFeed.FetchLiveMatches | src/lib/cricketDataService.ts:25-109 | an unreachable listing is reported with its reason; otherwise the fetch succeeds exactly when every record maps, and then yields each record's mapping in order; a record that throws fails the whole fetch |
| LiveSync.InfoFor | src/lib/cricketDataService.ts:144-145 | the team info used is the first entry whose name is the key, and the empty object exactly when no entry has the key |
| LiveSync.UpsertTeamSpec | src/lib/cricketDataService.ts:147-169 | the name-keyed team upsert never duplicates a name; an existing row changes only its logo; a new row carries the key, the short-name fallback, the creation logo and year 2008 |
| LiveSync.UpsertTeamColumns | src/lib/cricketDataService.ts:147-169 | one team upsert: the key's row ends with logo `img`, or the creation logo when created without one; other rows are untouched and a stored row changes its logo only; a created row has the short-name fallback and year 2008 |
| LiveSync.UpsertRecordTeamsSpec | src/lib/cricketDataService.ts:147-169 | the team phase keeps the constraints, only appends teams, leaves both keys stored, and adds nothing when both were stored |
| LiveSync.RecordTeamColumns | src/lib/cricketDataService.ts:147-169 | team2's row ends with logo `img` (create and update both write `img || ''`); a distinct team1 ends with `img`, or "/default-team-logo.png" when created without one; created rows are the record's keys, with the short-name fallback and year 2008 |
| LiveSync.WinnerId | src/lib/cricketDataService.ts:207-209 | a winner id is the id of a team named exactly as the result's winner; none exactly when there is no result, the winner is empty, or no team has that name |
| LiveSync.KickoffOrNow | src/lib/cricketDataService.ts:187-202 | the kick-off written on create is the parsed `dateTimeGMT` when it is present and valid, else the current time |
| LiveSync.WriteMatchSpec | src/lib/cricketDataService.ts:182-221 | the id-keyed match upsert keeps the constraints and touches only matches; a stored id is updated with no row added; a create succeeds exactly when both re-normalized keys name stored teams; a failed create writes nothing |
| LiveSync.WriteMatchCreate | src/lib/cricketDataService.ts:184-212 | a create appends one row: the record's id and number, season 2025, the kick-off or now, the teams named by the re-normalized keys as home and away, completion from the status, not live, no venue, the winner looked up by name, and the record's margins |
| LiveSync.SyncRecordUpdate | src/lib/cricketDataService.ts:207-220 | re-syncing a stored id adds no row and leaves every other row untouched; that row changes only in completion (from the status), winner (the id of the team named as the winner, else kept), runs margin (the result's when defined, else kept) and wickets margin (the result's when there is a result, else kept) |
| LiveSync.SyncRecordValid | src/lib/cricketDataService.ts:135-231 | one loop iteration keeps the constraints, never drops or renames a row, and leaves users and participations alone |
| LiveSync.SyncRecordWellFormed | src/lib/cricketDataService.ts:135-231 | a mapped record never fails: it is written under its own id and afterwards its teams and match are stored |
| LiveSync.SyncRecordKnown | src/lib/cricketDataService.ts:135-231 | a record whose teams and match are already stored adds no row |
| LiveSync.SyncAllValid | src/lib/cricketDataService.ts:135-231 | the loop keeps the constraints, only appends rows, and counts every record as processed or failed |
| LiveSync.SyncAllWellFormed | src/lib/cricketDataService.ts:135-234 | over mapped records nothing fails: one returned row per record, in input order, with the record's id, and all teams and matches stored |
| LiveSync.SyncAllKnown | src/lib/cricketDataService.ts:135-231 | a batch of already-stored records adds no team and no match |
| LiveSync.SyncSpecFetched | src/lib/cricketDataService.ts:127-129 | for a listing that maps, the batch is rejected exactly when a record has an empty id, with the store unchanged; otherwise one row per record, in order |
| LiveSync.ResyncAddsNoRows | src/lib/cricketDataService.ts:147-221 | running the sync twice on the same listing: the second run adds no team and no match |
| LiveSync.SyncSpec | src/lib/cricketDataService.ts:112-251 | an error leaves every table as it was; a listing that cannot be fetched or mapped is reported as a fetch failure |
| LiveSync.SyncLiveMatchesWithDB | src/lib/cricketDataService.ts:112-251 | the method's new store and result are those of the specification function, and the store's constraints hold afterwards |
| CronSync.CronNeedsSecret | src/app/api/cron/sync-matches/route.ts:7-10 | without a set, non-empty secret the sync never runs: the store is untouched and the answer is a 500 with the setting's message |
| CronSync.CronSecretValueIrrelevant | src/app/api/cron/sync-matches/route.ts:7-10 | any two non-empty secrets give the same result: no request value is compared with the secret |
| CronSync.CronReportsSync | src/app/api/cron/sync-matches/route.ts:13-26 | with the secret set, success and status 200 hold exactly when the sync succeeds, with the synced count equal to its row count; otherwise a 500 carries the sync's message and the store is unchanged |
| CronSync.CronCountsEveryRecord | src/app/api/cron/sync-matches/route.ts:13-19 | for a feed whose records all map and carry an id, the reported count is the number of upstream records |
| CronSync.CronStatuses | src/app/api/cron/sync-matches/route.ts:15-26 | every response is a 200 success or a 500 failure |
| CronSync.CronGet | src/app/api/cron/sync-matches/route.ts:4-28 | the handler's new store and response are those of the specification function, and the constraints hold afterwards |
| SeriesSync.OrdinalFrom | src/app/api/sync-matches/route.ts:96 | the position returned is the leftmost match of the ordinal pattern at or after the start; none means no position matches |
| SeriesSync.OrdinalNumberSpec | src/app/api/sync-matches/route.ts:96-97 | the match number is read at the leftmost match of the pattern, and is 0 when it never matches |
| SeriesSync.OrdinalNumberExamples | src/app/api/sync-matches/route.ts:95-97 | "3rd Match" gives 3 and "Final" gives 0 |
| SeriesSync.FirstMarginAt | src/app/api/sync-matches/route.ts:124-126 | the position returned is the leftmost match of the margin pattern; none exactly when no position matches |
| SeriesSync.Margin | src/app/api/sync-matches/route.ts:124-126 | a margin is read exactly when the case-insensitive pattern matches somewhere in the status, and then it is the digits captured at the leftmost match |
| SeriesSync.RunsMarginExample | src/app/api/sync-matches/route.ts:124 | "won by 23 runs" gives a 23-run margin |
| SeriesSync.WicketsMarginExample | src/app/api/sync-matches/route.ts:125 | "Won by 4 wkts" gives a 4-wicket margin, matched case-insensitively |
| SeriesSync.Initials | src/app/api/sync-matches/route.ts:198-202 | the initials are the first characters of the non-empty words, in order |
| SeriesSync.FindTeam | src/app/api/sync-matches/route.ts:186-193 | the team found is the first whose name or short name equals the input; none exactly when no team has either |
| SeriesSync.FindOrCreateTeamSpec | src/app/api/sync-matches/route.ts:184-214 | an existing team is returned with nothing written; otherwise one team is appended, named by the input, with upper-cased initials, no logo and year 2008 |
| SeriesSync.EntryTeamsSpec | src/app/api/sync-matches/route.ts:92-94 | the two team lookups keep the constraints, only append teams, leave both names findable, and write nothing when both were findable already |
| SeriesSync.LiveFlag | src/app/api/sync-matches/route.ts:100-101 | a match is never flagged live and completed together |
| SeriesSync.VerdictSpec | src/app/api/sync-matches/route.ts:116-145 | a winner only for a completed match with a status naming a team; home before away; at most one margin, runs first; never a margin without a winner |
| SeriesSync.NumberRow | src/app/api/sync-matches/route.ts:148-153 | the row found is the first season row with the number; none exactly when there is none |
| SeriesSync.UpsertByNumberSpec | src/app/api/sync-matches/route.ts:147-165 | when a season row with the number exists, the first one, and no other row, takes every defined column, keeping its id and every undefined column, and no row is added; otherwise one row with a fresh id and exactly the derived columns is appended; match ids stay distinct |
| SeriesSync.SyncEntryOutcome | src/app/api/sync-matches/route.ts:85-89 | an entry is skipped exactly when it has no id or fewer than two teams, and stops the loop exactly when its date is invalid |
| SeriesSync.SyncEntryValid | src/app/api/sync-matches/route.ts:83-168 | one iteration keeps the constraints, only appends teams, and keeps every match row's id, number and season |
| SeriesSync.SyncEntryKnown | src/app/api/sync-matches/route.ts:83-168 | a written entry leaves its teams and its (number, season) row stored; a skipped one changes nothing; a known one adds no row |
| SeriesSync.LoopSkips | src/app/api/sync-matches/route.ts:85-89 | a skipped entry leaves the tables and the count as they were |
| SeriesSync.LoopWrites | src/app/api/sync-matches/route.ts:92-167 | a written entry applies its writes and adds one to the count |
| SeriesSync.LoopAborts | src/app/api/sync-matches/route.ts:104-107 | an entry with an invalid date turns the running count into that entry's error, after its team writes |
| SeriesSync.LoopStops | src/app/api/sync-matches/route.ts:104-107 | an entry with an invalid date ends the run with that error, keeping the writes made before it |
| SeriesSync.AbortSticks | src/app/api/sync-matches/route.ts:174-180 | once the loop has stopped, later entries change nothing |
| SeriesSync.SyncEntriesCount | src/app/api/sync-matches/route.ts:80-167 | the run succeeds exactly when every eligible entry has a valid date, and then counts exactly the eligible entries; a stopped run carries an invalid-date error |
| SeriesSync.SyncEntriesValid | src/app/api/sync-matches/route.ts:83-168 | the loop keeps the constraints, only appends teams, and keeps every row's keys |
| SeriesSync.SyncEntriesKnown | src/app/api/sync-matches/route.ts:83-168 | a run that reaches the end leaves every eligible entry's teams and row stored |
| SeriesSync.SyncEntriesNoGrowth | src/app/api/sync-matches/route.ts:83-168 | entries that are all already stored add no row |
| SeriesSync.SeriesResyncAddsNoRows | src/app/api/sync-matches/route.ts:147-165 | after a successful run, running again on the same listing adds no team and no match |
| SeriesSync.BuildMatchData | src/app/api/sync-matches/route.ts:95-145 | the match data built by assignment equals the derived record: number, date, flags, venue, winner and margins |
| SeriesSync.SeriesSpec | src/app/api/sync-matches/route.ts:59-181 | a failed listing fetch writes nothing and answers 500 with its message; every answer is a 200 success or a 500 failure |
| SeriesSync.SeriesReportsSync | src/app/api/sync-matches/route.ts:167-179 | for a fetched listing the answer is "Successfully synced N matches", N the number of eligible entries, exactly when every eligible entry has a valid date; otherwise the 500 with the invalid-date message |
| SeriesSync.SyncMatches | src/app/api/sync-matches/route.ts:59-181 | the handler's new store and response are those of the specification function, and the constraints hold afterwards |
| AdminParticipation.RoundedAverage | src/app/admin/add-participation/actions.ts:82 | the result is the integer nearest to sum/n, with halves rounded up |
| AdminParticipation.RoundedAverageExamples | src/app/admin/add-participation/actions.ts:82 | 5/2 rounds to 3, -5/2 to -2, 7/3 to 2 and 8/3 to 3 |
| AdminParticipation.SumPointsBounds | src/app/admin/add-participation/actions.ts:79 | the sum of points lies between count times the lowest and count times the highest |
| AdminParticipation.RoundedAverageBounds | src/app/admin/add-participation/actions.ts:82 | the rounded mean of values within a range stays within that range |
| AdminParticipation.RowsOf | src/app/admin/add-participation/actions.ts:68-72 | the rows read are exactly the user's rows |
| AdminParticipation.SkillScore | src/app/admin/add-participation/actions.ts:75-85 | a user with no rows scores 0 |
| AdminParticipation.SkillScoreBounds | src/app/admin/add-participation/actions.ts:75-85 | the score lies between the user's lowest and highest points |
| AdminParticipation.SkillScoreConstant | src/app/admin/add-participation/actions.ts:75-85 | a user whose rows all carry the same points scores exactly that |
| AdminParticipation.AddParticipationValid | src/app/admin/add-participation/actions.ts:14-63 | the action keeps every uniqueness constraint, one row per (user, match) among them |
| AdminParticipation.AddParticipationRecords | src/app/admin/add-participation/actions.ts:16-50 | on success exactly one row holds the pair, with the form's points, rank and money; the update keeps the row's other columns; other rows are untouched |
| AdminParticipation.UpsertRecords | src/app/admin/add-participation/actions.ts:16-50 | after the find-then-update-or-create step exactly one row holds the pair, with the form's values, and the other rows are untouched |
| AdminParticipation.AddParticipationRescores | src/app/admin/add-participation/actions.ts:53-95 | on success only the submitting user's skill score changes, to the score of their rows after the upsert |
| AdminParticipation.AddParticipationFailures | src/app/admin/add-participation/actions.ts:60-63 | every failure carries the fixed message; a refused create writes nothing; a failed score update keeps the participation write |
| AdminParticipation.UpdateUserSkillScore | src/app/admin/add-participation/actions.ts:67-96 | the method writes the recomputed score when the user row exists and leaves the store as it was otherwise |
| AdminParticipation.UpsertParticipationRow | src/app/admin/add-participation/actions.ts:16-50 | the method updates the found row or appends a new one, and reports failure with the store unchanged when the create is refused |
| AdminParticipation.AddParticipation | src/app/admin/add-participation/actions.ts:6-64 | the action's new store and result are those of the specification function, and the constraints hold afterwards |
| ParticipationRoute.Validate | src/app/api/participations/route.ts:7-13 | the body passes exactly when the match id is a string, points are a number in 0..1000, both names are non-empty strings and the screenshot is absent, a URL or empty; the submission carries those values |
| ParticipationRoute.StoredScreenshot | src/app/api/participations/route.ts:78 | an empty screenshot is stored as none; any other is stored as given |
| ParticipationRoute.PostValid | src/app/api/participations/route.ts:71-85 | the insert keeps the constraints, one row per (user, match) among them |
| ParticipationRoute.RecordValid | src/app/api/participations/route.ts:71-85 | the store part of the handler keeps the constraints |
| ParticipationRoute.RecordRow | src/app/api/participations/route.ts:37-85 | the match, completion, duplicate and user checks and the insert give the store and response of the specification function, and the constraints hold afterwards |
| ParticipationRoute.NoSessionUnauthorized | src/app/api/participations/route.ts:17-21 | without a session the answer is 401 and nothing is written |
| ParticipationRoute.RejectionsWriteNothing | src/app/api/participations/route.ts:17-93 | every answer other than 201 leaves the store unchanged, and only a 201 carries a row |
| ParticipationRoute.BadInputRejected | src/app/api/participations/route.ts:26-32 | a body failing the schema is a 400 with nothing written |
| ParticipationRoute.MatchChecks | src/app/api/participations/route.ts:37-51 | a valid body for an unknown match is a 404, and for a completed match a 400 |
| ParticipationRoute.CreatesExactlyOne | src/app/api/participations/route.ts:54-85 | a 201 is answered exactly when every guard passes; it appends one row for the session user and the match, carrying the submitted values |
| ParticipationRoute.ResubmitConflicts | src/app/api/participations/route.ts:54-68 | sending the same accepted request again is a 409 |
| ParticipationRoute.Post | src/app/api/participations/route.ts:15-93 | the handler's new store and response are those of the specification function, and the constraints hold afterwards |
| Register.ValidateRegistration | src/app/api/auth/register/route.ts:7-12 | the body passes exactly when the name has at least 2 characters, the e-mail is valid, the username has at least 3 and the password at least 8 |
| Register.WithoutPassword | src/app/api/auth/register/route.ts:67-71 | the public user carries every modelled column of the row except the password |
| Register.RegisterValid | src/app/api/auth/register/route.ts:57-64 | registration keeps e-mails and usernames unique |
| Register.BadInputRejected | src/app/api/auth/register/route.ts:19-25 | a body failing the schema is a 400 with nothing written |
| Register.ConflictsInOrder | src/app/api/auth/register/route.ts:30-51 | a taken e-mail is the e-mail 409 whatever the username; a free e-mail with a taken username is the username 409; neither writes |
| Register.CreatesOneUser | src/app/api/auth/register/route.ts:57-64 | a 201 is answered exactly when the body is valid and e-mail and username are free; it appends one user with the submitted values and the hashed password |
| Register.ResponseOmitsPassword | src/app/api/auth/register/route.ts:67-71 | the response is the same whatever the hash function, and on 201 echoes the new row without its password |
| Register.ReRegisterConflicts | src/app/api/auth/register/route.ts:30-39 | registering the same body twice: the second attempt is the e-mail 409 |
| Register.RegisterPost | src/app/api/auth/register/route.ts:14-80 | the handler's new store and response are those of the specification function, and the constraints hold afterwards |
| Profile.Assign | src/app/api/profile/update/route.ts:37-46 | an absent field keeps the column, null clears it, and a string sets it |
| Profile.HolderElsewhere | src/app/api/profile/update/route.ts:21-27 | the row found holds the username under another e-mail; none exactly when no such row exists |
| Profile.ProfileValid | src/app/api/profile/update/route.ts:37-46 | the update keeps e-mails and usernames unique |
| Profile.NoSessionUnauthorized | src/app/api/profile/update/route.ts:9-14 | without a session e-mail the answer is 401 and nothing changes |
| Profile.TakenUsernameRejected | src/app/api/profile/update/route.ts:19-34 | a non-empty username that another e-mail holds is a 400 with nothing changed |
| Profile.UsernameCheckScope | src/app/api/profile/update/route.ts:19-34 | the 400 is answered exactly for a non-empty username that another e-mail holds |
| Profile.OwnUsernameAccepted | src/app/api/profile/update/route.ts:19-55 | re-submitting one's own username with string fields succeeds |
| Profile.NonEmptyUsernameNeverViolates | src/app/api/profile/update/route.ts:19-55 | a non-empty username that passed the lookup never trips the unique constraint |
| Profile.UpdatesOnlySessionRow | src/app/api/profile/update/route.ts:37-55 | only the session user's name, username and picture change, the response echoes exactly those, and any other answer leaves the store unchanged |
| Profile.ProfileUpdate | src/app/api/profile/update/route.ts:7-62 | the handler's new store and response are those of the specification function, and the constraints hold afterwards |
| MatchesRoute.TeamWithId | src/app/api/matches/route.ts:17-20 | the related team has the referenced id; none when no team has it |
| MatchesRoute.Views | src/app/api/matches/route.ts:13-29 | one view per season row, in the sorted order |
| MatchesRoute.EarlierDateStrict | src/app/api/matches/route.ts:26-28 | the date order is a strict order |
| MatchesRoute.SeasonInDateOrder | src/app/api/matches/route.ts:13-29 | exactly the season-2025 rows are listed, each once, in ascending date |
| MatchesRoute.ListsPartition | src/app/api/matches/route.ts:31-38 | every fixture is in exactly one of the two lists |
| MatchesRoute.ListsInDateOrder | src/app/api/matches/route.ts:31-38 | both lists keep ascending date order |
| MatchesRoute.Classification | src/app/api/matches/route.ts:32-38 | a fixture is completed exactly when it is completed and dated before now; a completed fixture dated in the future stays current |
| MatchesRoute.ScoresAreTheSessionUsers | src/app/api/matches/route.ts:21-24 | scores appear only with a session, and then are exactly the session user's own, at most one per fixture |
| MatchesRoute.AtMostOneRow | src/app/api/matches/route.ts:21-24 | a valid participation table holds at most one row per (user, match) |
| Leaderboard.OrOne | src/components/Leaderboard.tsx:8-9 | a missing or zero match count counts as one; any other is kept |
| Leaderboard.OrZero | src/components/Leaderboard.tsx:21-22 | a missing amount counts as zero |
| Leaderboard.Ranked | src/components/Leaderboard.tsx:6-23 | the sorted copy holds exactly the input users |
| Leaderboard.AheadIsLexicographic | src/components/Leaderboard.tsx:6-23 | the comparator is descending lexicographic order on weighted score, average points and net money |
| Leaderboard.AheadIsStrictOrder | src/components/Leaderboard.tsx:6-23 | the comparator is irreflexive and transitive |
| Leaderboard.RankedOrder | src/components/Leaderboard.tsx:6-23 | down the table the weighted score never rises; within equal scores the average never rises; within equal both the net money never rises |
| Leaderboard.DisplayName | src/components/Leaderboard.tsx:75 | the displayed name is never empty |
| Leaderboard.Rows | src/components/Leaderboard.tsx:58-104 | one row per user, row i rendering the i-th ranked user |
| Leaderboard.RowsRankedAndOrdered | src/components/Leaderboard.tsx:58-104 | ranks run 1..n, displayed weighted scores never rise, and net money is gained minus lost |
| Leaderboard.NoMatchesCountsOnce | src/components/Leaderboard.tsx:8-9 | a user with no recorded matches is weighted by the skill score alone |
| Navigation.ActiveMeansAtOrBelow | src/app/components/Navigation.tsx:11-13 | a link is active exactly on its own path or a path below it, never on a null path |
| Navigation.SiblingNotActive | src/app/components/Navigation.tsx:11-13 | "/matchesX" does not light "/matches", while "/matches" and "/matches/12" do |
| Navigation.HomeOnlyAtRoot | src/app/components/Navigation.tsx:53-54 | the Home link is lit on "/" only; the bare check holds on "//…" paths and not on "/matches" |
| Navigation.DifferentSecondChar | src/app/components/Navigation.tsx:11-13 | a path whose second character differs from the link's is not under it |
| Navigation.OneSectionAtATime | src/app/components/Navigation.tsx:119-133 | on any page at most one section link is lit |
| Store.TeamNamed | src/lib/cricketDataService.ts:147-150 | the row found has the name; none exactly when no row has it |
| Store.MatchWithId | src/app/api/participations/route.ts:37-39 | the row found has the id; none exactly when no row has it |
| Store.UserWithEmail | src/app/api/auth/register/route.ts:30-32 | the row found has the e-mail; none exactly when no row has it |
| Store.UserWithUsername | src/app/api/auth/register/route.ts:42-44 | the row found has the username; none exactly when no row has it |
| Store.ParticipationOf | src/app/admin/add-participation/actions.ts:16-23 | the row found has the pair; none exactly when no row has it |
| Store.ParticipationAppendValid | src/app/api/participations/route.ts:71-85 | a row with the next id for a (user, match) pair not yet present keeps the constraints |
| Store.SkillScoreUpdateValid | src/app/admin/add-participation/actions.ts:88-95 | changing a skill score keeps the constraints |
| Store.FreshMatchId | src/app/api/sync-matches/route.ts:162-164 | a generated match id differs from every stored id |

## Left out

- HTTP: the request to the upstream API, its key and timeout, and the 401, non-ok and bad-envelope branches. The listing is an input that carries either the records or the reason the request failed.
- `time` (the `toLocaleTimeString` column) and the console logging.
- Date parsing and the clock: `new Date(...)` is the parameter `parseDate`; the request time is `now`.
- Password hashing, and the e-mail and URL checks of the schema library: they are parameters. The session lookup is an input.
- Transactions. In the live sync, a failure inside the transaction body happens before any write or is caught per record, so there is nothing to roll back. The 15-second timeout is not modelled. The database-level abort a failed statement causes inside a real transaction is not modelled either.
- Concurrency between requests. The check-then-insert races the database resolves with its unique constraints are out.
- `POST /api/sync-matches` and every other route and page outside the reconciliation core, plus `revalidatePath`.
- Floating point. Points, margins and averages are integers. The NaN margin that the live sync computes when a score line is missing is carried as `None`. The leaderboard's average column is an integer.
- CricketFeed.MapMatch: a record missing `name` or `date` makes the whole fetch fail, rather than modelling which JavaScript error is raised.
- LiveSync.SyncLiveMatchesWithDB: the error texts of the store's own failures are not modelled, only the fact that the record failed.
- SeriesSync.SyncMatches: an invalid date is the only store error modelled. Other failures of the store are out. The 500 answered for an invalid date carries the error message the store raises; the model writes one fixed text (`ErrorText`) in its place, which stands for that message and is not its exact wording, which also differs between the update and the create.
- AdminParticipation.AddParticipation: form values are taken as parsed numbers; a `NaN` from `parseInt` is not modelled.
- MatchesRoute.MatchesGet: the 500 answered when the store fails is not modelled. Rows with equal dates keep table order, which the store does not promise.
- Leaderboard.Ranked: every user is taken to carry a numeric average. A user without one makes the comparator's average difference NaN, which the sort treats as a tie, and with a mix of users with and without an average the order the language produces is unspecified; `RankedOrder` and `Rows` state nothing about such inputs.
- Leaderboard: the styling, the avatar and the `@username` line are out. Users equal on all three keys keep their input order, as the language's stable sort does.
- Navigation: only the active-link rule is modelled, not the rendering or the mobile menu's state.
- Case mapping: `toLowerCase` and `toUpperCase` are modelled on ASCII letters only (src/lib/cricketDataService.ts:75-76, 86 and 174-175; src/app/api/sync-matches/route.ts:124-126 and 198-202), where the language maps every Unicode letter.
- String lengths: the language counts UTF-16 code units (the three-letter short-name prefix, the schema library's minimum lengths), while the model's strings are sequences of Unicode characters; they differ only outside the Basic Multilingual Plane.
- Schema defaults: the schema file is not part of this model. A created participation is given no rank and zero money gained and lost (src/app/api/participations/route.ts:71-80); a registered user is given no profile picture and a skill score of 0 (src/app/api/auth/register/route.ts:57-64); a created live-sync match is not live.
- Store.User: the `role` column (USER or ADMIN) and any other schema column outside `Store.User` are not modelled, so the user echoed by registration omits them.
- Store: every `findFirst` returns the first row in table order, where the store gives no order without `orderBy`.
