# Points Tracker: a verified model

Points Tracker keeps loyalty accounts with expiration dates in one SQLite file, mails a reminder when
a date comes near, limits login attempts, migrates its schema on start and keeps daily snapshots.
This project models the parts of it that keep a promise over time, and proves those promises for all
inputs and all runs.

- **Reminders** (`Domain`, `Evaluator`, `Tables`, `Scheduler`, `AtMostOnce`, `Rearm`, `Counterexamples`,
  `Checks`, `PointsTimestamp`, `AccountForm`). The tables for accounts, thresholds and sent
  notifications, the edits that web requests make, and a notification check whose reads, sending and
  inserts are separate statements between which edits may fall. `Scheduler.Run` is a run of that whole
  system.
- **Login limiter** (`RateLimit`, `LoginProtocol`, `LoginExtremes`). A lazily pruned, capped map that
  stands for a log which is never pruned, and the handler's protocol of asking first and recording
  later, with bounds that some runs reach.
- **Migrations** (`Relational`, `Migrations`, `Resumption`, `Upgrade`, `UpgradeTheorems`). A small
  relational database with CHECKs and cascading foreign keys, the runner with faults at every statement,
  and the scripts 0002-0004 as statements of that database.
- **Snapshots and sessions** (`Backup`, `Sessions`). Retention of the latest fourteen files, and expiry
  pruning that no look-up can notice and that cuts no session short.
- **Texts** (`TextOrder`, `Calendar`, `Timestamps`, `Trimming`, `Recipients`). The stored date and time
  texts order like the times they print; the recipient list survives both ways of showing it.
- **Tools** (`FiniteSets`, `Sorting`, `Wrappers`).

Faults are nondeterministic: a method that talks to the database, the mail server or the file system
takes a flag `healthy`, and unless it is set any statement may fail. The clock is a parameter, or, in
the limiter, an object whose readings never decrease. Instants are nanoseconds and day numbers count
from 0000-01-01.

Where the code and its comments differ, the model follows the code:

- `internal/notifications/model.go:1-3` says every combination is notified only once. The code sends it
  again after a re-arming edit, after a Record that errors and after a crash between Send and Record:
  `Counterexamples.SentAgainAfterEdits`, `SentAgainAfterFailedRecord` and `SentAgainAfterCrash` are runs
  that do. `AtMostOnce.AnnouncedExactly` says that these are the only ways, step by step and in both
  directions, and `AtMostOnce.CountsBalance` balances sends against them.
- `internal/accounts/service.go:9-14` says that a changed date always re-arms. The test compares the
  stored date with the input's own date, and a check may record a date that an edit has just replaced.
  `Rearm.DateChangeRearmsExactly` gives the exact condition: the account no longer expires, or no
  triggered threshold has a row for the new date. `Counterexamples.StaleDateIsNotRearmed` and
  `ZeroDateIsNotRearmed` are runs in which it fails, and `Rearm.StepKeepsDatesExactly` names the steps
  that lead there.
- `internal/auth/ratelimit.go:18-20` calls `maxKeys` a cap on tracked addresses. Allow stores an entry
  for every address it is asked about, so the cap holds for addresses with attempts, and the whole map
  may hold one more for each request in flight (`LoginProtocol.MapSizeBound`), as
  `LoginExtremes.MapSizeBoundIsReached` shows.
- `internal/notifications/store.go:40-42` calls Record safe because of the UNIQUE constraint. It still
  errors when the account or threshold is gone.

## Model

| member | source | states |
|---|---|---|
| Calendar.ParseInvertsFormat | internal/accounts/model.go:62-66 | A text parses to a date exactly when it is that date's printed form, for all dates of the years 0-9999 |
| Calendar.TextOrderIsCalendarOrder | internal/accounts/store.go:46-50 | Text order, calendar order and day-number order of dates are one order |
| Calendar.GregorianDates | internal/web/accounts_handlers.go:201-207 | A date is accepted exactly if it is one of the Gregorian calendar, by the lengths of the twelve months and the rule for leap days |
| Calendar.DayNumberInNumbers | internal/notifications/evaluator.go:40 | Day numbers in closed form for every date: whole years, their leap days, whole months, this year's leap day |
| Calendar.NextDateIsNextNumber | internal/notifications/evaluator.go:40 | Day numbers count single calendar steps, across month ends, year ends and leap days |
| Calendar.FormatInDigits | internal/accounts/model.go:62-66 | Each of the ten characters of a stored date |
| TextOrder.LessIsLexicographic | internal/accounts/store.go:46-50 | Texts compare by the first character that differs; a text precedes its continuations |
| TextOrder.ParseIntOfSigned | internal/web/accounts_handlers.go:184-187 | Digits give their number, "+" changes nothing, "-" negates, outside 64 bits there is an error |
| Trimming.TrimSpaceExactly | internal/web/accounts_handlers.go:178-179 | The result is the one trimmed text that the argument pads with spaces: nothing but the outer spaces goes |
| Timestamps.Rfc3339Order | internal/auth/store.go:104-108 | UTC texts of RFC 3339 compare as the seconds they print |
| Timestamps.ParseInvertsRfc3339 | internal/auth/store.go:88-91 | A text is read as a second exactly when it is the text that is stored for that second |
| Timestamps.Rfc3339InDigits | internal/auth/store.go:65-68 | Each character of a stored expiry, from the day number and the second of the day |
| Timestamps.FileStampIsCompact | internal/backup/backup.go:19-26 | The compact stamp is the RFC 3339 text of the same second with its separators removed |
| Timestamps.FileStampOrder | internal/backup/backup.go:19-26 | Compact UTC stamps compare as the seconds they print, and differ for different seconds |
| Evaluator.TextKeysAreFaithful | internal/notifications/evaluator.go:10-14 | Looking a formatted key up in the set agrees with scanning the sent list |
| Evaluator.Evaluate | internal/notifications/evaluator.go:25-52 | The nested loops over a hash set return exactly the specified sequence `Due`; a pair is in it if and only if both rows were given, the account expires, the threshold is enabled, the clock has reached midnight of the trigger day and its key was not sent |
| Evaluator.DuePositions | internal/notifications/evaluator.go:31-50 | `Due` lists, strictly account by account and within each by threshold, exactly the expiring, enabled, triggered and unrecorded pairs |
| Evaluator.DueMembership | internal/notifications/evaluator.go:31-50 | A pair is returned if and only if both rows were given and the pair is due |
| Evaluator.DueKeysAreDistinct | internal/notifications/evaluator.go:44-48 | With distinct ids no key is returned twice |
| Evaluator.DueNarrows | internal/notifications/evaluator.go:40-47 | An earlier clock or more sent rows leave the same list with pairs removed, in order |
| Evaluator.TriggeredByCalendar | internal/notifications/evaluator.go:40-41 | For every day count, the trigger has been reached exactly when stepping that many calendar days on from today in UTC reaches the expiration date or leaves the year 9999; for negative counts the steps are taken from the expiration date |
| Tables.Database.CreateAccount | internal/accounts/store.go:80-93 | One insert: a proper kind adds exactly the stated row, every column given, and changes no other; a bad kind or a fault leaves the tables alone |
| Tables.Database.UpdateAccount | internal/accounts/service.go:52-89 | One transaction: the whole update, or nothing after any fault, a missing row or a bad kind; after it every column of the account and the exact set of sent rows are as stated, and no other row differs |
| Tables.Database.DeleteAccount | internal/accounts/store.go:144-149 | The account goes together with exactly its own sent rows |
| Tables.Database.AddThreshold | internal/preferences/store.go:60-64 | The new threshold is stored enabled, or rejected without effect exactly if some row has its day count |
| Tables.Database.UpdateThreshold | internal/preferences/store.go:66-70 | The day count alone changes, or the call is rejected without effect exactly if another row has it; an unknown id changes nothing |
| Tables.Database.DeleteThreshold | internal/preferences/store.go:72-77 | The threshold goes together with exactly its own sent rows |
| Tables.Database.Record | internal/notifications/store.go:40-49 | The key is there afterwards, once; an error without effect exactly if it was not there and a parent row is missing |
| Tables.ListIsChronological | internal/accounts/store.go:44-50 | The list runs in order of dates and then of names, and the never-expires date follows every earlier one |
| Tables.ThresholdsAscend | internal/preferences/store.go:39-43 | Thresholds are listed by strictly increasing day counts |
| Scheduler.NotificationScheduler.CheckOnce | internal/notifications/scheduler.go:57-111 | What an undisturbed check records: nothing, or all pairs due but those whose insert failed; a healthy check with recipients sends and loses nothing |
| Scheduler.NotificationScheduler.RecordAll | internal/notifications/scheduler.go:106-110 | The record loop goes on after a failed insert and records every other key |
| Scheduler.ChecksBeginProperly | internal/notifications/scheduler.go:57-90 | In every run a message is sent or recorded only by a check that found recipients and something due |
| Scheduler.RunKeepsDaysUnique | internal/db/migrations/0001_init.sql:37-42 | In every run distinct thresholds keep distinct day counts |
| AtMostOnce.PendingIsUnrecorded | internal/notifications/scheduler.go:82-99 | In every run, no key of a message about to be sent is recorded |
| AtMostOnce.AnnouncedExactly | internal/notifications/scheduler.go:57-111 | At every step of every run a key is announced afterwards if and only if the step sends it, or it was announced and the step does not re-arm it; sends need keys not announced, re-arming needs announced ones |
| AtMostOnce.AtMostOnceBetweenRearms | internal/notifications/scheduler.go:57-111 | In every run, two successful sends of a key are separated by a step removing its row, a Record of it that errored, or a crash before it was recorded |
| AtMostOnce.CountsBalance | internal/notifications/scheduler.go:57-111 | Conservation in every run: sends of a key, and one if it was announced at the start, equal its re-armings, and one if it is announced now |
| AtMostOnce.SendsBoundedByRearms | internal/notifications/scheduler.go:57-111 | Over every run a key is sent at most once more often than it was re-armed |
| AtMostOnce.RowRemovalCauses | internal/accounts/service.go:68-72 | A row is removed exactly by moving its account off the recorded date, deleting the account or deleting the threshold |
| Rearm.StepKeepsDatesExactly | internal/accounts/service.go:68-72 | A step leaves every row on its account's current date if and only if it neither records a date already replaced nor misses a date change |
| Rearm.RunsStayConsistent | internal/accounts/service.go:52-89 | With checks undisturbed by edits and form-shaped inputs, in every reachable state each row names existing parents and carries the current date |
| Rearm.RunsKeepNeverExpiringUnannounced | internal/accounts/store.go:35-42 | Under the same hypotheses an account that never expires has no rows |
| Rearm.SentTableIsBounded | internal/db/migrations/0001_init.sql:44-51 | Then there are at most as many rows as accounts times thresholds |
| Rearm.DueAfterDateChange | internal/accounts/service.go:52-72 | After any update that changes the stored date, a threshold is due for the account if and only if the account expires, the threshold is enabled and triggered, and no row named it with the new date before |
| Rearm.DateChangeRearmsExactly | internal/accounts/service.go:45-72 | Such an update re-arms everything its enabled thresholds call for at a given time if and only if the account never expires or no triggered one of them had a row for the new date |
| Rearm.DateChangeRearmsForGood | internal/accounts/service.go:9-14 | It does so at all times if and only if the account never expires or no enabled threshold had such a row |
| Rearm.DateChangeRearms | internal/accounts/service.go:45-72 | In runs with undisturbed checks and form-shaped inputs every change of the stored date re-arms, and exactly the enabled, triggered thresholds are due |
| Rearm.NewThresholdIsDue | internal/preferences/store.go:60-64 | A threshold just added is due for exactly the expiring accounts whose trigger it has reached |
| Rearm.NewAccountIsDue | internal/accounts/store.go:80-93 | An account just created is due for exactly the enabled thresholds that have triggered, unless it never expires |
| Counterexamples.SentAgainAfterFailedRecord | internal/notifications/scheduler.go:106-110 | A run without edits that sends one key twice, with an errored Record between |
| Counterexamples.SentAgainAfterCrash | internal/notifications/scheduler.go:99-110 | A run without edits that sends one key twice, with a crash between sending and recording |
| Counterexamples.SentAgainAfterEdits | internal/accounts/service.go:68-72 | A run with undisturbed checks that sends one recorded key twice, its date moved away and back between |
| Counterexamples.DisturbedCheckRecordsStaleDate | internal/notifications/scheduler.go:99-110 | A run with form-shaped inputs in which an edit between Send and Record leaves a row for a replaced date |
| Counterexamples.StaleDateIsNotRearmed | internal/accounts/service.go:68-72 | That run, continued by an edit back to the replaced date between checks: the stored date changes, and the enabled threshold is not due at any time |
| Counterexamples.ZeroDateIsNotRearmed | internal/web/accounts_handlers.go:201-207 | A run with undisturbed checks in which a real date 0001-01-01 is announced and the account then moved to never and back: the threshold is not due at any time |
| Checks.CheckIsARun | internal/notifications/scheduler.go:57-111 | The steps of one sent check, run without interruption, end in the tables that CheckOnce leaves |
| Checks.RecordedSetIsScheduleIndependent | internal/notifications/scheduler.go:22-26 | Without edits, at any times and with any failed sends, the recorded set is the initial one plus what was due at the latest time of a sent check |
| Checks.EachKeyIsSentOnce | internal/notifications/scheduler.go:22-26 | Without edits, lost inserts and crashes while recording, each key is sent at most once |
| PointsTimestamp.PointsTimestampFollowsBalance | internal/accounts/service.go:74-78 | In every run the column is the time of the latest step that created the account or changed its balance |
| AccountForm.AcceptedForms | internal/web/accounts_handlers.go:173-221 | A form is accepted if and only if name, provider and owner are not blank, the points are a number from 0 to 2^63 - 1, the kind is one of four, and the never box is set or the date is in stored form |
| AccountForm.AcceptedContents | internal/web/accounts_handlers.go:209-220 | What an accepted form hands on, field by field |
| AccountForm.AcceptedInputs | internal/web/accounts_handlers.go:173-221 | Accepted inputs are trimmed, complete and of a listed kind, and form-shaped unless the date text is 0001-01-01 |
| AccountForm.ShownFormParses | internal/templates/accounts/helpers.go:47-58 | The edit form reads back the account it shows, except that a stored 0001-01-01 is shown and read as the day a year from now |
| AccountForm.ShownFormKeepsDate | internal/web/accounts_handlers.go:173-221 | Submitting it unchanged stores the same date if and only if that date is not 0001-01-01 or the day a year from now is |
| AccountForm.UnchangedFormChangesNothing | internal/accounts/service.go:52-81 | Submitting it unchanged alters only updated_at; rows stay exactly unless a never-expiring account has rows on its sentinel date |
| AccountForm.UnchangedFormRearmsNothing | internal/accounts/service.go:45-51 | In every reachable state it re-arms nothing |
| RateLimit.LoginLimiter.constructor | internal/auth/ratelimit.go:23-30 | Five attempts per minute for ten thousand addresses, none recorded |
| RateLimit.AfterPicks | internal/auth/ratelimit.go:97-103 | The filter keeps exactly the attempts after the cutoff, each once and in order |
| RateLimit.LoginLimiter.Allow | internal/auth/ratelimit.go:32-38 | Permits exactly while fewer than the maximum, counted one by one, are inside the window at its reading; prunes that address only |
| RateLimit.LoginLimiter.RecordFailure | internal/auth/ratelimit.go:40-57 | Cleans up at the cap, drops or appends, for any clock readings taken on the way |
| RateLimit.LoginLimiter.RecordSuccess | internal/auth/ratelimit.go:86-91 | Forgets the address |
| RateLimit.LoginLimiter.Cleanup | internal/auth/ratelimit.go:59-66 | Removes exactly the addresses without a live attempt |
| RateLimit.LoginLimiter.CleanupLocked | internal/auth/ratelimit.go:68-84 | The same, with keys visited in any order and a fresh reading for each |
| RateLimit.LoginLimiter.RecentLocked | internal/auth/ratelimit.go:93-105 | Returns and stores back the attempts inside the window |
| RateLimit.DropDecision | internal/auth/ratelimit.go:47-55 | A failure is dropped exactly when its address has no live attempt and the live addresses already fill the cap |
| RateLimit.DropBracket | internal/auth/ratelimit.go:70-84 | However the clock moves during a cleanup, the decision lies between the one at its first and the one at its last reading |
| RateLimit.AllowReply | internal/auth/ratelimit.go:34-38 | In a trace, Allow answers by that count of the map it finds |
| RateLimit.FailureReply | internal/auth/ratelimit.go:43-57 | In a trace, a failure counts exactly if its address is tracked afterwards |
| RateLimit.LimiterRefinesLog | internal/auth/ratelimit.go:34-105 | For every trace on a nondecreasing clock, answers and drops equal those of a log that keeps every counted failure since the last success |
| RateLimit.CleanupIsUnobservable | internal/auth/ratelimit.go:59-66 | Removing every Cleanup from a trace changes no answer and no drop |
| LoginProtocol.MapCappedAfterFailures | internal/auth/ratelimit.go:40-57 | In every run of the handler the whole map is within the cap right after each RecordFailure |
| LoginProtocol.MapSizeBound | internal/web/auth_handlers.go:25-49 | With k requests in flight the map has at most maxKeys + k addresses, at most maxKeys of them with attempts |
| LoginExtremes.MapSizeBoundIsReached | internal/auth/ratelimit.go:34-57 | For every configuration and every k some run of the handler reaches both bounds with k requests in flight |
| LoginProtocol.AllowCanExceedCap | internal/auth/ratelimit.go:34-38 | Asking about an address takes the map over the cap exactly if it was over or the address is new at the cap |
| LoginProtocol.SlidingWindowBound | internal/web/auth_handlers.go:25-49 | With at most K requests of an address in flight, at most maxAttempts - 1 + K of its attempts are ever inside a window |
| LoginExtremes.SlidingWindowBoundIsReached | internal/web/auth_handlers.go:25-49 | For every K from one on some run with at most K requests in flight reaches that number |
| Migrations.Connection.Migrate | internal/db/migrate.go:27-126 | After any faults the disk holds a whole first part of the pending list; success means all of it and intact foreign keys; enforcement is back on; each error has its cause |
| Migrations.VersionOfIs | internal/db/migrate.go:75-82 | A file has a version exactly if the text before its first underscore is that number |
| Migrations.Connection.PendingScripts | internal/db/migrate.go:62-90 | In ascending order exactly the scripts in the directory whose version is not recorded; an error exactly if some script has no version |
| Migrations.Connection.ApplyPending | internal/db/migrate.go:92-123 | Commits in order until one fails, then checks foreign keys |
| Migrations.Connection.ApplyOne | internal/db/migrate.go:98-112 | Script and version row together, or nothing |
| Resumption.PendingIsAscending | internal/db/migrate.go:71-90 | The pending list is strictly ascending and holds exactly the unrecorded scripts |
| Resumption.CommittedVersions | internal/db/migrate.go:106-112 | At every commit the recorded versions are the initial ones and those whose scripts were applied |
| Resumption.DiskFollowsOnePath | internal/db/migrate.go:92-113 | Over any series of interrupted calls the disk moves only forward along one list of commits |
| Resumption.CrashAndResumeEqualsOneRun | internal/db/migrate.go:27-126 | When a series ends in success, one uninterrupted call could have left the same disk if and only if the versions to apply were proper and distinct |
| Resumption.SuccessIsDetermined | internal/db/migrate.go:27-126 | Success leaves one possible disk: all pending scripts applied in order, their versions recorded |
| Relational.ScriptKeepsConstraints | internal/db/migrate.go:98-112 | No script that succeeds leaves a row that breaks a NOT NULL or a CHECK |
| Relational.RenameKeepsForeignKeys | internal/db/migrations/0002_free_text_owner.sql:8-27 | Renaming a table breaks no foreign key |
| Upgrade.Version1ForeignKeys | internal/db/migrations/0001_init.sql:13-51 | In a version-1 database foreign keys are intact exactly if each sent notification has its account and threshold and each session its user |
| Upgrade.Version1AccountRow | internal/db/migrations/0001_init.sql:22-34 | The account rows that version 1 admits, column by column |
| Upgrade.Version4AccountRow | internal/db/migrations/0004_program_kind_status_last_updated.sql:13-17 | The account rows that version 4 admits, column by column |
| Upgrade.Version3SettingsRow | internal/db/migrations/0003_drop_gmail.sql:9-30 | The email settings that version 3 admits, column by column |
| Upgrade.OwnerScript | internal/db/migrations/0002_free_text_owner.sql:8-27 | With enforcement off the rebuild changes the accounts schema and no row of any table |
| Upgrade.GmailScript | internal/db/migrations/0003_drop_gmail.sql:9-30 | The settings keep their key and SMTP columns, 'gmail' becomes 'none' |
| Upgrade.KindsScriptRuns | internal/db/migrations/0004_program_kind_status_last_updated.sql:13-17 | Three columns are added with their defaults and points_updated_at is backfilled from updated_at |
| Upgrade.UpgradeKeepsData | internal/db/migrations/0004_program_kind_status_last_updated.sql:13-17 | Over all three scripts: every account keeps id and columns, every other table is unchanged, the new columns have the stated values |
| Upgrade.UpgradedTablesConform | internal/db/migrations/0003_drop_gmail.sql:9-21 | Every row satisfies the new NOT NULL and CHECK constraints |
| UpgradeTheorems.UpgradePreservesData | internal/db/migrate.go:27-126 | From any version-1 database the shipped files cannot fail on a script or on integrity, and success keeps all data and records versions 1-4 |
| UpgradeTheorems.EnforcedUpgradeEmptiesSent | internal/db/migrate.go:17-26 | Were enforcement left on, 0002 would succeed and empty sent_notifications |
| Backup.SnapshotNameInText | internal/backup/backup.go:71 | The name is the compact text of the second between "points-" and ".db" |
| Backup.SnapshotNameOrder | internal/backup/backup.go:71 | Snapshot names sort by the second in which they were taken, and differ for different seconds |
| Backup.TopIsLatest | internal/backup/backup.go:112 | The greatest k names of any set of snapshots are the names of the k latest |
| Backup.TopSize | internal/backup/backup.go:114-117 | The top fourteen names are fourteen, or all if there are fewer |
| Backup.RemoveKeepsTop | internal/backup/backup.go:117-121 | Each single removal spares the top fourteen of everything ever written |
| Backup.BackupScheduler.Snapshot | internal/backup/backup.go:64-93 | Adds at most its own name, also when it reports an error; an existing name counts as done |
| Backup.BackupScheduler.Prune | internal/backup/backup.go:95-123 | At every exit the top fourteen ever written are present; on success nothing else is |
| Backup.BackupScheduler.RunOnce | internal/backup/backup.go:54-62 | The same for a whole run, with any clock reading and any fault: success leaves exactly the fourteen latest snapshots ever written, with the new one among them if and only if fewer than fourteen names are greater |
| Sessions.SessionStore.CreateSession | internal/auth/store.go:53-73 | Stores the expiry thirty days ahead as text; a duplicate token inserts nothing |
| Sessions.SessionStore.SessionByToken | internal/auth/store.go:75-96 | Found with user and second if and only if the row stores that user and the text of that second and it is not before the clock; unreadable exactly if the text prints no second; otherwise not found |
| Sessions.SessionStore.DeleteSession | internal/auth/store.go:98-102 | Revokes that token only |
| Sessions.SessionStore.DeleteExpiredSessions | internal/auth/store.go:104-108 | A row that stores the text of a second stays if and only if that second is not before the clock's; the rows that stay are unchanged |
| Sessions.PruningIsUnobservable | internal/auth/store.go:53-108 | For every trace with fresh tokens and a nondecreasing clock, every look-up answers as in a store that never prunes |
| Sessions.SessionLastsThirtyDays | internal/auth/store.go:53-108 | In every such trace, with prunings anywhere, a created session that is not logged out is found with its user exactly up to the second thirty days on, and not found afterwards |
| Sessions.LogOutEndsSession | internal/auth/store.go:98-102 | In every such trace a logged-out token is never found again unless it is created anew |
| Recipients.SplitEmails | internal/preferences/store.go:79-92 | For every text of items with any spaces around them, separated by commas, the result is the items that are not empty, in order |
| Recipients.EveryTextIsPadded | internal/preferences/store.go:79-92 | Every text is of that form |
| Recipients.JoinOfSplit | internal/preferences/store.go:84 | Splitting loses nothing: the parts are free of commas and join to the text again |
| Recipients.RecipientsAreProper | internal/web/render.go:28-41 | Whatever was entered, the items are trimmed, not empty and free of commas |
| Recipients.SplitUndoesJoin | internal/preferences/store.go:30-36 | Every proper list, joined by "," or ", ", splits into itself |
| Recipients.SavedAndShownListsAgree | internal/preferences/store.go:25-33 | Saving and loading, and resubmitting the shown form, keep the list |

## Left out

- HTTP routing, cookies, origin checks, proxy headers, templates and scripts: plumbing without lasting state.
- SMTP, sender construction and mail texts: a message is one step that is delivered or fails.
- Passwords, random tokens and SHA-256: tokens are fresh and sessions are kept under the token itself, the hash taken to be injective.
- Time zones: the preference only changes how `now` is displayed, and `Before` compares instants.
- `DistinctOwners`, email settings, admin bootstrap and configuration: one-step wrappers.
- Migration 0001 as statements: upgrades start from any database with its schema; a fresh install is covered by the theorems for arbitrary scripts.
- Default timestamps from `datetime('now')` inside scripts: a script is a function of the tables, so two runs agree up to such times.
- The row loops of `List`, `Thresholds` and `All`: they append what the query delivers; the model constrains the delivered sequence.
- The tickers of the two schedulers: a run may start a check or a snapshot at any time.
- Indexes, UNIQUE constraints of the rebuilt schema's other tables, and CHECKs on primary keys: no migration changes them, and no rebuild can violate them.
- Cascades over more than one table and inserts into tables that have foreign keys while enforcement is on: the schema and the scripts have none.
- The text columns of dates in `Tables`: rows hold dates, and `Calendar.ParseInvertsFormat` shows that storing the text loses nothing.
- The order in which SQLite returns rows with equal sort keys, and its choice of row ids: both arbitrary in the model, ids of deleted rows included.
- Day counts near the 64-bit limits, for which Go's date arithmetic wraps around: day counts and day numbers are unbounded integers.
- Snapshots and sessions in years after 9999: `IsSecond` and `InRange` ask for a clock with a four-digit year.
- Subdirectories of the backup directory, and a partial file after a failed VACUUM INTO: neither occurs in the modelled directory; any other file that was there at the start is treated like a snapshot, as the code does.
- Browser normalisation of submitted form texts: the form holds the texts that arrive.
- The mutex of the limiter and the single database connection: each call and each statement is one step.
- Timestamps.ParseRfc3339: reads the UTC form that the application writes and not the offsets and fractions that Go also accepts, because no other form is ever stored.
- Migrations.Connection.Migrate: says nothing about a failing `PRAGMA foreign_keys=ON`, which the code ignores as well.
- Tables.Database.CreateAccount: takes the new row id as a parameter, any id not in use, because SQLite chooses it.
- Scheduler.NotificationScheduler.CheckOnce: does not read the tables itself; the rows of the three queries are parameters that match the tables.
