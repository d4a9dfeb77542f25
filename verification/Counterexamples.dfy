/** Runs in which a key is announced twice or a changed date is not re-armed: one run for each cause
    that the theorems of AtMostOnce and Rearm leave open. */
module Counterexamples {
  import opened Calendar
  import opened Domain
  import opened Tables
  import opened Evaluator
  import opened Scheduler
  import opened AtMostOnce
  import opened Rearm

  // ----- One account and one threshold -----

  const THRESHOLD := Threshold(1, 30, true)

  function NewAccount(details: Details, date: Date): Account {
    CreatedAccount(1, Input(details, 0, date, false), 0)
  }

  function OneAccount(a: Account, sent: set<SentKey>): Tables {
    Tables(map[1 := a], map[1 := THRESHOLD], sent)
  }

  /** The instant at which the expiration date begins. */
  function Midnight(date: Date): int {
    DayNumber(date) * NANOS_PER_DAY
  }

  lemma SoleAccountIsDue(a: Account, sent: set<SentKey>)
    requires a.id == 1 && !a.doesNotExpire && SentKey(1, 1, a.expiration) !in sent
    ensures Due(Midnight(a.expiration), [a], [THRESHOLD], sent) == [Pending(a, THRESHOLD)]
    ensures ListsAccounts(OneAccount(a, sent), [a]) && ListsThresholds(OneAccount(a, sent), [THRESHOLD])
  {
    var now := Midnight(a.expiration);
    assert IsDue(now, a, THRESHOLD, sent);
    assert [THRESHOLD][..0] == [] && [a][..0] == [];
    assert DueForAccount(now, a, [THRESHOLD], sent) == [Pending(a, THRESHOLD)];
  }

  /** The run goes on with a check that sends the account's key and has yet to record it. */
  lemma Announce(run: Run, a: Account, sent: set<SentKey>) returns (longer: Run)
    requires ValidRun(run) && Last(run) == State(OneAccount(a, sent), Idle)
    requires a.id == 1 && !a.doesNotExpire && SentKey(1, 1, a.expiration) !in sent
    ensures ValidRun(longer) && run.states <= longer.states && run.steps <= longer.steps
    ensures |longer.steps| == |run.steps| + 5
    ensures forall i :: |run.steps| <= i < |longer.steps| ==> !IsEdit(longer.steps[i])
    ensures Sends(longer.states[|run.steps| + 4], longer.steps[|run.steps| + 4], SentKey(1, 1, a.expiration))
    ensures Last(longer) == State(OneAccount(a, sent), Recording(Midnight(a.expiration), [Pending(a, THRESHOLD)], 0))
  {
    SoleAccountIsDue(a, sent);
    longer := SendingCheck(run, Midnight(a.expiration), [a], [THRESHOLD]);
    assert KeyOf([Pending(a, THRESHOLD)][0]) == SentKey(1, 1, a.expiration);
  }

  /** The same check, with the key recorded. */
  lemma AnnounceAndRecord(run: Run, a: Account, sent: set<SentKey>) returns (longer: Run)
    requires ValidRun(run) && Last(run) == State(OneAccount(a, sent), Idle)
    requires a.id == 1 && !a.doesNotExpire && SentKey(1, 1, a.expiration) !in sent
    ensures ValidRun(longer) && run.states <= longer.states && run.steps <= longer.steps
    ensures |longer.steps| == |run.steps| + 6 && longer.steps[|run.steps| + 5] == Step.Record(true)
    ensures forall i :: |run.steps| <= i < |longer.steps| ==> !IsEdit(longer.steps[i])
    ensures Sends(longer.states[|run.steps| + 4], longer.steps[|run.steps| + 4], SentKey(1, 1, a.expiration))
    ensures Last(longer) == State(OneAccount(a, sent + {SentKey(1, 1, a.expiration)}), Idle)
  {
    var announced := Announce(run, a, sent);
    longer := Then(announced, Step.Record(true));
  }

  lemma StaysUndisturbed(run: Run, longer: Run)
    requires ValidRun(run) && ValidRun(longer) && run.states <= longer.states && run.steps <= longer.steps
    requires Undisturbed(run)
    requires forall i :: |run.steps| <= i < |longer.steps| && IsEdit(longer.steps[i]) ==> longer.states[i].pc.Idle?
    ensures Undisturbed(longer)
  {
  }

  // ----- One key announced twice -----

  /** The sent message names the key, and a later message names it again. */
  ghost predicate SentTwice(run: Run, i: nat, j: nat, k: SentKey) {
    && ValidRun(run) && i < j < |run.steps|
    && Sends(run.states[i], run.steps[i], k) && Sends(run.states[j], run.steps[j], k)
  }

  /** An insert that errors is only logged, and the next check sends the key again. */
  lemma SentAgainAfterFailedRecord(details: Details, date: Date) returns (run: Run)
    ensures SentTwice(run, 4, 10, SentKey(1, 1, date)) && run.steps[5] == Step.Record(false)
    ensures forall i :: 0 <= i < |run.steps| ==> !IsEdit(run.steps[i])
  {
    var a := NewAccount(details, date);
    var first := Announce(Start(OneAccount(a, {})), a, {});
    run := Announce(Then(first, Step.Record(false)), a, {});
  }

  /** So does the first check after a crash between sending and recording. */
  lemma SentAgainAfterCrash(details: Details, date: Date) returns (run: Run)
    ensures SentTwice(run, 4, 10, SentKey(1, 1, date)) && run.steps[5] == Crash
    ensures forall i :: 0 <= i < |run.steps| ==> !IsEdit(run.steps[i])
  {
    var a := NewAccount(details, date);
    var first := Announce(Start(OneAccount(a, {})), a, {});
    run := Announce(Then(first, Crash), a, {});
  }

  function Move(details: Details, date: Date): Step {
    Step.UpdateAccount(1, Input(details, 0, date, false), 0)
  }

  lemma MovedAccount(details: Details, before: Date, after: Date, sent: set<SentKey>)
    requires ValidKind(details.kind) && before != after
    ensures AfterUpdate(OneAccount(NewAccount(details, before), sent), 1, Move(details, after).input, 0)
            == OneAccount(NewAccount(details, after), Without(sent, 1, before))
  {
  }

  lemma MovedAwayAndBack(run: Run, details: Details, date: Date, other: Date) returns (longer: Run)
    requires ValidRun(run) && Last(run) == State(OneAccount(NewAccount(details, date), {SentKey(1, 1, date)}), Idle)
    requires Undisturbed(run) && ValidKind(details.kind) && date != other
    ensures ValidRun(longer) && Undisturbed(longer) && run.states <= longer.states
    ensures longer.steps == run.steps + [Move(details, other), Move(details, date)]
    ensures Last(longer) == State(OneAccount(NewAccount(details, date), {}), Idle)
  {
    MovedAccount(details, date, other, {SentKey(1, 1, date)});
    MovedAccount(details, other, date, {});
    var away := Then(run, Move(details, other));
    assert Last(away).db == OneAccount(NewAccount(details, other), {});
    longer := Then(away, Move(details, date));
    StaysUndisturbed(run, longer);
  }

  /** And so does the first check after the date was moved away and back. */
  lemma SentAgainAfterEdits(details: Details, date: Date, other: Date) returns (run: Run)
    requires ValidKind(details.kind) && date != other
    ensures SentTwice(run, 4, 12, SentKey(1, 1, date)) && Undisturbed(run)
    ensures run.steps[5..8] == [Step.Record(true), Move(details, other), Move(details, date)]
  {
    var (a, k) := (NewAccount(details, date), SentKey(1, 1, date));
    var recorded := AnnounceAndRecord(Start(OneAccount(a, {})), a, {});
    var back := MovedAwayAndBack(recorded, details, date, other);
    run := Announce(back, a, {});
    StaysUndisturbed(back, run);
  }

  // ----- A changed date that is not re-armed -----

  /** An enabled threshold of an expiring account that no check will ever find due. */
  ghost predicate NotRearmed(db: Tables) {
    && 1 in db.accounts && 1 in db.thresholds && !db.accounts[1].doesNotExpire && db.thresholds[1].enabled
    && forall now, accts, ts :: Pending(db.accounts[1], db.thresholds[1]) !in Due(now, accts, ts, db.sent)
  }

  lemma RecordedIsNotRearmed(a: Account, sent: set<SentKey>)
    requires a.id == 1 && !a.doesNotExpire && SentKey(1, 1, a.expiration) in sent
    ensures NotRearmed(OneAccount(a, sent))
  {
    forall now, accts, ts
      ensures Pending(a, THRESHOLD) !in Due(now, accts, ts, sent)
    {
      DueMembership(now, accts, ts, sent, Pending(a, THRESHOLD));
    }
  }

  /** An edit between reading and recording: a valid run with form-shaped inputs, from a consistent
      state, ends between checks with a row for a date the account no longer has. */
  lemma DisturbedCheckRecordsStaleDate(details: Details, before: Date, after: Date) returns (run: Run)
    requires ValidKind(details.kind)
    requires before != after && before != ZERO_DATE && after != ZERO_DATE
    ensures ValidRun(run) && FormInputs(run) && Consistent(run.states[0]) && !Undisturbed(run)
    ensures Last(run) == State(OneAccount(NewAccount(details, after), {SentKey(1, 1, before)}), Idle)
    ensures !CurrentDates(Last(run).db)
  {
    var a := NewAccount(details, before);
    var sent := Announce(Start(OneAccount(a, {})), a, {});
    var edited := Then(sent, Move(details, after));
    run := Then(edited, Step.Record(true));
    MovedAccount(details, before, after, {});
    assert Last(edited).db == OneAccount(NewAccount(details, after), {});
    assert IsEdit(run.steps[5]) && !run.states[5].pc.Idle?;
    assert SentKey(1, 1, before) in Last(run).db.sent;
  }

  /** A later edit back to that date, between checks, changes the stored date and re-arms nothing. */
  lemma StaleDateIsNotRearmed(details: Details, before: Date, after: Date) returns (run: Run, n: nat)
    requires ValidKind(details.kind)
    requires before != after && before != ZERO_DATE && after != ZERO_DATE
    ensures ValidRun(run) && FormInputs(run) && Consistent(run.states[0])
    ensures n + 1 == |run.steps| && run.states[n].pc.Idle? && run.steps[n] == Move(details, before)
    ensures run.states[n].db.accounts == map[1 := NewAccount(details, after)] && NotRearmed(Last(run).db)
  {
    var disturbed := DisturbedCheckRecordsStaleDate(details, before, after);
    run, n := Then(disturbed, Move(details, before)), |disturbed.steps|;
    MovedAccount(details, after, before, {SentKey(1, 1, before)});
    assert Last(run).db == OneAccount(NewAccount(details, before), {SentKey(1, 1, before)});
    RecordedIsNotRearmed(NewAccount(details, before), {SentKey(1, 1, before)});
  }

  lemma ZeroDateAwayAndBack(run: Run, details: Details) returns (longer: Run)
    requires ValidRun(run) && Undisturbed(run) && ValidKind(details.kind)
    requires Last(run) == State(OneAccount(NewAccount(details, ZERO_DATE), {SentKey(1, 1, ZERO_DATE)}), Idle)
    ensures ValidRun(longer) && Undisturbed(longer) && run.states <= longer.states
    ensures longer.steps
            == run.steps + [Step.UpdateAccount(1, Input(details, 0, ZERO_DATE, true), 0), Move(details, ZERO_DATE)]
    ensures var db := longer.states[|run.steps| + 1].db; 1 in db.accounts && db.accounts[1].expiration == NEVER_EXPIRES
    ensures Last(longer) == Last(run)
  {
    var away := Then(run, Step.UpdateAccount(1, Input(details, 0, ZERO_DATE, true), 0));
    longer := Then(away, Move(details, ZERO_DATE));
    assert Last(longer).db == Last(run).db;
    StaysUndisturbed(run, longer);
  }

  /** A real expiration date of 0001-01-01: after a check announced it, making the account never
      expire keeps the row, and moving the account back to that date does not re-arm it, although no
      edit disturbs a check. */
  lemma ZeroDateIsNotRearmed(details: Details) returns (run: Run)
    requires ValidKind(details.kind)
    ensures ValidRun(run) && Undisturbed(run) && Consistent(run.states[0])
    ensures |run.steps| == 9 && run.steps[0] == Step.CreateAccount(1, Input(details, 0, ZERO_DATE, false), 0)
    ensures Sends(run.states[5], run.steps[5], SentKey(1, 1, ZERO_DATE))
    ensures run.steps[6..] == [Step.Record(true), Step.UpdateAccount(1, Input(details, 0, ZERO_DATE, true), 0),
                               Move(details, ZERO_DATE)]
    ensures 1 in run.states[8].db.accounts && run.states[8].db.accounts[1].expiration == NEVER_EXPIRES
    ensures NotRearmed(Last(run).db)
  {
    var (a, k) := (NewAccount(details, ZERO_DATE), SentKey(1, 1, ZERO_DATE));
    var created := Then(Start(Tables(map[], map[1 := THRESHOLD], {})),
                        Step.CreateAccount(1, Input(details, 0, ZERO_DATE, false), 0));
    assert Last(created).db == OneAccount(a, {});
    var recorded := AnnounceAndRecord(created, a, {});
    StaysUndisturbed(created, recorded);
    run := ZeroDateAwayAndBack(recorded, details);
    RecordedIsNotRearmed(a, {k});
  }
}
