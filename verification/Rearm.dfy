/** Which dates the sent rows carry, and what an edit of an expiration date therefore re-arms. */
module Rearm {
  import opened Calendar
  import opened Domain
  import opened FiniteSets
  import opened Tables
  import opened Evaluator
  import opened Scheduler

  /** Every sent row names existing rows (the two foreign keys). */
  ghost predicate References(db: Tables) {
    forall k :: k in db.sent ==> k.accountId in db.accounts && k.thresholdId in db.thresholds
  }

  /** Every sent row names existing rows and carries its account's current date. */
  ghost predicate CurrentDates(db: Tables) {
    References(db) && forall k :: k in db.sent ==> k.date == db.accounts[k.accountId].expiration
  }

  /** What form-shaped inputs leave behind. */
  ghost predicate StoredShape(db: Tables) {
    forall id :: id in db.accounts ==>
      var a := db.accounts[id];
      if a.doesNotExpire then a.expiration == NEVER_EXPIRES else a.expiration != ZERO_DATE
  }

  // ----- Exactly which steps break the date invariant -----

  /** A key that was read before an edit is recorded after it. */
  ghost predicate RecordsStaleDate(s: State, step: Step)
    requires Enabled(s, step)
  {
    step.Record? && step.written &&
    var k := KeyOf(s.pc.pending[s.pc.next]);
    RecordSucceeds(s.db, k) && k.accountId in s.db.accounts && k.date != s.db.accounts[k.accountId].expiration
  }

  /** The stored date changes, but the input's own date equals the old one, so the transaction
      sees no change and keeps the account's rows. */
  ghost predicate MissesDateChange(s: State, step: Step) {
    step.UpdateAccount? && UpdateSucceeds(s.db, step.id, step.input) &&
    var was := s.db.accounts[step.id].expiration;
    && step.input.expiration == was
    && StoredExpiration(step.input) != was
    && exists k :: k in s.db.sent && k.accountId == step.id
  }

  /** A step from a state with current dates leaves a stale one exactly in these two cases. */
  lemma StepKeepsDatesExactly(s: State, step: Step)
    requires Enabled(s, step) && Keyed(s.db) && CurrentDates(s.db)
    ensures CurrentDates(Apply(s, step).db) <==> !RecordsStaleDate(s, step) && !MissesDateChange(s, step)
  {
    var db' := Apply(s, step).db;
    if RecordsStaleDate(s, step) {
      assert KeyOf(s.pc.pending[s.pc.next]) in db'.sent;
    } else if MissesDateChange(s, step) {
      var k :| k in s.db.sent && k.accountId == step.id;
      assert k in db'.sent;
    }
  }

  // ----- Undisturbed checks -----

  /** No edit falls between the steps of a check. */
  ghost predicate Undisturbed(run: Run)
    requires ValidRun(run)
  {
    forall i :: 0 <= i < |run.steps| && IsEdit(run.steps[i]) ==> run.states[i].pc.Idle?
  }

  ghost predicate FormInputs(run: Run) {
    && (forall i :: 0 <= i < |run.steps| && run.steps[i].CreateAccount? ==> FormShaped(run.steps[i].input))
    && (forall i :: 0 <= i < |run.steps| && run.steps[i].UpdateAccount? ==> FormShaped(run.steps[i].input))
  }

  ghost predicate PendingIsCurrent(db: Tables, now: int, pending: seq<Pending>) {
    forall p :: p in pending ==>
      && p.account.id in db.accounts && db.accounts[p.account.id] == p.account
      && p.threshold.id in db.thresholds && db.thresholds[p.threshold.id] == p.threshold
      && IsDue(now, p.account, p.threshold, {})
  }

  /** What the scheduler holds is what the tables hold. */
  ghost predicate ReadsAreCurrent(s: State) {
    match s.pc
    case Idle => true
    case HasPreferences(_, _) => true
    case HasAccounts(_, _, accts) => ListsAccounts(s.db, accts)
    case HasThresholds(_, _, accts, ts) => ListsAccounts(s.db, accts) && ListsThresholds(s.db, ts)
    case Sending(now, pending) => PendingIsCurrent(s.db, now, pending)
    case Recording(now, pending, _) => PendingIsCurrent(s.db, now, pending)
  }

  ghost predicate Consistent(s: State) {
    Keyed(s.db) && StoredShape(s.db) && CurrentDates(s.db) && ReadsAreCurrent(s)
  }

  lemma StepKeepsReadsCurrent(s: State, step: Step)
    requires Enabled(s, step) && ReadsAreCurrent(s) && (IsEdit(step) ==> s.pc.Idle?)
    ensures ReadsAreCurrent(Apply(s, step))
  {
    if step.ReadSent? {
      forall p | p in Due(s.pc.now, s.pc.accts, s.pc.ts, s.db.sent)
        ensures p.account in s.pc.accts && p.threshold in s.pc.ts && IsDue(s.pc.now, p.account, p.threshold, {})
      {
        DueMembership(s.pc.now, s.pc.accts, s.pc.ts, s.db.sent, p);
      }
    }
  }

  lemma StepKeepsConsistent(s: State, step: Step)
    requires Enabled(s, step) && Consistent(s) && (IsEdit(step) ==> s.pc.Idle?)
    requires step.CreateAccount? ==> FormShaped(step.input)
    requires step.UpdateAccount? ==> FormShaped(step.input)
    ensures Consistent(Apply(s, step))
  {
    StepKeepsReadsCurrent(s, step);
    StepKeepsDatesExactly(s, step);
    if step.Record? {
      assert s.pc.pending[s.pc.next] in s.pc.pending;
    }
  }

  /** With checks undisturbed and form-shaped inputs, every reachable state is consistent: in
      particular each sent row carries its account's current date. */
  lemma {:induction false} RunsStayConsistent(run: Run, n: nat)
    requires ValidRun(run) && Undisturbed(run) && FormInputs(run) && Consistent(run.states[0])
    requires n <= |run.steps|
    ensures Consistent(run.states[n])
  {
    if n > 0 {
      RunsStayConsistent(run, n - 1);
      var (s, step) := (run.states[n - 1], run.steps[n - 1]);
      assert Enabled(s, step) && run.states[n] == Apply(s, step);
      StepKeepsConsistent(s, step);
    }
  }

  /** No row belongs to an account that never expires. */
  ghost predicate NeverExpiringUnannounced(db: Tables) {
    forall k :: k in db.sent && k.accountId in db.accounts ==> !db.accounts[k.accountId].doesNotExpire
  }

  lemma StepKeepsUnannounced(s: State, step: Step)
    requires Enabled(s, step) && Consistent(s) && NeverExpiringUnannounced(s.db) && (IsEdit(step) ==> s.pc.Idle?)
    requires step.CreateAccount? ==> FormShaped(step.input)
    requires step.UpdateAccount? ==> FormShaped(step.input)
    ensures NeverExpiringUnannounced(Apply(s, step).db)
  {
    if step.Record? {
      assert s.pc.pending[s.pc.next] in s.pc.pending;
    }
  }

  /** Under the same hypotheses an account that never expires has no rows, whatever it was before. */
  lemma {:induction false} RunsKeepNeverExpiringUnannounced(run: Run, n: nat)
    requires ValidRun(run) && Undisturbed(run) && FormInputs(run) && Consistent(run.states[0])
    requires NeverExpiringUnannounced(run.states[0].db) && n <= |run.steps|
    ensures NeverExpiringUnannounced(run.states[n].db)
  {
    if n > 0 {
      RunsKeepNeverExpiringUnannounced(run, n - 1);
      RunsStayConsistent(run, n - 1);
      var (s, step) := (run.states[n - 1], run.steps[n - 1]);
      assert Enabled(s, step) && run.states[n] == Apply(s, step);
      StepKeepsUnannounced(s, step);
    }
  }

  // ----- How many rows there can be -----

  ghost function Pairs(sent: set<SentKey>): set<(int, int)> {
    set k | k in sent :: (k.accountId, k.thresholdId)
  }

  lemma {:induction false} PairsDetermineKeys(sent: set<SentKey>)
    requires forall k, l | k in sent && l in sent && k.accountId == l.accountId && k.thresholdId == l.thresholdId ::
               k == l
    ensures |Pairs(sent)| == |sent|
  {
    if sent == {} {
      assert Pairs(sent) == {};
    } else {
      var k :| k in sent;
      PairsDetermineKeys(sent - {k});
      assert Pairs(sent) == Pairs(sent - {k}) + {(k.accountId, k.thresholdId)};
      assert (k.accountId, k.thresholdId) !in Pairs(sent - {k});
    }
  }

  /** One row per account and threshold at most. */
  lemma SentTableIsBounded(db: Tables)
    requires CurrentDates(db)
    ensures |db.sent| <= |db.accounts| * |db.thresholds|
  {
    var (accounts, thresholds) := (db.accounts.Keys, db.thresholds.Keys);
    assert |accounts| == |db.accounts| && |thresholds| == |db.thresholds|;
    PairsDetermineKeys(db.sent);
    ProductSize(accounts, thresholds);
    SubsetSize(Pairs(db.sent), Product(accounts, thresholds));
  }

  // ----- Re-arming -----

  /** What an update that changes the stored date makes due: for each threshold, nothing but a row that
      already names it with the new date stands in the way. */
  lemma DueAfterDateChange(db: Tables, id: int, input: Input, at: int, now: int, accts: seq<Account>,
          ts: seq<Threshold>, t: Threshold)
    requires Keyed(db) && UpdateSucceeds(db, id, input) && StoredExpiration(input) != db.accounts[id].expiration
    requires ListsAccounts(AfterUpdate(db, id, input, at), accts) && ListsThresholds(db, ts)
    ensures var db' := AfterUpdate(db, id, input, at);
            Pending(db'.accounts[id], t) in Due(now, accts, ts, db'.sent)
            <==> && !input.doesNotExpire && t in ts && t.enabled && Triggered(now, input.expiration, t.daysBefore)
                 && SentKey(id, t.id, input.expiration) !in db.sent
  {
    var db' := AfterUpdate(db, id, input, at);
    DueMembership(now, accts, ts, db'.sent, Pending(db'.accounts[id], t));
  }

  /** Everything the account's enabled thresholds call for at `now`, sent before or not, is due. */
  ghost predicate IsRearmed(now: int, a: Account, ts: seq<Threshold>, due: seq<Pending>) {
    forall t :: t in ts && IsDue(now, a, t, {}) ==> Pending(a, t) in due
  }

  /** An update that changes the stored date re-arms the account if and only if the account no longer
      expires, or no triggered threshold was announced for the new date before. */
  lemma DateChangeRearmsExactly(db: Tables, id: int, input: Input, at: int, now: int, accts: seq<Account>,
          ts: seq<Threshold>)
    requires Keyed(db) && UpdateSucceeds(db, id, input) && StoredExpiration(input) != db.accounts[id].expiration
    requires ListsAccounts(AfterUpdate(db, id, input, at), accts) && ListsThresholds(db, ts)
    ensures var db' := AfterUpdate(db, id, input, at);
            IsRearmed(now, db'.accounts[id], ts, Due(now, accts, ts, db'.sent))
            <==> || input.doesNotExpire
                 || forall t :: t in ts && t.enabled && Triggered(now, input.expiration, t.daysBefore) ==>
                      SentKey(id, t.id, input.expiration) !in db.sent
  {
    forall t {
      DueAfterDateChange(db, id, input, at, now, accts, ts, t);
    }
  }

  /** At every time from then on, as long as nothing else is written, if and only if the account no
      longer expires or no enabled threshold was announced for the new date before. */
  lemma DateChangeRearmsForGood(db: Tables, id: int, input: Input, at: int, accts: seq<Account>, ts: seq<Threshold>)
    requires Keyed(db) && UpdateSucceeds(db, id, input) && StoredExpiration(input) != db.accounts[id].expiration
    requires ListsAccounts(AfterUpdate(db, id, input, at), accts) && ListsThresholds(db, ts)
    ensures var db' := AfterUpdate(db, id, input, at);
            (forall now :: IsRearmed(now, db'.accounts[id], ts, Due(now, accts, ts, db'.sent)))
            <==> || input.doesNotExpire
                 || forall t :: t in ts && t.enabled ==> SentKey(id, t.id, input.expiration) !in db.sent
  {
    var db' := AfterUpdate(db, id, input, at);
    forall now {
      DateChangeRearmsExactly(db, id, input, at, now, accts, ts);
    }
    if t :| t in ts && t.enabled && SentKey(id, t.id, input.expiration) in db.sent {
      var now := (DayNumber(input.expiration) - t.daysBefore) * NANOS_PER_DAY;
      assert Triggered(now, input.expiration, t.daysBefore);
      assert input.doesNotExpire || !IsRearmed(now, db'.accounts[id], ts, Due(now, accts, ts, db'.sent));
    }
  }

  /** Consistent tables hold no row for a date that the account does not have. */
  lemma NoRowForNewDate(db: Tables, k: SentKey)
    requires CurrentDates(db) && k.accountId in db.accounts && k.date != db.accounts[k.accountId].expiration
    ensures k !in db.sent
  {
  }

  /** With checks undisturbed and form-shaped inputs, then, every change of the stored date re-arms:
      exactly the enabled, triggered thresholds are due, whatever was sent for the account before. */
  lemma DateChangeRearms(run: Run, n: nat, now: int, accts: seq<Account>, ts: seq<Threshold>, t: Threshold)
    requires ValidRun(run) && Undisturbed(run) && FormInputs(run) && Consistent(run.states[0])
    requires n < |run.steps| && run.steps[n].UpdateAccount?
    requires var (db, step) := (run.states[n].db, run.steps[n]);
             UpdateSucceeds(db, step.id, step.input) && StoredExpiration(step.input) != db.accounts[step.id].expiration
    requires ListsAccounts(run.states[n + 1].db, accts) && ListsThresholds(run.states[n + 1].db, ts)
    ensures var (db', step) := (run.states[n + 1].db, run.steps[n]);
            && IsRearmed(now, db'.accounts[step.id], ts, Due(now, accts, ts, db'.sent))
            && (Pending(db'.accounts[step.id], t) in Due(now, accts, ts, db'.sent)
                <==> t in ts && IsDue(now, db'.accounts[step.id], t, {}))
  {
    RunsStayConsistent(run, n);
    var (db, step) := (run.states[n].db, run.steps[n]);
    assert Enabled(run.states[n], step) && run.states[n + 1] == Apply(run.states[n], step);
    if !step.input.doesNotExpire {
      forall t: Threshold {
        NoRowForNewDate(db, SentKey(step.id, t.id, step.input.expiration));
      }
    }
    DateChangeRearmsExactly(db, step.id, step.input, step.at, now, accts, ts);
    DueAfterDateChange(db, step.id, step.input, step.at, now, accts, ts, t);
  }

  // ----- New rows -----

  /** A threshold just added is due for every expiring account whose trigger has been reached. */
  lemma NewThresholdIsDue(db: Tables, id: int, daysBefore: int, now: int, accts: seq<Account>, ts: seq<Threshold>,
          a: Account)
    requires References(db) && id !in db.thresholds
    requires forall x :: x in db.thresholds ==> db.thresholds[x].daysBefore != daysBefore
    requires var db' := AfterAddThreshold(db, id, daysBefore); ListsAccounts(db', accts) && ListsThresholds(db', ts)
    ensures var db' := AfterAddThreshold(db, id, daysBefore);
            && id in db'.thresholds
            && (Pending(a, db'.thresholds[id]) in Due(now, accts, ts, db'.sent)
                <==> a in accts && !a.doesNotExpire && Triggered(now, a.expiration, daysBefore))
  {
    var db' := AfterAddThreshold(db, id, daysBefore);
    DueMembership(now, accts, ts, db'.sent, Pending(a, db'.thresholds[id]));
  }

  /** An account just created is due for exactly the enabled thresholds whose trigger has been
      reached, unless it never expires. */
  lemma NewAccountIsDue(db: Tables, id: int, input: Input, at: int, now: int, accts: seq<Account>, ts: seq<Threshold>,
          t: Threshold)
    requires References(db) && id !in db.accounts && ValidKind(input.details.kind)
    requires var db' := AfterCreate(db, id, input, at); ListsAccounts(db', accts) && ListsThresholds(db', ts)
    ensures var db' := AfterCreate(db, id, input, at);
            && id in db'.accounts
            && (Pending(db'.accounts[id], t) in Due(now, accts, ts, db'.sent)
                <==> t in ts && t.enabled && !input.doesNotExpire && Triggered(now, input.expiration, t.daysBefore))
  {
    var db' := AfterCreate(db, id, input, at);
    DueMembership(now, accts, ts, db'.sent, Pending(db'.accounts[id], t));
  }
}
