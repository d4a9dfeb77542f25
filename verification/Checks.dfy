/** Whole checks: the imperative check is an undisturbed run of the state machine, and with the
    accounts and thresholds left alone neither the times of the checks nor failed sends matter. */
module Checks {
  import opened Domain
  import opened Tables
  import opened Evaluator
  import opened Scheduler
  import opened AtMostOnce
  import opened Rearm

  // ----- One check -----

  ghost predicate Executes(s: State, steps: seq<Step>, end: State)
    decreases |steps|
  {
    if steps == [] then s == end
    else Enabled(s, steps[0]) && Executes(Apply(s, steps[0]), steps[1..], end)
  }

  function RecordSteps(pending: seq<Pending>, lost: set<SentKey>): (steps: seq<Step>)
    ensures |steps| == |pending|
  {
    seq(|pending|, i requires 0 <= i < |pending| => Step.Record(KeyOf(pending[i]) !in lost))
  }

  lemma {:induction false} RecordsExecute(db: Tables, now: int, pending: seq<Pending>, next: nat, lost: set<SentKey>)
    requires next < |pending|
    requires forall k :: k in KeysOf(pending) ==> k.accountId in db.accounts && k.thresholdId in db.thresholds
    ensures Executes(State(db, Recording(now, pending, next)), RecordSteps(pending[next..], lost),
                     State(AfterCheck(db, pending[next..], lost), Idle))
    decreases |pending| - next
  {
    var (s, step) := (State(db, Recording(now, pending, next)), Step.Record(KeyOf(pending[next]) !in lost));
    var (steps, rest) := (RecordSteps(pending[next..], lost), pending[next + 1..]);
    assert pending[next..] == [pending[next]] + rest;
    assert KeysOf(pending[next..]) == {KeyOf(pending[next])} + KeysOf(rest);
    assert steps[0] == step && steps[1..] == RecordSteps(rest, lost);
    assert pending[next] in pending && KeyOf(pending[next]) in KeysOf(pending);
    var s' := Apply(s, step);
    if rest == [] {
      assert s'.db.sent == AfterCheck(db, pending[next..], lost).sent;
      assert RecordSteps(rest, lost) == [];
    } else {
      RecordsExecute(s'.db, now, pending, next + 1, lost);
      assert AfterCheck(s'.db, rest, lost).sent == AfterCheck(db, pending[next..], lost).sent;
    }
  }

  lemma ExecutesFirst(s: State, step: Step, rest: seq<Step>, end: State)
    requires Enabled(s, step) && Executes(Apply(s, step), rest, end)
    ensures Executes(s, [step] + rest, end)
  {
    assert ([step] + rest)[1..] == rest;
  }

  function CheckSteps(now: int, accts: seq<Account>, ts: seq<Threshold>, records: seq<Step>): seq<Step> {
    [ReadPreferences(now, true)]
    + ([ReadAccounts(accts)] + ([ReadThresholds(ts)] + ([ReadSent] + ([Send(true)] + records))))
  }

  lemma DueNamesRows(db: Tables, now: int, accts: seq<Account>, ts: seq<Threshold>)
    requires ListsAccounts(db, accts) && ListsThresholds(db, ts)
    ensures forall k :: k in KeysOf(Due(now, accts, ts, db.sent)) ==>
              k.accountId in db.accounts && k.thresholdId in db.thresholds
  {
    PendingIsRecordable(now, accts, ts, db, Due(now, accts, ts, db.sent));
  }

  /** The steps of a check whose message is sent end in what the imperative check leaves. */
  lemma {:induction false} CheckIsARun(db: Tables, now: int, accts: seq<Account>, ts: seq<Threshold>,
          lost: set<SentKey>)
    requires ListsAccounts(db, accts) && ListsThresholds(db, ts)
    requires Due(now, accts, ts, db.sent) != []
    ensures var pending := Due(now, accts, ts, db.sent);
            Executes(State(db, Idle), CheckSteps(now, accts, ts, RecordSteps(pending, lost)),
                     State(AfterCheck(db, pending, lost), Idle))
  {
    var pending := Due(now, accts, ts, db.sent);
    var end := State(AfterCheck(db, pending, lost), Idle);
    var records := RecordSteps(pending, lost);
    DueNamesRows(db, now, accts, ts);
    RecordsExecute(db, now, pending, 0, lost);
    assert pending[0..] == pending;
    var send := [Send(true)] + records;
    ExecutesFirst(State(db, Sending(now, pending)), Send(true), records, end);
    ExecutesFirst(State(db, HasThresholds(now, true, accts, ts)), ReadSent, send, end);
    ExecutesFirst(State(db, HasAccounts(now, true, accts)), ReadThresholds(ts), [ReadSent] + send, end);
    ExecutesFirst(State(db, HasPreferences(now, true)), ReadAccounts(accts),
        [ReadThresholds(ts)] + ([ReadSent] + send), end);
    ExecutesFirst(State(db, Idle), ReadPreferences(now, true),
        [ReadAccounts(accts)] + ([ReadThresholds(ts)] + ([ReadSent] + send)), end);
  }

  // ----- Any schedule of checks -----

  /** The keys of everything that is due at `now`, recorded or not. */
  ghost function DueKeys(db: Tables, now: int): set<SentKey> {
    set id, tid | id in db.accounts && tid in db.thresholds
                  && IsDue(now, db.accounts[id], db.thresholds[tid], {})
      :: SentKey(db.accounts[id].id, db.thresholds[tid].id, db.accounts[id].expiration)
  }

  /** No edit, no failed insert, and no crash while keys are being recorded.  Reads, sender and
      sends may fail, and a crash may fall anywhere else. */
  ghost predicate IsCheckStep(s: State, step: Step) {
    !IsEdit(step) && step != Step.Record(false) && !(step.Crash? && s.pc.Recording?)
  }

  ghost predicate OnlyChecks(run: Run)
    requires ValidRun(run)
  {
    forall i :: 0 <= i < |run.steps| ==> IsCheckStep(run.states[i], run.steps[i])
  }

  /** The latest clock reading of a check whose message was sent. */
  ghost function LatestSend(run: Run, n: nat): (latest: seq<int>)
    requires ValidRun(run) && n <= |run.steps|
    ensures |latest| <= 1
  {
    if n == 0 then []
    else
      var latest := LatestSend(run, n - 1);
      if run.steps[n - 1] == Send(true) && run.states[n - 1].pc.Sending? then
        var now := run.states[n - 1].pc.now;
        if latest == [] || latest[0] < now then [now] else latest
      else latest
  }

  ghost function DueAtLatest(run: Run, n: nat): set<SentKey>
    requires ValidRun(run) && n <= |run.steps|
  {
    var latest := LatestSend(run, n);
    if latest == [] then {} else DueKeys(run.states[0].db, latest[0])
  }

  ghost predicate SameRows(db: Tables, db': Tables) {
    db.accounts == db'.accounts && db.thresholds == db'.thresholds
  }

  lemma DueKeysGrow(db: Tables, now: int, later: int)
    requires now <= later
    ensures DueKeys(db, now) <= DueKeys(db, later)
  {
  }

  /** What a check is about to send is what is due and not yet recorded. */
  lemma PendingKeysAreTheUnrecordedDue(db: Tables, now: int, accts: seq<Account>, ts: seq<Threshold>)
    requires Keyed(db) && ListsAccounts(db, accts) && ListsThresholds(db, ts)
    ensures KeysOf(Due(now, accts, ts, db.sent)) == DueKeys(db, now) - db.sent
  {
    var due := Due(now, accts, ts, db.sent);
    forall k | k in KeysOf(due)
      ensures k in DueKeys(db, now) - db.sent
    {
      var p :| p in due && KeyOf(p) == k;
      DueMembership(now, accts, ts, db.sent, p);
    }
    forall k | k in DueKeys(db, now) - db.sent
      ensures k in KeysOf(due)
    {
      var id, tid :| id in db.accounts && tid in db.thresholds && IsDue(now, db.accounts[id], db.thresholds[tid], {})
                     && k == SentKey(db.accounts[id].id, db.thresholds[tid].id, db.accounts[id].expiration);
      var p := Pending(db.accounts[id], db.thresholds[tid]);
      DueMembership(now, accts, ts, db.sent, p);
      assert KeyOf(p) == k;
    }
  }

  ghost predicate SendsTheUnrecordedDue(s: State) {
    s.pc.Sending? ==> KeysOf(s.pc.pending) == DueKeys(s.db, s.pc.now) - s.db.sent
  }

  ghost function RecordedOrHeld(s: State): set<SentKey> {
    s.db.sent + Unrecorded(s.pc)
  }

  /** What one step adds to the keys recorded or held for recording. */
  ghost function Added(s: State, step: Step): set<SentKey> {
    if step == Send(true) && s.pc.Sending? then DueKeys(s.db, s.pc.now) else {}
  }

  lemma StepSendsTheUnrecordedDue(s: State, step: Step)
    requires Enabled(s, step) && IsCheckStep(s, step) && Keyed(s.db)
    requires ReadsAreCurrent(s) && SendsTheUnrecordedDue(s)
    ensures SendsTheUnrecordedDue(Apply(s, step))
  {
    if step.ReadSent? {
      PendingKeysAreTheUnrecordedDue(s.db, s.pc.now, s.pc.accts, s.pc.ts);
    }
  }

  lemma SendHoldsTheDue(s: State)
    requires s.pc.Sending? && SendsTheUnrecordedDue(s)
    ensures RecordedOrHeld(Apply(s, Send(true))) == RecordedOrHeld(s) + DueKeys(s.db, s.pc.now)
  {
    assert s.pc.pending[0..] == s.pc.pending;
  }

  lemma RecordMovesOneKey(s: State)
    requires Enabled(s, Step.Record(true)) && ReadsAreCurrent(s)
    ensures RecordedOrHeld(Apply(s, Step.Record(true))) == RecordedOrHeld(s)
  {
    UnrecordedShrinks(s.pc);
    assert s.pc.pending[s.pc.next] in s.pc.pending;
    assert RecordSucceeds(s.db, KeyOf(s.pc.pending[s.pc.next]));
  }

  lemma StepAdds(s: State, step: Step)
    requires Enabled(s, step) && IsCheckStep(s, step) && ReadsAreCurrent(s) && SendsTheUnrecordedDue(s)
    ensures RecordedOrHeld(Apply(s, step)) == RecordedOrHeld(s) + Added(s, step)
  {
    match step {
      case Send(delivered) =>
        if delivered {
          SendHoldsTheDue(s);
        }
      case Record(_) =>
        RecordMovesOneKey(s);
      case _ =>
    }
  }

  lemma DueAtLatestGrows(run: Run, n: nat)
    requires ValidRun(run) && n < |run.steps| && SameRows(run.states[0].db, run.states[n].db)
    ensures DueAtLatest(run, n + 1) == DueAtLatest(run, n) + Added(run.states[n], run.steps[n])
  {
    var (s, db) := (run.states[n], run.states[0].db);
    if run.steps[n] == Send(true) && s.pc.Sending? {
      var (before, after) := (LatestSend(run, n), LatestSend(run, n + 1));
      assert DueKeys(s.db, s.pc.now) == DueKeys(db, s.pc.now);
      DueKeysGrow(db, s.pc.now, after[0]);
      if before != [] {
        DueKeysGrow(db, before[0], after[0]);
      }
    }
  }

  ghost predicate ScheduleInvariant(run: Run, n: nat)
    requires ValidRun(run) && n <= |run.steps|
  {
    var s := run.states[n];
    && SameRows(run.states[0].db, s.db)
    && ReadsAreCurrent(s)
    && SendsTheUnrecordedDue(s)
    && RecordedOrHeld(s) == run.states[0].db.sent + DueAtLatest(run, n)
  }

  lemma ScheduleStep(run: Run, n: nat)
    requires ValidRun(run) && OnlyChecks(run) && n < |run.steps|
    requires Keyed(run.states[n].db) && ScheduleInvariant(run, n)
    ensures ScheduleInvariant(run, n + 1)
  {
    var (s, step) := (run.states[n], run.steps[n]);
    assert Enabled(s, step) && run.states[n + 1] == Apply(s, step) && IsCheckStep(s, step);
    StepKeepsReadsCurrent(s, step);
    StepSendsTheUnrecordedDue(s, step);
    StepAdds(s, step);
    DueAtLatestGrows(run, n);
  }

  lemma {:induction false} ScheduleInvariantHolds(run: Run, n: nat)
    requires ValidRun(run) && OnlyChecks(run) && n <= |run.steps|
    ensures ScheduleInvariant(run, n)
  {
    if n > 0 {
      ScheduleInvariantHolds(run, n - 1);
      RunStaysKeyed(run, n - 1);
      ScheduleStep(run, n - 1);
    }
  }

  /** Between checks the recorded set is the initial set and whatever was due at the latest time
      of a check that sent its message, in whatever order the checks ran. */
  lemma RecordedSetIsScheduleIndependent(run: Run, n: nat)
    requires ValidRun(run) && OnlyChecks(run) && n <= |run.steps| && run.states[n].pc.Idle?
    ensures run.states[n].db.sent == run.states[0].db.sent + DueAtLatest(run, n)
  {
    ScheduleInvariantHolds(run, n);
  }

  lemma {:induction false} NothingRearms(run: Run, k: SentKey, n: nat)
    requires ValidRun(run) && OnlyChecks(run) && n <= |run.steps|
    ensures RearmCount(run, k, n) == 0
  {
    if n > 0 {
      NothingRearms(run, k, n - 1);
      ScheduleInvariantHolds(run, n - 1);
      var (s, step) := (run.states[n - 1], run.steps[n - 1]);
      assert Enabled(s, step);
      if step.Record? {
        assert s.pc.pending[s.pc.next] in s.pc.pending;
      }
    }
  }

  /** Then every key is announced at most once, at any times and with any failed sends. */
  lemma EachKeyIsSentOnce(run: Run, k: SentKey)
    requires ValidRun(run) && OnlyChecks(run)
    ensures SendCount(run, k, |run.steps|) <= 1
  {
    SendsBoundedByRearms(run, k);
    NothingRearms(run, k, |run.steps|);
  }
}
