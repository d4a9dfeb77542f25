/** One notification check, and the system it is part of: a scheduler whose check is a series of
    separate statements, interleaved with the edits that web requests make. */
module Scheduler {
  import opened Domain
  import opened Wrappers
  import opened Tables
  import opened Evaluator

  // ----- The check as one method -----

  /** What an undisturbed check records when its message has been sent and `lost` could not be. */
  function AfterCheck(db: Tables, pending: seq<Pending>, lost: set<SentKey>): Tables {
    db.(sent := db.sent + (KeysOf(pending) - lost))
  }

  /** What is due names rows that exist, is not recorded yet, and names no key twice. */
  lemma PendingIsRecordable(now: int, accts: seq<Account>, ts: seq<Threshold>, db: Tables, pending: seq<Pending>)
    requires ListsAccounts(db, accts) && ListsThresholds(db, ts) && pending == Due(now, accts, ts, db.sent)
    ensures forall p :: p in pending ==>
              p.account.id in db.accounts && p.threshold.id in db.thresholds && KeyOf(p) !in db.sent
    ensures forall i, j :: 0 <= i < j < |pending| ==> KeyOf(pending[i]) != KeyOf(pending[j])
  {
    forall p | p in pending
      ensures p.account.id in db.accounts && p.threshold.id in db.thresholds && KeyOf(p) !in db.sent
    {
      DueMembership(now, accts, ts, db.sent, p);
    }
    forall i, j | 0 <= i < j < |pending|
      ensures KeyOf(pending[i]) != KeyOf(pending[j])
    {
      DueKeysAreDistinct(now, accts, ts, db.sent, i, j);
    }
  }

  class NotificationScheduler {
    const db: Database

    constructor (db: Database)
      ensures this.db == db
    {
      this.db := db;
    }

    /** One insert for each pair; a failed one is only logged. */
    method RecordAll(pending: seq<Pending>, healthy: bool) returns (lost: set<SentKey>)
      requires forall p :: p in pending ==> p.account.id in db.accounts && p.threshold.id in db.thresholds
      requires forall p :: p in pending ==> KeyOf(p) !in db.sent
      requires forall i, j :: 0 <= i < j < |pending| ==> KeyOf(pending[i]) != KeyOf(pending[j])
      modifies db
      ensures lost <= KeysOf(pending) && (healthy ==> lost == {})
      ensures db.Contents() == AfterCheck(old(db.Contents()), pending, lost)
      ensures db.accounts == old(db.accounts) && db.thresholds == old(db.thresholds)
      ensures forall k :: k in db.sent <==>
                || k in old(db.sent)
                || (k !in lost
                    && exists p :: p in pending && k == SentKey(p.account.id, p.threshold.id, p.account.expiration))
    {
      lost := {};
      for i := 0 to |pending|
        invariant lost <= KeysOf(pending[..i]) && (healthy ==> lost == {})
        invariant db.Contents() == AfterCheck(old(db.Contents()), pending[..i], lost)
      {
        var p := pending[i];
        assert pending[..i + 1] == pending[..i] + [p];
        assert KeysOf(pending[..i + 1]) == KeysOf(pending[..i]) + {KeyOf(p)};
        assert KeyOf(p) !in KeysOf(pending[..i]);
        assert p in pending && RecordSucceeds(db.Contents(), KeyOf(p));
        var r := db.Record(KeyOf(p), healthy);
        if r != Done {
          lost := lost + {KeyOf(p)};
        }
      }
      assert pending[..|pending|] == pending;
    }

    /** `accts`, `ts` and `rows` are what the three queries deliver; unless all is well, every query,
        the sender and every insert may also fail.  Returns whether a message was sent, and which
        keys of a sent message could not be recorded. */
    method CheckOnce(now: int, hasRecipients: bool, accts: seq<Account>, ts: seq<Threshold>, rows: seq<SentKey>,
            healthy: bool)
      returns (sent: bool, lost: set<SentKey>)
      requires ListsAccounts(db.Contents(), accts)
      requires ListsThresholds(db.Contents(), ts)
      requires ListsSent(db.Contents(), rows)
      modifies db
      ensures var pending := Due(now, accts, ts, old(db.sent));
              && (sent ==> hasRecipients && pending != [])
              && (healthy && hasRecipients && pending != [] ==> sent)
              && lost <= KeysOf(pending)
              && (healthy ==> lost == {})
              && db.Contents() == if sent then AfterCheck(old(db.Contents()), pending, lost) else old(db.Contents())
      ensures db.accounts == old(db.accounts) && db.thresholds == old(db.thresholds)
      ensures forall k :: k in db.sent <==>
                || k in old(db.sent)
                || (sent && k !in lost
                    && exists p :: p in Due(now, accts, ts, old(db.sent))
                         && k == SentKey(p.account.id, p.threshold.id, p.account.expiration))
    {
      lost := {};
      sent := false;
      var readsFail := Fails(healthy);
      if readsFail {
        return;
      }
      assert (set k | k in rows) == db.sent;
      var pending := Evaluate(now, accts, ts, rows);
      if pending == [] {
        return;
      }
      if !hasRecipients {
        return;
      }
      var buildFails := Fails(healthy);
      if buildFails {
        return;
      }
      var sendFails := Fails(healthy);
      if sendFails {
        return;
      }
      sent := true;
      PendingIsRecordable(now, accts, ts, db.Contents(), pending);
      lost := RecordAll(pending, healthy);
    }
  }

  // ----- The system as a state machine -----

  /** Where the scheduler goroutine stands, with what it has read so far. */
  datatype Progress =
    | Idle
    | HasPreferences(now: int, hasRecipients: bool)
    | HasAccounts(now: int, hasRecipients: bool, accts: seq<Account>)
    | HasThresholds(now: int, hasRecipients: bool, accts: seq<Account>, ts: seq<Threshold>)
    | Sending(now: int, pending: seq<Pending>)
    | Recording(now: int, pending: seq<Pending>, next: nat)

  datatype State = State(db: Tables, pc: Progress)

  datatype Step =
    | CreateAccount(id: int, input: Input, at: int)
    | UpdateAccount(id: int, input: Input, at: int)
    | DeleteAccount(id: int)
    | AddThreshold(id: int, daysBefore: int)
    | UpdateThreshold(id: int, daysBefore: int)
    | DeleteThreshold(id: int)
    | FailedEdit
    | ReadPreferences(now: int, hasRecipients: bool)
    | ReadAccounts(accts: seq<Account>)
    | ReadThresholds(ts: seq<Threshold>)
    | ReadSent
    | Send(delivered: bool)
    | Record(written: bool)
    | GiveUp
    | Crash

  predicate IsEdit(step: Step) {
    step.CreateAccount? || step.UpdateAccount? || step.DeleteAccount?
    || step.AddThreshold? || step.UpdateThreshold? || step.DeleteThreshold? || step.FailedEdit?
  }

  /** Row ids may be reused after a delete.  Queries return what the tables hold at that moment. */
  ghost predicate Enabled(s: State, step: Step) {
    match step
    case CreateAccount(id, _, _) => id !in s.db.accounts
    case AddThreshold(id, _) => id !in s.db.thresholds
    case ReadPreferences(_, _) => s.pc.Idle?
    case ReadAccounts(accts) => s.pc.HasPreferences? && ListsAccounts(s.db, accts)
    case ReadThresholds(ts) => s.pc.HasAccounts? && ListsThresholds(s.db, ts)
    case ReadSent => s.pc.HasThresholds?
    case Send(_) => s.pc.Sending?
    case Record(_) => s.pc.Recording? && s.pc.next < |s.pc.pending|
    case GiveUp => !s.pc.Idle? && !s.pc.Recording?
    case _ => true
  }

  function AfterRead(pc: Progress, sent: set<SentKey>): Progress
    requires pc.HasThresholds?
  {
    var pending := Due(pc.now, pc.accts, pc.ts, sent);
    if pending == [] || !pc.hasRecipients then Idle else Sending(pc.now, pending)
  }

  function NextRecord(pc: Progress): Progress
    requires pc.Recording?
  {
    if pc.next + 1 >= |pc.pending| then Idle else pc.(next := pc.next + 1)
  }

  ghost function Apply(s: State, step: Step): State
    requires Enabled(s, step)
  {
    match step
    case CreateAccount(id, input, at) => s.(db := AfterCreate(s.db, id, input, at))
    case UpdateAccount(id, input, at) => s.(db := AfterUpdate(s.db, id, input, at))
    case DeleteAccount(id) => s.(db := AfterDelete(s.db, id))
    case AddThreshold(id, days) => s.(db := AfterAddThreshold(s.db, id, days))
    case UpdateThreshold(id, days) => s.(db := AfterUpdateThreshold(s.db, id, days))
    case DeleteThreshold(id) => s.(db := AfterDeleteThreshold(s.db, id))
    case FailedEdit => s
    case ReadPreferences(now, hasRecipients) => s.(pc := HasPreferences(now, hasRecipients))
    case ReadAccounts(accts) => s.(pc := HasAccounts(s.pc.now, s.pc.hasRecipients, accts))
    case ReadThresholds(ts) => s.(pc := HasThresholds(s.pc.now, s.pc.hasRecipients, s.pc.accts, ts))
    case ReadSent => s.(pc := AfterRead(s.pc, s.db.sent))
    case Send(delivered) => s.(pc := if delivered then Recording(s.pc.now, s.pc.pending, 0) else Idle)
    case Record(written) =>
      State(if written then AfterRecord(s.db, KeyOf(s.pc.pending[s.pc.next])) else s.db, NextRecord(s.pc))
    case GiveUp => s.(pc := Idle)
    case Crash => s.(pc := Idle)
  }

  datatype Run = Run(states: seq<State>, steps: seq<Step>)

  /** A run starts between checks, over any tables. */
  ghost predicate ValidRun(run: Run) {
    && |run.states| == |run.steps| + 1
    && run.states[0].pc.Idle?
    && Keyed(run.states[0].db)
    && forall i :: 0 <= i < |run.steps| ==>
         Enabled(run.states[i], run.steps[i]) && run.states[i + 1] == Apply(run.states[i], run.steps[i])
  }

  /** The message of a successful send contains `k`. */
  ghost predicate Sends(s: State, step: Step, k: SentKey) {
    step == Send(true) && s.pc.Sending? && k in KeysOf(s.pc.pending)
  }

  lemma {:induction false} RunStaysKeyed(run: Run, n: nat)
    requires ValidRun(run) && n <= |run.steps|
    ensures Keyed(run.states[n].db)
  {
    if n > 0 {
      RunStaysKeyed(run, n - 1);
      assert Enabled(run.states[n - 1], run.steps[n - 1]);
    }
  }

  /** In every run distinct thresholds keep distinct day counts. */
  lemma {:induction false} RunKeepsDaysUnique(run: Run, n: nat)
    requires ValidRun(run) && UniqueDays(run.states[0].db) && n <= |run.steps|
    ensures UniqueDays(run.states[n].db)
  {
    if n > 0 {
      RunKeepsDaysUnique(run, n - 1);
      assert Enabled(run.states[n - 1], run.steps[n - 1]);
    }
  }

  /** The check that stands at `pc` read its clock and the recipients at step m. */
  ghost predicate BeganAt(run: Run, m: nat, now: int, hasRecipients: bool) {
    m < |run.steps| && run.steps[m] == ReadPreferences(now, hasRecipients)
  }

  ghost predicate BeganBefore(run: Run, n: nat, now: int, hasRecipients: bool) {
    exists m: nat :: m < n && BeganAt(run, m, now, hasRecipients)
  }

  /** Where a check stands, and what it must have read to get there. */
  ghost predicate BeganProperly(run: Run, n: nat, pc: Progress) {
    match pc
    case Idle => true
    case HasPreferences(now, hasRecipients) => BeganBefore(run, n, now, hasRecipients)
    case HasAccounts(now, hasRecipients, _) => BeganBefore(run, n, now, hasRecipients)
    case HasThresholds(now, hasRecipients, _, _) => BeganBefore(run, n, now, hasRecipients)
    case Sending(now, pending) => pending != [] && BeganBefore(run, n, now, true)
    case Recording(now, pending, _) => pending != [] && BeganBefore(run, n, now, true)
  }

  lemma BeganBeforeLater(run: Run, n: nat, now: int, hasRecipients: bool)
    requires BeganBefore(run, n, now, hasRecipients)
    ensures BeganBefore(run, n + 1, now, hasRecipients)
  {
    var m: nat :| m < n && BeganAt(run, m, now, hasRecipients);
    assert m < n + 1;
  }

  /** In every run a message is only ever sent, or recorded, by a check that found recipients and
      something due. */
  lemma {:induction false} ChecksBeginProperly(run: Run, n: nat)
    requires ValidRun(run) && n <= |run.steps|
    ensures BeganProperly(run, n, run.states[n].pc)
  {
    if n > 0 {
      ChecksBeginProperly(run, n - 1);
      var (pc, step) := (run.states[n - 1].pc, run.steps[n - 1]);
      assert Enabled(run.states[n - 1], step) && run.states[n] == Apply(run.states[n - 1], step);
      if step.ReadPreferences? {
        assert BeganAt(run, n - 1, step.now, step.hasRecipients);
      } else if !pc.Idle? {
        var hasRecipients := pc.Sending? || pc.Recording? || pc.hasRecipients;
        BeganBeforeLater(run, n - 1, pc.now, hasRecipients);
      }
    }
  }

  // ----- Building runs -----

  function Last(run: Run): State
    requires run.states != []
  {
    run.states[|run.states| - 1]
  }

  ghost function Start(db: Tables): (run: Run)
    requires Keyed(db)
    ensures ValidRun(run) && run.steps == []
  {
    Run([State(db, Idle)], [])
  }

  ghost function Then(run: Run, step: Step): (longer: Run)
    requires ValidRun(run) && Enabled(Last(run), step)
    ensures ValidRun(longer) && longer.steps == run.steps + [step]
    ensures longer.states == run.states + [Apply(Last(run), step)]
  {
    Run(run.states + [Apply(Last(run), step)], run.steps + [step])
  }

  lemma ReadingCheck(run: Run, now: int, accts: seq<Account>, ts: seq<Threshold>) returns (longer: Run)
    requires ValidRun(run) && Last(run).pc.Idle?
    requires ListsAccounts(Last(run).db, accts) && ListsThresholds(Last(run).db, ts)
    ensures ValidRun(longer) && run.states <= longer.states
    ensures longer.steps == run.steps + [ReadPreferences(now, true), ReadAccounts(accts), ReadThresholds(ts)]
    ensures Last(longer) == State(Last(run).db, HasThresholds(now, true, accts, ts))
  {
    var r1 := Then(run, ReadPreferences(now, true));
    var r2 := Then(r1, ReadAccounts(accts));
    longer := Then(r2, ReadThresholds(ts));
  }

  lemma PendingCheck(run: Run, now: int, accts: seq<Account>, ts: seq<Threshold>) returns (longer: Run)
    requires ValidRun(run) && Last(run).pc.Idle?
    requires ListsAccounts(Last(run).db, accts) && ListsThresholds(Last(run).db, ts)
    requires Due(now, accts, ts, Last(run).db.sent) != []
    ensures ValidRun(longer) && run.states <= longer.states
    ensures longer.steps
            == run.steps + [ReadPreferences(now, true), ReadAccounts(accts), ReadThresholds(ts), ReadSent]
    ensures Last(longer) == State(Last(run).db, Sending(now, Due(now, accts, ts, Last(run).db.sent)))
  {
    var read := ReadingCheck(run, now, accts, ts);
    longer := Then(read, ReadSent);
  }

  /** From any state between checks in which something is due, a check can send it all. */
  lemma SendingCheck(run: Run, now: int, accts: seq<Account>, ts: seq<Threshold>) returns (longer: Run)
    requires ValidRun(run) && Last(run).pc.Idle?
    requires ListsAccounts(Last(run).db, accts) && ListsThresholds(Last(run).db, ts)
    requires Due(now, accts, ts, Last(run).db.sent) != []
    ensures ValidRun(longer) && run.states <= longer.states
    ensures longer.steps
            == run.steps + [ReadPreferences(now, true), ReadAccounts(accts), ReadThresholds(ts), ReadSent, Send(true)]
    ensures var (db, pending) := (Last(run).db, Due(now, accts, ts, Last(run).db.sent));
            && longer.states[|run.steps| + 4] == State(db, Sending(now, pending))
            && Last(longer) == State(db, Recording(now, pending, 0))
  {
    var waiting := PendingCheck(run, now, accts, ts);
    longer := Then(waiting, Send(true));
  }
}
