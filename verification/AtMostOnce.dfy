/** No key is announced twice unless something re-armed it in between. */
module AtMostOnce {
  import opened Domain
  import opened Tables
  import opened Evaluator
  import opened Scheduler

  /** The keys of a sent message whose Record call is still to come. */
  ghost function Unrecorded(pc: Progress): set<SentKey> {
    if pc.Recording? && pc.next <= |pc.pending| then KeysOf(pc.pending[pc.next..]) else {}
  }

  ghost predicate RowRemoved(s: State, step: Step, k: SentKey)
    requires Enabled(s, step)
  {
    k in s.db.sent && k !in Apply(s, step).db.sent
  }

  ghost predicate RecordErrored(s: State, step: Step, k: SentKey)
    requires Enabled(s, step)
  {
    step.Record? && KeyOf(s.pc.pending[s.pc.next]) == k && (!step.written || !RecordSucceeds(s.db, k))
  }

  ghost predicate CrashedUnrecorded(s: State, step: Step, k: SentKey) {
    step.Crash? && k in Unrecorded(s.pc)
  }

  /** The only ways in which a key that was announced can be announced again. */
  ghost predicate Rearms(s: State, step: Step, k: SentKey)
    requires Enabled(s, step)
  {
    RowRemoved(s, step, k) || RecordErrored(s, step, k) || CrashedUnrecorded(s, step, k)
  }

  /** The key has been announced, and the system still knows it. */
  ghost predicate Announced(s: State, k: SentKey) {
    k in s.db.sent || k in Unrecorded(s.pc)
  }

  lemma UnrecordedShrinks(pc: Progress)
    requires pc.Recording? && pc.next < |pc.pending|
    ensures Unrecorded(pc) == {KeyOf(pc.pending[pc.next])} + Unrecorded(NextRecord(pc))
  {
    assert pc.pending[pc.next..] == [pc.pending[pc.next]] + pc.pending[pc.next + 1..];
  }

  // ----- What a check holds is not recorded -----

  ghost predicate DistinctKeys(pending: seq<Pending>) {
    forall i, j :: 0 <= i < j < |pending| ==> KeyOf(pending[i]) != KeyOf(pending[j])
  }

  /** A check names no key twice, and none of the keys it has yet to record is recorded. */
  ghost predicate HoldsUnrecorded(s: State) {
    match s.pc
    case HasAccounts(_, _, accts) => UniqueAccountIds(accts)
    case HasThresholds(_, _, accts, ts) => UniqueAccountIds(accts) && UniqueThresholdIds(ts)
    case Sending(_, pending) => DistinctKeys(pending) && KeysOf(pending) !! s.db.sent
    case Recording(_, pending, next) => DistinctKeys(pending) && Unrecorded(s.pc) !! s.db.sent
    case _ => true
  }

  lemma DueIsUnrecorded(now: int, accts: seq<Account>, ts: seq<Threshold>, sent: set<SentKey>)
    requires UniqueAccountIds(accts) && UniqueThresholdIds(ts)
    ensures DistinctKeys(Due(now, accts, ts, sent)) && KeysOf(Due(now, accts, ts, sent)) !! sent
  {
    var due := Due(now, accts, ts, sent);
    forall i, j | 0 <= i < j < |due|
      ensures KeyOf(due[i]) != KeyOf(due[j])
    {
      DueKeysAreDistinct(now, accts, ts, sent, i, j);
    }
    forall k | k in KeysOf(due)
      ensures k !in sent
    {
      var p :| p in due && KeyOf(p) == k;
      DueMembership(now, accts, ts, sent, p);
    }
  }

  lemma RecordedKeyIsGone(pc: Progress)
    requires pc.Recording? && pc.next < |pc.pending| && DistinctKeys(pc.pending)
    ensures KeyOf(pc.pending[pc.next]) !in Unrecorded(NextRecord(pc))
  {
  }

  lemma StepHoldsUnrecorded(s: State, step: Step)
    requires Enabled(s, step) && HoldsUnrecorded(s)
    ensures HoldsUnrecorded(Apply(s, step))
  {
    match step {
      case ReadSent =>
        DueIsUnrecorded(s.pc.now, s.pc.accts, s.pc.ts, s.db.sent);
      case Send(delivered) =>
        if delivered {
          assert s.pc.pending[0..] == s.pc.pending;
        }
      case Record(_) =>
        UnrecordedShrinks(s.pc);
        RecordedKeyIsGone(s.pc);
      case _ =>
    }
  }

  lemma {:induction false} RunHoldsUnrecorded(run: Run, n: nat)
    requires ValidRun(run) && n <= |run.steps|
    ensures HoldsUnrecorded(run.states[n])
  {
    if n > 0 {
      RunHoldsUnrecorded(run, n - 1);
      assert Enabled(run.states[n - 1], run.steps[n - 1]);
      StepHoldsUnrecorded(run.states[n - 1], run.steps[n - 1]);
    }
  }

  /** While a message waits to be sent, none of its keys is recorded. */
  lemma PendingIsUnrecorded(run: Run, n: nat, k: SentKey)
    requires ValidRun(run) && n <= |run.steps|
    requires run.states[n].pc.Sending? && k in KeysOf(run.states[n].pc.pending)
    ensures k !in run.states[n].db.sent
  {
    RunHoldsUnrecorded(run, n);
  }

  // ----- When a key becomes and stays announced -----

  lemma RecordAnnounces(s: State, step: Step, k: SentKey)
    requires Enabled(s, step) && HoldsUnrecorded(s) && step.Record?
    ensures Announced(Apply(s, step), k) <==> Announced(s, k) && !RecordErrored(s, step, k)
  {
    UnrecordedShrinks(s.pc);
    RecordedKeyIsGone(s.pc);
  }

  lemma StepAnnounces(s: State, step: Step, k: SentKey)
    requires Enabled(s, step) && HoldsUnrecorded(s)
    ensures Announced(Apply(s, step), k) <==> Sends(s, step, k) || (Announced(s, k) && !Rearms(s, step, k))
    ensures Sends(s, step, k) ==> !Announced(s, k)
    ensures Rearms(s, step, k) ==> Announced(s, k)
  {
    match step {
      case Send(delivered) =>
        assert s.pc.pending[0..] == s.pc.pending;
      case Record(_) =>
        RecordAnnounces(s, step, k);
        UnrecordedShrinks(s.pc);
      case _ =>
    }
  }

  /** In every run: a key is announced exactly from a successful send of it until the next step that
      re-arms it; only keys that are not announced are sent, and only announced ones are re-armed. */
  lemma AnnouncedExactly(run: Run, n: nat, k: SentKey)
    requires ValidRun(run) && n < |run.steps|
    ensures var (s, step, s') := (run.states[n], run.steps[n], run.states[n + 1]);
            && Enabled(s, step)
            && (Announced(s', k) <==> Sends(s, step, k) || (Announced(s, k) && !Rearms(s, step, k)))
            && (Sends(s, step, k) ==> !Announced(s, k)) && (Rearms(s, step, k) ==> Announced(s, k))
  {
    RunHoldsUnrecorded(run, n);
    assert Enabled(run.states[n], run.steps[n]);
    StepAnnounces(run.states[n], run.steps[n], k);
  }

  lemma {:induction false} AnnouncedUntilRearmed(run: Run, i: nat, n: nat, k: SentKey)
    requires ValidRun(run) && i < n <= |run.steps| && Sends(run.states[i], run.steps[i], k)
    requires forall m :: i < m < n ==> Enabled(run.states[m], run.steps[m]) && !Rearms(run.states[m], run.steps[m], k)
    ensures Announced(run.states[n], k)
  {
    AnnouncedExactly(run, n - 1, k);
    if n > i + 1 {
      AnnouncedUntilRearmed(run, i, n - 1, k);
    }
  }

  /** Two successful sends of one key are separated by a step that removes its row, a Record of it
      that errored, or a crash before it was recorded. */
  lemma AtMostOnceBetweenRearms(run: Run, i: nat, j: nat, k: SentKey)
    requires ValidRun(run) && i < j < |run.steps|
    requires Sends(run.states[i], run.steps[i], k) && Sends(run.states[j], run.steps[j], k)
    ensures exists m :: i < m < j && Enabled(run.states[m], run.steps[m]) && Rearms(run.states[m], run.steps[m], k)
  {
    if forall m :: i < m < j ==> !(Enabled(run.states[m], run.steps[m]) && Rearms(run.states[m], run.steps[m], k)) {
      AnnouncedUntilRearmed(run, i, j, k);
      AnnouncedExactly(run, j, k);
    }
  }

  // ----- The same, counted -----

  ghost function SendCount(run: Run, k: SentKey, n: nat): nat
    requires ValidRun(run) && n <= |run.steps|
  {
    if n == 0 then 0
    else SendCount(run, k, n - 1) + if Sends(run.states[n - 1], run.steps[n - 1], k) then 1 else 0
  }

  ghost function RearmCount(run: Run, k: SentKey, n: nat): nat
    requires ValidRun(run) && n <= |run.steps|
  {
    if n == 0 then 0
    else
      RearmCount(run, k, n - 1)
      + if Enabled(run.states[n - 1], run.steps[n - 1]) && Rearms(run.states[n - 1], run.steps[n - 1], k) then 1 else 0
  }

  /** Conservation: each send announces the key once, each re-arming takes one announcement back. */
  lemma {:induction false} CountsBalance(run: Run, k: SentKey, n: nat)
    requires ValidRun(run) && n <= |run.steps|
    ensures SendCount(run, k, n) + (if Announced(run.states[0], k) then 1 else 0)
            == RearmCount(run, k, n) + if Announced(run.states[n], k) then 1 else 0
  {
    if n > 0 {
      CountsBalance(run, k, n - 1);
      AnnouncedExactly(run, n - 1, k);
    }
  }

  /** Over a whole run a key is announced at most once more often than it was re-armed. */
  lemma SendsBoundedByRearms(run: Run, k: SentKey)
    requires ValidRun(run)
    ensures SendCount(run, k, |run.steps|) <= RearmCount(run, k, |run.steps|) + 1
  {
    CountsBalance(run, k, |run.steps|);
  }

  // ----- What re-arms a key -----

  /** Rows are removed only by moving the account away from the recorded date, by deleting the
      account, and by deleting the threshold. */
  lemma RowRemovalCauses(s: State, step: Step, k: SentKey)
    requires Enabled(s, step)
    ensures RowRemoved(s, step, k) <==>
            && k in s.db.sent
            && match step {
                 case UpdateAccount(id, input, _) =>
                   && id == k.accountId && UpdateSucceeds(s.db, id, input)
                   && s.db.accounts[id].expiration == k.date && input.expiration != k.date
                 case DeleteAccount(id) => id == k.accountId
                 case DeleteThreshold(id) => id == k.thresholdId
                 case _ => false
               }
  {
  }
}
