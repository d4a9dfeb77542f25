/** What the points_updated_at column records over a whole run. */
module PointsTimestamp {
  import opened Domain
  import opened Tables
  import opened Scheduler

  /** Step `m` creates the account or changes its balance. */
  ghost predicate MovesBalance(run: Run, m: nat, id: int)
    requires ValidRun(run) && m < |run.steps|
  {
    var (before, after) := (run.states[m].db.accounts, run.states[m + 1].db.accounts);
    id in after && (id !in before || before[id].balance != after[id].balance)
  }

  ghost predicate IsLatestMove(run: Run, m: nat, n: nat, id: int)
    requires ValidRun(run) && m < n <= |run.steps|
  {
    MovesBalance(run, m, id) && forall q :: m < q < n ==> !MovesBalance(run, q, id)
  }

  ghost predicate StampedByMove(run: Run, m: nat, n: nat, id: int, stamp: int)
    requires ValidRun(run) && m < n <= |run.steps|
  {
    && IsLatestMove(run, m, n, id)
    && (run.steps[m].CreateAccount? || run.steps[m].UpdateAccount?) && stamp == run.steps[m].at
  }

  ghost predicate NeverMoved(run: Run, n: nat, id: int)
    requires ValidRun(run) && n <= |run.steps|
  {
    forall q :: 0 <= q < n ==> !MovesBalance(run, q, id)
  }

  /** One step stamps the account exactly if it creates it or changes its balance. */
  lemma StepStampsMoves(run: Run, m: nat, id: int)
    requires ValidRun(run) && m < |run.steps| && id in run.states[m + 1].db.accounts
    ensures var before := run.states[m].db.accounts;
            var after := run.states[m + 1].db.accounts;
            if MovesBalance(run, m, id) then
              (run.steps[m].CreateAccount? || run.steps[m].UpdateAccount?)
                  && after[id].pointsUpdatedAt == run.steps[m].at
            else id in before && after[id].pointsUpdatedAt == before[id].pointsUpdatedAt
  {
    assert Enabled(run.states[m], run.steps[m]) && run.states[m + 1] == Apply(run.states[m], run.steps[m]);
  }

  lemma LatestMoveStays(run: Run, m: nat, k: nat, id: int, stamp: int)
    requires ValidRun(run) && m < k < |run.steps| && StampedByMove(run, m, k, id, stamp) && !MovesBalance(run, k, id)
    ensures StampedByMove(run, m, k + 1, id, stamp)
  {
  }

  /** The column holds the time of the latest step that created the account or changed its balance;
      without such a step, the account and the column are as they were at the start. */
  lemma {:induction false} PointsTimestampFollowsBalance(run: Run, n: nat, id: int)
    requires ValidRun(run) && n <= |run.steps| && id in run.states[n].db.accounts
    ensures
      var stamp := run.states[n].db.accounts[id].pointsUpdatedAt;
      || (exists m :: 0 <= m < n && StampedByMove(run, m, n, id, stamp))
      || (NeverMoved(run, n, id)
          && id in run.states[0].db.accounts && stamp == run.states[0].db.accounts[id].pointsUpdatedAt)
  {
    if n > 0 {
      var k := n - 1;
      StepStampsMoves(run, k, id);
      var stamp := run.states[n].db.accounts[id].pointsUpdatedAt;
      if MovesBalance(run, k, id) {
        assert IsLatestMove(run, k, n, id);
        assert StampedByMove(run, k, n, id, stamp);
      } else {
        PointsTimestampFollowsBalance(run, k, id);
        if m :| 0 <= m < k && StampedByMove(run, m, k, id, stamp) {
          LatestMoveStays(run, m, k, id, stamp);
        }
      }
    }
  }
}
