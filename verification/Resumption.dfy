/** However often the runner is interrupted, the disk moves along one path: that of a single
    uninterrupted run. */
module Resumption {
  import opened Wrappers
  import opened Sorting
  import opened Relational
  import opened Migrations

  ghost predicate UniqueVersions(ms: seq<Migration>) {
    forall i, j :: 0 <= i < j < |ms| ==> ms[i].version != ms[j].version
  }

  ghost predicate Ascending(ms: seq<Migration>) {
    forall i, j :: 0 <= i < j < |ms| ==> ms[i].version < ms[j].version
  }

  function Versions(ms: seq<Migration>): set<int> {
    set m | m in ms :: m.version
  }

  // ----- What is pending -----

  lemma {:induction false} UnappliedStaysUnique(ms: seq<Migration>, applied: set<int>)
    requires UniqueVersions(ms)
    ensures UniqueVersions(Unapplied(ms, applied))
  {
    if ms != [] {
      var front := ms[..|ms| - 1];
      UnappliedStaysUnique(front, applied);
      UnappliedAre(front, applied);
    }
  }

  lemma {:induction false} UnappliedInStages(ms: seq<Migration>, applied: set<int>, more: set<int>)
    requires applied <= more
    ensures Unapplied(Unapplied(ms, applied), more) == Unapplied(ms, more)
  {
    if ms != [] {
      var (front, m) := (ms[..|ms| - 1], ms[|ms| - 1]);
      UnappliedInStages(front, applied, more);
      var left := Unapplied(front, applied);
      if m.version !in applied {
        assert (left + [m])[..|left|] == left;
      } else {
        assert Unapplied(ms, applied) == left;
      }
    }
  }

  lemma PermutationKeepsVersionsUnique(a: seq<Migration>, b: seq<Migration>)
    requires UniqueVersions(a) && multiset(a) == multiset(b)
    ensures UniqueVersions(b)
  {
    DistinctPermutation(a, b);
    forall i, j | 0 <= i < j < |b|
      ensures b[i].version != b[j].version
    {
      assert b[i] in multiset(b) && b[j] in multiset(b);
      assert b[i] in a && b[j] in a;
    }
  }

  lemma SortedIsAscending(ms: seq<Migration>)
    requires UniqueVersions(ms)
    ensures Ascending(Sort(ms, ByVersion()))
    ensures forall m :: m in Sort(ms, ByVersion()) <==> m in ms
  {
    SortedByVersion(ms);
    SortSorts(ms, ByVersion());
    PermutationKeepsVersionsUnique(ms, Sort(ms, ByVersion()));
  }

  /** The scripts still to be applied at the start have proper and distinct versions. */
  ghost predicate Resumable(entries: seq<Entry>, applied: set<int>) {
    Scripts(entries).Some? && UniqueVersions(Unapplied(Scripts(entries).value, applied))
  }

  /** The pending list is strictly ascending and holds exactly the scripts not yet recorded. */
  lemma PendingIsAscending(entries: seq<Entry>, start: set<int>, applied: set<int>)
    requires Resumable(entries, start) && start <= applied
    ensures var pending := Pending(entries, applied).value;
            && Ascending(pending)
            && forall m :: m in pending <==> m in Scripts(entries).value && m.version !in applied
  {
    var scripts := Scripts(entries).value;
    UnappliedStaysUnique(Unapplied(scripts, start), applied);
    UnappliedInStages(scripts, start, applied);
    UnappliedAre(scripts, applied);
    SortedIsAscending(Unapplied(scripts, applied));
  }

  lemma {:induction false} AscendingIsUnique(a: seq<Migration>, b: seq<Migration>)
    requires Ascending(a) && Ascending(b) && forall m :: m in a <==> m in b
    ensures a == b
  {
    assert a != [] ==> a[0] in b;
    assert b != [] ==> b[0] in a;
    if a != [] {
      var (x, y) := (a[|a| - 1], b[|b| - 1]);
      assert x in b && y in a;
      assert x == y;
      var (a', b') := (a[..|a| - 1], b[..|b| - 1]);
      forall m ensures m in a' <==> m in b' {
        assert m in a <==> m in a' || m == x;
        assert m in b <==> m in b' || m == x;
      }
      AscendingIsUnique(a', b');
    }
  }

  // ----- Committing in pieces -----

  lemma {:induction false} CommitAllSplits(s: Store, a: seq<Migration>, b: seq<Migration>)
    ensures CommitAll(s, a + b) == if CommitAll(s, a).None? then None else CommitAll(CommitAll(s, a).value, b)
  {
    if b == [] {
      assert a + b == a;
    } else {
      assert (a + b)[..|a + b| - 1] == a + b[..|b| - 1];
      CommitAllSplits(s, a, b[..|b| - 1]);
    }
  }

  lemma UniqueVersionsGrow(front: seq<Migration>, last: Migration)
    requires UniqueVersions(front) && last.version !in Versions(front)
    ensures UniqueVersions(front + [last]) && Versions(front + [last]) == Versions(front) + {last.version}
  {
    forall i | 0 <= i < |front|
      ensures front[i].version != last.version
    {
      assert front[i] in front;
    }
  }

  lemma CommitRecords(s: Store, m: Migration)
    requires Commit(s, m).Some?
    ensures m.version !in s.applied && Commit(s, m).value.applied == s.applied + {m.version}
  {
  }

  lemma OneMoreVersion(start: set<int>, before: set<int>, after: set<int>, front: seq<Migration>, last: Migration)
    requires before == start + Versions(front) && Versions(front) !! start && UniqueVersions(front)
    requires last.version !in before && after == before + {last.version}
    ensures after == start + Versions(front + [last])
    ensures Versions(front + [last]) !! start && UniqueVersions(front + [last])
  {
    UniqueVersionsGrow(front, last);
  }

  /** After each commit the recorded versions are the initial ones and those committed. */
  lemma {:induction false} CommittedVersions(s: Store, ms: seq<Migration>)
    requires CommitAll(s, ms).Some?
    ensures CommitAll(s, ms).value.applied == s.applied + Versions(ms)
    ensures Versions(ms) !! s.applied && UniqueVersions(ms)
  {
    if ms != [] {
      var (front, last) := (ms[..|ms| - 1], ms[|ms| - 1]);
      var (before, after) := (CommitAll(s, front).value, CommitAll(s, ms).value);
      CommittedVersions(s, front);
      CommitRecords(before, last);
      OneMoreVersion(s.applied, before.applied, after.applied, front, last);
      assert ms == front + [last];
    }
  }

  /** Among ascending migrations, those after the first n are those whose version is not among
      the first n versions. */
  lemma RestOfAscending(pending: seq<Migration>, n: nat, m: Migration)
    requires Ascending(pending) && n <= |pending|
    ensures m in pending[n..] <==> m in pending && m.version !in Versions(pending[..n])
  {
    if m in pending {
      var i :| 0 <= i < |pending| && pending[i] == m;
      if i < n {
        assert pending[..n][i] == m;
        assert forall x :: x in pending[n..] ==> x.version != m.version;
      } else {
        assert pending[n..][i - n] == m;
        assert forall x :: x in pending[..n] ==> x.version != m.version;
      }
    }
  }

  /** After the first n pending migrations, exactly the others are pending, in the same order. */
  lemma RestIsPending(entries: seq<Entry>, s: Store, s': Store, n: nat)
    requires Resumable(entries, s.applied)
    requires LeavesPrefix(Pending(entries, s.applied).value, s, s', n)
    ensures Pending(entries, s'.applied) == Some(Pending(entries, s.applied).value[n..])
  {
    var (pending, rest) := (Pending(entries, s.applied).value, Pending(entries, s'.applied).value);
    CommittedVersions(s, pending[..n]);
    PendingIsAscending(entries, s.applied, s.applied);
    PendingIsAscending(entries, s.applied, s'.applied);
    forall m
      ensures m in rest <==> m in pending[n..]
    {
      RestOfAscending(pending, n, m);
    }
    AscendingIsUnique(rest, pending[n..]);
  }

  lemma PrefixOfPrefix(pending: seq<Migration>, start: Store, s: Store, s': Store, n: nat, k: nat)
    requires LeavesPrefix(pending, start, s, n) && LeavesPrefix(pending[n..], s, s', k)
    ensures LeavesPrefix(pending, start, s', n + k)
  {
    assert pending[..n + k] == pending[..n] + pending[n..][..k];
    CommitAllSplits(start, pending[..n], pending[n..][..k]);
  }

  lemma CommittedPart(entries: seq<Entry>, pending: seq<Migration>, s: Store, s': Store, success: bool)
    returns (k: nat)
    requires Pending(entries, s.applied) == Some(pending) && MayLeave(entries, s, s', success)
    ensures LeavesPrefix(pending, s, s', k) && (success ==> k == |pending| && ForeignKeysIntact(s'.db))
  {
    k :| LeavesPrefix(pending, s, s', k) && (success ==> k == |pending| && ForeignKeysIntact(s'.db));
  }

  /** A call resumed after n commits can only move further along the same pending list. */
  lemma ResumedCall(entries: seq<Entry>, pending: seq<Migration>, start: Store, s: Store, s': Store, n: nat,
          success: bool)
    returns (n': nat)
    requires Resumable(entries, start.applied) && Pending(entries, start.applied) == Some(pending)
    requires LeavesPrefix(pending, start, s, n) && MayLeave(entries, s, s', success)
    ensures n <= n' && LeavesPrefix(pending, start, s', n')
    ensures success ==> n' == |pending| && ForeignKeysIntact(s'.db)
  {
    RestIsPending(entries, start, s, n);
    var k := CommittedPart(entries, pending[n..], s, s', success);
    PrefixOfPrefix(pending, start, s, s', n, k);
    n' := n + k;
  }

  // ----- Any number of calls -----

  /** A series of calls, each interrupted or not, and what was on disk around them. */
  ghost predicate Calls(entries: seq<Entry>, disk: seq<Store>, success: seq<bool>) {
    && |disk| == |success| + 1
    && forall i :: 0 <= i < |success| ==> MayLeave(entries, disk[i], disk[i + 1], success[i])
  }

  /** Around the first calls the disk holds its start with a first part of one pending list committed,
      and that part only grows. */
  ghost predicate OnOnePath(pending: seq<Migration>, disk: seq<Store>, n: seq<nat>) {
    && |n| <= |disk|
    && (forall k :: 0 <= k < |n| ==> LeavesPrefix(pending, disk[0], disk[k], n[k]))
    && forall k :: 0 <= k < |n| - 1 ==> n[k] <= n[k + 1]
  }

  lemma PathGoesOn(pending: seq<Migration>, disk: seq<Store>, n: seq<nat>, next: nat)
    requires OnOnePath(pending, disk, n) && 0 < |n| < |disk| && n[|n| - 1] <= next
    requires LeavesPrefix(pending, disk[0], disk[|n|], next)
    ensures OnOnePath(pending, disk, n + [next])
  {
  }

  /** Over any series of calls the disk stays on one path, and a successful call takes it to the end. */
  lemma {:induction false} DiskFollowsOnePath(entries: seq<Entry>, pending: seq<Migration>, disk: seq<Store>,
          success: seq<bool>, i: nat)
    returns (n: seq<nat>)
    requires Calls(entries, disk, success) && Resumable(entries, disk[0].applied) && i <= |success|
    requires Pending(entries, disk[0].applied) == Some(pending)
    ensures |n| == i + 1 && OnOnePath(pending, disk, n)
    ensures i > 0 && success[i - 1] ==> n[i] == |pending| && ForeignKeysIntact(disk[i].db)
  {
    if i == 0 {
      n := [0];
      assert pending[..0] == [];
    } else {
      var before := DiskFollowsOnePath(entries, pending, disk, success, i - 1);
      var next := ResumedCall(entries, pending, disk[0], disk[i - 1], disk[i], before[i - 1], success[i - 1]);
      PathGoesOn(pending, disk, before, next);
      n := before + [next];
    }
  }

  /** Without distinct pending versions no uninterrupted call succeeds. */
  lemma SuccessNeedsDistinctVersions(entries: seq<Entry>, s: Store, s': Store)
    requires MayLeave(entries, s, s', true)
    ensures Resumable(entries, s.applied)
  {
    var (pending, unapplied) := (Pending(entries, s.applied).value, Unapplied(Scripts(entries).value, s.applied));
    assert pending[..|pending|] == pending;
    CommittedVersions(s, pending);
    SortSorts(unapplied, ByVersion());
    PermutationKeepsVersionsUnique(pending, unapplied);
  }

  /** Take any series of interrupted calls that ends in success.  One uninterrupted call from the
      same start may leave the same disk, and succeed, exactly when the versions still to be applied
      at the start were proper and distinct. */
  lemma CrashAndResumeEqualsOneRun(entries: seq<Entry>, disk: seq<Store>, success: seq<bool>)
    requires Calls(entries, disk, success) && |success| > 0 && success[|success| - 1]
    ensures MayLeave(entries, disk[0], disk[|success|], true) <==> Resumable(entries, disk[0].applied)
  {
    var (first, last) := (disk[0], disk[|success|]);
    if Resumable(entries, first.applied) {
      var pending := Pending(entries, first.applied).value;
      var n := DiskFollowsOnePath(entries, pending, disk, success, |success|);
      assert LeavesPrefix(pending, first, last, |pending|);
    }
    if MayLeave(entries, first, last, true) {
      SuccessNeedsDistinctVersions(entries, first, last);
    }
  }

  /** A successful call leaves one possible disk: every pending script committed in order, and the
      recorded versions the initial ones and those of the pending scripts. */
  lemma SuccessIsDetermined(entries: seq<Entry>, s: Store, s': Store)
    requires MayLeave(entries, s, s', true)
    ensures var pending := Pending(entries, s.applied).value;
            && CommitAll(s, pending) == Some(s')
            && s'.applied == s.applied + Versions(pending)
            && Versions(pending) !! s.applied
            && ForeignKeysIntact(s'.db)
  {
    var pending := Pending(entries, s.applied).value;
    assert pending[..|pending|] == pending;
    CommittedVersions(s, pending);
  }
}
