/** The migration runner: which scripts are pending, one transaction for each, and what remains
    after interruptions. */
module Migrations {
  import opened Wrappers
  import opened TextOrder
  import opened Sorting
  import opened Relational

  // ----- Files -----

  datatype Entry = Entry(name: string, isDir: bool, script: seq<Statement>)

  datatype Migration = Migration(version: int, name: string, script: seq<Statement>)

  predicate IsScript(e: Entry) {
    !e.isDir && |e.name| >= 4 && e.name[|e.name| - 4..] == ".sql"
  }

  lemma ScriptNames(e: Entry)
    ensures IsScript(e) <==> !e.isDir && exists stem :: e.name == stem + ".sql"
  {
    if IsScript(e) {
      var stem := e.name[..|e.name| - 4];
      assert e.name == stem + ".sql";
    }
  }

  /** The part before the first underscore, if there is one. */
  function Prefix(name: string): Option<string> {
    if name == [] then None
    else if name[0] == '_' then Some("")
    else
      var rest := Prefix(name[1..]);
      if rest.None? then None else Some([name[0]] + rest.value)
  }

  function VersionOf(name: string): Option<int> {
    var prefix := Prefix(name);
    if prefix.None? then None else ParseInt(prefix.value)
  }

  lemma {:induction false} PrefixIs(name: string, prefix: string)
    ensures Prefix(name) == Some(prefix) <==>
            |prefix| < |name| && name[..|prefix|] == prefix && name[|prefix|] == '_' && '_' !in prefix
  {
    if name == [] {
    } else if name[0] == '_' {
      if 0 < |prefix| < |name| && name[..|prefix|] == prefix {
        assert prefix[0] == name[..|prefix|][0];
        assert '_' in prefix;
      }
    } else if prefix != [] {
      PrefixIs(name[1..], prefix[1..]);
      assert prefix == [prefix[0]] + prefix[1..] && name == [name[0]] + name[1..];
      assert |prefix| < |name| ==> name[..|prefix|] == [name[0]] + name[1..][..|prefix| - 1];
    }
  }

  /** The version is the number before the first underscore. */
  lemma VersionOfIs(name: string, version: int)
    ensures VersionOf(name) == Some(version) <==>
            exists n: nat :: n < |name| && name[n] == '_' && '_' !in name[..n] && ParseInt(name[..n]) == Some(version)
  {
    if VersionOf(name) == Some(version) {
      var prefix := Prefix(name).value;
      PrefixIs(name, prefix);
      var n: nat := |prefix|;
      assert n < |name| && name[n] == '_' && '_' !in name[..n] && ParseInt(name[..n]) == Some(version);
    }
    if n: nat :| n < |name| && name[n] == '_' && '_' !in name[..n] && ParseInt(name[..n]) == Some(version) {
      PrefixIs(name, name[..n]);
    }
  }

  /** Every script with its version; None if a script's name has no proper version. */
  function Scripts(entries: seq<Entry>): Option<seq<Migration>> {
    if entries == [] then Some([])
    else
      var (front, e) := (Scripts(entries[..|entries| - 1]), entries[|entries| - 1]);
      if front.None? then None
      else if !IsScript(e) then front
      else if VersionOf(e.name).None? then None
      else Some(front.value + [Migration(VersionOf(e.name).value, e.name, e.script)])
  }

  ghost predicate Describes(m: Migration, e: Entry) {
    IsScript(e) && VersionOf(e.name) == Some(m.version) && m.name == e.name && m.script == e.script
  }

  /** The list is missing exactly if some script has no version; otherwise it describes the scripts. */
  lemma {:induction false} ScriptsAreTheFiles(entries: seq<Entry>)
    ensures Scripts(entries).None? <==> exists e :: e in entries && IsScript(e) && VersionOf(e.name).None?
    ensures Scripts(entries).Some? ==>
              forall m :: m in Scripts(entries).value <==> exists e :: e in entries && Describes(m, e)
  {
    if entries != [] {
      var (front, last) := (entries[..|entries| - 1], entries[|entries| - 1]);
      ScriptsAreTheFiles(front);
      assert forall e :: e in entries <==> e in front || e == last;
      if Scripts(entries).Some? {
        forall m
          ensures m in Scripts(entries).value <==> exists e :: e in entries && Describes(m, e)
        {
          assert (exists e :: e in entries && Describes(m, e))
                 <==> (exists e :: e in front && Describes(m, e)) || Describes(m, last);
        }
      }
    }
  }

  function Unapplied(ms: seq<Migration>, applied: set<int>): seq<Migration> {
    if ms == [] then []
    else
      var m := ms[|ms| - 1];
      Unapplied(ms[..|ms| - 1], applied) + if m.version in applied then [] else [m]
  }

  function ByVersion(): (Migration, Migration) -> bool {
    (x: Migration, y: Migration) => x.version <= y.version
  }

  function Pending(entries: seq<Entry>, applied: set<int>): Option<seq<Migration>> {
    var scripts := Scripts(entries);
    if scripts.None? then None else Some(Sort(Unapplied(scripts.value, applied), ByVersion()))
  }

  lemma {:induction false} MalformedPrefix(entries: seq<Entry>, n: nat)
    requires n <= |entries| && Scripts(entries[..n]).None?
    ensures Scripts(entries).None?
    decreases |entries| - n
  {
    if n < |entries| {
      assert entries[..n + 1][..n] == entries[..n];
      MalformedPrefix(entries, n + 1);
    } else {
      assert entries[..n] == entries;
    }
  }

  lemma {:induction false} UnappliedAre(ms: seq<Migration>, applied: set<int>)
    ensures forall m :: m in Unapplied(ms, applied) <==> m in ms && m.version !in applied
  {
    if ms != [] {
      var front := ms[..|ms| - 1];
      UnappliedAre(front, applied);
      assert ms == front + [ms[|ms| - 1]];
    }
  }

  lemma SortedByVersion(ms: seq<Migration>)
    ensures forall m :: m in Sort(ms, ByVersion()) <==> m in ms
    ensures var sorted := Sort(ms, ByVersion());
            forall i, j :: 0 <= i < j < |sorted| ==> sorted[i].version <= sorted[j].version
  {
    var sorted := Sort(ms, ByVersion());
    SortSorts(ms, ByVersion());
    forall m ensures m in sorted <==> m in ms {
      assert m in multiset(sorted) <==> m in multiset(ms);
    }
    forall i, j | 0 <= i < j < |sorted|
      ensures sorted[i].version <= sorted[j].version
    {
      assert ByVersion()(sorted[i], sorted[j]);
    }
  }

  ghost predicate Ordered(ms: seq<Migration>) {
    forall i, j :: 0 <= i < j < |ms| ==> ms[i].version <= ms[j].version
  }

  lemma UnappliedInOrder(ms: seq<Migration>, applied: set<int>)
    ensures Ordered(Sort(Unapplied(ms, applied), ByVersion()))
    ensures forall m :: m in Sort(Unapplied(ms, applied), ByVersion()) <==> m in ms && m.version !in applied
  {
    UnappliedAre(ms, applied);
    SortedByVersion(Unapplied(ms, applied));
  }

  lemma PendingOf(entries: seq<Entry>, scripts: seq<Migration>, applied: set<int>)
    requires Scripts(entries) == Some(scripts)
    ensures Pending(entries, applied) == Some(Sort(Unapplied(scripts, applied), ByVersion()))
  {
  }

  /** The unrecorded script is one of the files. */
  ghost predicate Unrecorded(m: Migration, entries: seq<Entry>, applied: set<int>) {
    m.version !in applied && exists e :: e in entries && Describes(m, e)
  }

  /** What is pending: in ascending order, the scripts whose version is not recorded. */
  lemma PendingAreTheUnrecorded(entries: seq<Entry>, applied: set<int>)
    ensures Pending(entries, applied).Some? ==> Ordered(Pending(entries, applied).value)
    ensures Pending(entries, applied).Some? ==>
              forall m :: m in Pending(entries, applied).value <==> Unrecorded(m, entries, applied)
  {
    if Scripts(entries).Some? {
      var scripts := Scripts(entries).value;
      ScriptsAreTheFiles(entries);
      UnappliedInOrder(scripts, applied);
      PendingOf(entries, scripts, applied);
      var pending := Pending(entries, applied).value;
      forall m
        ensures m in pending <==> Unrecorded(m, entries, applied)
      {
        assert m in pending <==> m in scripts && m.version !in applied;
      }
    }
  }

  lemma NextScript(entries: seq<Entry>, i: nat, m: Migration, applied: set<int>)
    requires i < |entries| && Scripts(entries[..i]).Some? && Describes(m, entries[i])
    ensures Scripts(entries[..i + 1]) == Some(Scripts(entries[..i]).value + [m])
    ensures Unapplied(Scripts(entries[..i + 1]).value, applied)
            == Unapplied(Scripts(entries[..i]).value, applied) + if m.version in applied then [] else [m]
  {
    var scripts := Scripts(entries[..i]).value;
    assert entries[..i + 1][..i] == entries[..i];
    assert (scripts + [m])[..|scripts|] == scripts;
  }

  // ----- Transactions -----

  /** What is on disk: the tables and the rows of schema_migrations. */
  datatype Store = Store(db: Db, applied: set<int>)

  /** One migration's transaction, with enforcement off; None rolls back. */
  function Commit(s: Store, m: Migration): Option<Store> {
    var db := ExecAll(m.script, s.db, false);
    if db.None? || m.version in s.applied then None else Some(Store(db.value, s.applied + {m.version}))
  }

  function CommitAll(s: Store, ms: seq<Migration>): Option<Store> {
    if ms == [] then Some(s)
    else
      var before := CommitAll(s, ms[..|ms| - 1]);
      if before.None? then None else Commit(before.value, ms[|ms| - 1])
  }

  datatype Result = Succeeded | IoFailure | BadFilename | ScriptFailure | ForeignKeyViolation

  ghost predicate LeavesPrefix(pending: seq<Migration>, s: Store, s': Store, n: nat) {
    n <= |pending| && CommitAll(s, pending[..n]) == Some(s')
  }

  /** What one call may leave: some first pending migrations, whole, in ascending order; all of them
      and intact foreign keys if it reports success. */
  ghost predicate MayLeave(entries: seq<Entry>, s: Store, s': Store, success: bool) {
    var pending := Pending(entries, s.applied);
    if pending.None? then s' == s && !success
    else
      exists n: nat ::
        LeavesPrefix(pending.value, s, s', n)
        && (success ==> n == |pending.value| && ForeignKeysIntact(s'.db))
  }

  /** The next pending migration cannot be committed from here. */
  ghost predicate StopsAtScript(entries: seq<Entry>, s: Store, s': Store) {
    var pending := Pending(entries, s.applied);
    pending.Some? && exists n: nat ::
      LeavesPrefix(pending.value, s, s', n) && n < |pending.value| && Commit(s', pending.value[n]).None?
  }

  ghost predicate StopsAtViolation(entries: seq<Entry>, s: Store, s': Store) {
    var pending := Pending(entries, s.applied);
    pending.Some? && CommitAll(s, pending.value) == Some(s') && !ForeignKeysIntact(s'.db)
  }

  lemma NothingDone(entries: seq<Entry>, s: Store)
    ensures MayLeave(entries, s, s, false)
  {
    var pending := Pending(entries, s.applied);
    if pending.Some? {
      assert pending.value[..0] == [];
      assert LeavesPrefix(pending.value, s, s, 0);
    }
  }

  class Connection {
    var db: Db
    var applied: set<int>
    var enforcing: bool

    function OnDisk(): Store
      reads this
    {
      Store(db, applied)
    }

    method PendingScripts(entries: seq<Entry>) returns (pending: Option<seq<Migration>>)
      ensures pending == Pending(entries, applied)
      ensures pending.None? <==> exists e :: e in entries && IsScript(e) && VersionOf(e.name).None?
      ensures pending.Some? ==>
                Ordered(pending.value) && forall m :: m in pending.value <==> Unrecorded(m, entries, applied)
    {
      ScriptsAreTheFiles(entries);
      PendingAreTheUnrecorded(entries, applied);
      var found := [];
      for i := 0 to |entries|
        invariant Scripts(entries[..i]).Some? && found == Unapplied(Scripts(entries[..i]).value, applied)
      {
        var e := entries[i];
        assert entries[..i + 1][..i] == entries[..i];
        if !IsScript(e) {
          continue;
        }
        var version := VersionOf(e.name);
        if version.None? {
          MalformedPrefix(entries, i + 1);
          return None;
        }
        var m := Migration(version.value, e.name, e.script);
        NextScript(entries, i, m, applied);
        if version.value !in applied {
          found := found + [m];
        }
      }
      assert entries[..|entries|] == entries;
      pending := Some(Sort(found, ByVersion()));
    }

    method ApplyOne(m: Migration, healthy: bool) returns (r: Result)
      requires !enforcing
      modifies this`db, this`applied
      ensures healthy ==> r != IoFailure
      ensures r in {Succeeded, IoFailure, ScriptFailure}
      ensures r == Succeeded ==> Commit(old(OnDisk()), m) == Some(OnDisk())
      ensures r != Succeeded ==> OnDisk() == old(OnDisk())
      ensures r == ScriptFailure ==> Commit(old(OnDisk()), m).None?
    {
      var failed := Fails(healthy);
      if failed {
        return IoFailure;
      }
      var work := db;
      for j := 0 to |m.script|
        invariant OnDisk() == old(OnDisk())
        invariant ExecAll(m.script, db, false) == ExecAll(m.script[j..], work, false)
      {
        var next := Exec(m.script[j], work, enforcing);
        assert m.script[j..][1..] == m.script[j + 1..];
        failed := Fails(healthy);
        if failed {
          return IoFailure;
        }
        if next.None? {
          return ScriptFailure;
        }
        work := next.value;
      }
      if m.version in applied {
        return ScriptFailure;
      }
      failed := Fails(healthy);
      if failed {
        return IoFailure;
      }
      db, applied := work, applied + {m.version};
      r := Succeeded;
    }

    method ApplyPending(pending: seq<Migration>, healthy: bool) returns (r: Result)
      requires !enforcing
      modifies this`db, this`applied
      ensures healthy ==> r != IoFailure
      ensures r != BadFilename
      ensures exists n: nat :: LeavesPrefix(pending, old(OnDisk()), OnDisk(), n)
                && (r in {Succeeded, ForeignKeyViolation} ==> n == |pending|)
                && (r == Succeeded ==> ForeignKeysIntact(db)) && (r == ForeignKeyViolation ==> !ForeignKeysIntact(db))
                && (r == ScriptFailure ==> n < |pending| && Commit(OnDisk(), pending[n]).None?)
    {
      for i := 0 to |pending|
        invariant LeavesPrefix(pending, old(OnDisk()), OnDisk(), i)
      {
        assert pending[..i + 1][..i] == pending[..i];
        r := ApplyOne(pending[i], healthy);
        if r != Succeeded {
          return;
        }
      }
      assert pending[..|pending|] == pending;
      var failed := Fails(healthy);
      if failed {
        return IoFailure;
      }
      r := if ForeignKeysIntact(db) then Succeeded else ForeignKeyViolation;
    }

    method MigrateUnenforced(entries: seq<Entry>, healthy: bool) returns (r: Result)
      requires !enforcing
      modifies this`db, this`applied
      ensures MayLeave(entries, old(OnDisk()), OnDisk(), r == Succeeded)
      ensures healthy ==> r != IoFailure
      ensures r == BadFilename <==> r != IoFailure && Scripts(entries).None?
      ensures r == ForeignKeyViolation ==> StopsAtViolation(entries, old(OnDisk()), OnDisk())
      ensures r == ScriptFailure ==> StopsAtScript(entries, old(OnDisk()), OnDisk())
    {
      NothingDone(entries, OnDisk());
      var failed := Fails(healthy);
      if failed {
        return IoFailure;
      }
      var pending := PendingScripts(entries);
      if pending.None? {
        return BadFilename;
      }
      r := ApplyPending(pending.value, healthy);
      assert pending.value[..|pending.value|] == pending.value;
    }

    /** Any statement may fail, which also stands for a crash at that point: nothing of an open
        transaction remains.  Restoring enforcement on return is taken to succeed. */
    method Migrate(entries: seq<Entry>, healthy: bool) returns (r: Result)
      modifies this
      ensures old(enforcing) ==> enforcing
      ensures r != IoFailure ==> enforcing
      ensures MayLeave(entries, old(OnDisk()), OnDisk(), r == Succeeded)
      ensures healthy ==> r != IoFailure
      ensures r == BadFilename <==> r != IoFailure && Scripts(entries).None?
      ensures r == ForeignKeyViolation ==> StopsAtViolation(entries, old(OnDisk()), OnDisk())
      ensures r == ScriptFailure ==> StopsAtScript(entries, old(OnDisk()), OnDisk())
    {
      ghost var start := OnDisk();
      assert CommitAll(start, []) == Some(start);
      var failed := Fails(healthy);
      if failed {
        NothingDone(entries, start);
        return IoFailure;
      }
      enforcing := false;
      r := MigrateUnenforced(entries, healthy);
      enforcing := true;
    }
  }
}
