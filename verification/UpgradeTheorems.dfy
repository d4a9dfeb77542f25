/** Upgrading an installed version-1 database with the four shipped files. */
module UpgradeTheorems {
  import opened Wrappers
  import opened TextOrder
  import opened Sorting
  import opened Relational
  import opened Migrations
  import opened Resumption
  import opened Upgrade

  // ----- The embedded directory -----

  function Entries(s1: seq<Statement>, s2: seq<Statement>, s3: seq<Statement>, s4: seq<Statement>): seq<Entry> {
    [Entry(NAME_1, false, s1), Entry(NAME_2, false, s2), Entry(NAME_3, false, s3), Entry(NAME_4, false, s4)]
  }

  /** The embedded files in directory order; `init` is the version-1 script, which an installed
      database has recorded. */
  function Shipped(init: seq<Statement>): seq<Entry> {
    Entries(init, FREE_TEXT_OWNER, DROP_GMAIL, KIND_STATUS_LAST_UPDATED)
  }

  lemma PrefixFound(prefix: string, rest: string)
    requires '_' !in prefix
    ensures Prefix(prefix + "_" + rest) == Some(prefix)
  {
    var name := prefix + "_" + rest;
    if prefix != [] {
      PrefixFound(prefix[1..], rest);
      assert name[1..] == prefix[1..] + "_" + rest;
      assert [prefix[0]] + prefix[1..] == prefix;
    }
  }

  lemma VersionOfPadded(n: nat, rest: string)
    requires n < Pow10(4)
    ensures VersionOf(Pad(n, 4) + "_" + rest) == Some(n)
  {
    PrefixFound(Pad(n, 4), rest);
    NumberOfPad(n, 4);
    assert Pad(n, 4)[0] !in {'+', '-'};
    assert Pow10(4) == 10000;
  }

  lemma NamedVersion(n: nat, title: string)
    requires n < 10000
    ensures VersionOf(FileName(n, title)) == Some(n)
    ensures forall script :: IsScript(Entry(FileName(n, title), false, script))
  {
    assert Pow10(4) == 10000;
    VersionOfPadded(n, title + ".sql");
    var name := FileName(n, title);
    assert name[|name| - 4..] == ".sql";
  }

  lemma ShippedVersions()
    ensures VersionOf(NAME_1) == Some(1) && VersionOf(NAME_2) == Some(2)
    ensures VersionOf(NAME_3) == Some(3) && VersionOf(NAME_4) == Some(4)
    ensures forall script :: IsScript(Entry(NAME_1, false, script)) && IsScript(Entry(NAME_2, false, script))
    ensures forall script :: IsScript(Entry(NAME_3, false, script)) && IsScript(Entry(NAME_4, false, script))
  {
    NamedVersion(1, "init");
    NamedVersion(2, "free_text_owner");
    NamedVersion(3, "drop_gmail");
    NamedVersion(4, "program_kind_status_last_updated");
  }

  lemma ScriptsOfOneMore(front: seq<Entry>, ms: seq<Migration>, e: Entry, version: int)
    requires Scripts(front) == Some(ms) && IsScript(e) && VersionOf(e.name) == Some(version)
    ensures Scripts(front + [e]) == Some(ms + [Migration(version, e.name, e.script)])
  {
    assert (front + [e])[..|front|] == front;
  }

  lemma FourScripts(e1: Entry, e2: Entry, e3: Entry, e4: Entry, v1: int, v2: int, v3: int, v4: int)
    requires IsScript(e1) && IsScript(e2) && IsScript(e3) && IsScript(e4)
    requires VersionOf(e1.name) == Some(v1) && VersionOf(e2.name) == Some(v2)
    requires VersionOf(e3.name) == Some(v3) && VersionOf(e4.name) == Some(v4)
    ensures Scripts([e1, e2, e3, e4])
            == Some([Migration(v1, e1.name, e1.script), Migration(v2, e2.name, e2.script),
                     Migration(v3, e3.name, e3.script), Migration(v4, e4.name, e4.script)])
  {
    var (m1, m2) := (Migration(v1, e1.name, e1.script), Migration(v2, e2.name, e2.script));
    var m3 := Migration(v3, e3.name, e3.script);
    assert [e1, e2] == [e1] + [e2] && [e1, e2, e3] == [e1, e2] + [e3];
    assert [] + [e1] == [e1] && [] + [m1] == [m1];
    assert [m1, m2] == [m1] + [m2] && [m1, m2, m3] == [m1, m2] + [m3];
    ScriptsOfOneMore([], [], e1, v1);
    ScriptsOfOneMore([e1], [m1], e2, v2);
    ScriptsOfOneMore([e1, e2], [m1, m2], e3, v3);
    ScriptsOfOneMore([e1, e2, e3], [m1, m2, m3], e4, v4);
    assert [e1, e2, e3, e4] == [e1, e2, e3] + [e4];
    assert [m1, m2, m3, Migration(v4, e4.name, e4.script)] == [m1, m2, m3] + [Migration(v4, e4.name, e4.script)];
  }

  lemma RestOfFour(pending: seq<Migration>, m1: Migration, m2: Migration, m3: Migration, m4: Migration)
    requires m1.version == 1 < m2.version < m3.version < m4.version
    requires Ascending(pending) && forall m :: m in pending <==> m in [m1, m2, m3, m4] && m.version !in {1}
    ensures pending == [m2, m3, m4]
  {
    forall m
      ensures m in pending <==> m in [m2, m3, m4]
    {
      assert m in [m1, m2, m3, m4] <==> m == m1 || m in [m2, m3, m4];
    }
    AscendingIsUnique(pending, [m2, m3, m4]);
  }

  /** Once version 1 is recorded, the others are pending in the order of their numbers. */
  lemma {:induction false} PendingAfterFirst(entries: seq<Entry>, m1: Migration, m2: Migration, m3: Migration,
          m4: Migration)
    requires Scripts(entries) == Some([m1, m2, m3, m4])
    requires m1.version == 1 < m2.version < m3.version < m4.version
    ensures Pending(entries, {1}) == Some([m2, m3, m4])
  {
    UnappliedStaysUnique([m1, m2, m3, m4], {1});
    PendingIsAscending(entries, {1}, {1});
    RestOfFour(Pending(entries, {1}).value, m1, m2, m3, m4);
  }

  lemma EntriesPending(s1: seq<Statement>, s2: seq<Statement>, s3: seq<Statement>, s4: seq<Statement>)
    ensures Pending(Entries(s1, s2, s3, s4), {1})
            == Some([Migration(2, NAME_2, s2), Migration(3, NAME_3, s3), Migration(4, NAME_4, s4)])
  {
    ShippedVersions();
    FourScripts(Entry(NAME_1, false, s1), Entry(NAME_2, false, s2), Entry(NAME_3, false, s3),
                Entry(NAME_4, false, s4), 1, 2, 3, 4);
    PendingAfterFirst(Entries(s1, s2, s3, s4), Migration(1, NAME_1, s1), Migration(2, NAME_2, s2),
                      Migration(3, NAME_3, s3), Migration(4, NAME_4, s4));
  }

  // ----- The upgrade -----

  lemma {:induction false} PrefixCommits(s: Store, ms: seq<Migration>, n: nat)
    requires CommitAll(s, ms).Some? && n <= |ms|
    ensures CommitAll(s, ms[..n]).Some?
    ensures n < |ms| ==> Commit(CommitAll(s, ms[..n]).value, ms[n]).Some?
  {
    if n < |ms| {
      var front := ms[..|ms| - 1];
      if n < |front| {
        PrefixCommits(s, front, n);
      }
      assert front[..|front|] == front;
      assert ms[..n] == front[..n];
    } else {
      assert ms[..n] == ms;
    }
  }

  lemma ShippedPending(init: seq<Statement>)
    ensures Pending(Shipped(init), {1}) == Some([M2, M3, M4])
  {
    EntriesPending(init, FREE_TEXT_OWNER, DROP_GMAIL, KIND_STATUS_LAST_UPDATED);
  }

  /** When all that is pending commits and leaves intact foreign keys, nothing but I/O can fail. */
  lemma OnlyFaultsCanFail(entries: seq<Entry>, s: Store, pending: seq<Migration>, end: Store, after: Store)
    requires Pending(entries, s.applied) == Some(pending)
    requires CommitAll(s, pending) == Some(end) && ForeignKeysIntact(end.db)
    ensures !StopsAtScript(entries, s, after) && !StopsAtViolation(entries, s, after)
    ensures MayLeave(entries, s, end, true)
    ensures MayLeave(entries, s, after, true) ==> after == end
  {
    assert pending[..|pending|] == pending;
    assert LeavesPrefix(pending, s, end, |pending|);
    if StopsAtScript(entries, s, after) {
      var n: nat :| LeavesPrefix(pending, s, after, n) && n < |pending| && Commit(after, pending[n]).None?;
      PrefixCommits(s, pending, n);
    }
  }

  /** From any version-1 database the runner cannot fail on a script or on integrity, may succeed,
      and whenever it succeeds has kept every account, sent notification and setting, filled the new
      columns, satisfied the new CHECKs and left every foreign key intact. */
  lemma UpgradePreservesData(db: Db, init: seq<Statement>, after: Store)
    requires IsVersion1(db)
    ensures !StopsAtScript(Shipped(init), Store(db, {1}), after)
    ensures !StopsAtViolation(Shipped(init), Store(db, {1}), after)
    ensures exists s :: MayLeave(Shipped(init), Store(db, {1}), s, true)
    ensures MayLeave(Shipped(init), Store(db, {1}), after, true) ==>
              && after.applied == {1, 2, 3, 4}
              && KeepsData(db, after.db)
              && Conforms(after.db[Accounts]) && Conforms(after.db[EmailSettings])
              && ForeignKeysIntact(after.db)
  {
    var (s, pending) := (Store(db, {1}), [M2, M3, M4]);
    ShippedPending(init);
    Version1IsReady(db);
    UpgradeCommits(db);
    UpgradeKeepsData(db);
    UpgradedTablesConform(db);
    UpgradedIntegrity(db);
    OnlyFaultsCanFail(Shipped(init), s, pending, Store(Upgraded(db), {1, 2, 3, 4}), after);
  }

  // ----- Why enforcement is off -----

  lemma EverySentRowRefersToAnAccount(db: Db, key: Value)
    requires IsVersion1(db) && key in db[SentNotifications].rows
    ensures RefersTo(db[SentNotifications], db[SentNotifications].rows[key], Accounts, db[Accounts].rows)
  {
    assert SentNotifications in V1;
    var (t, row) := (db[SentNotifications], db[SentNotifications].rows[key]);
    assert t.schema == V1[SentNotifications] == SENT;
    assert RowFits(t.schema, row);
    assert AccountId in row && row[AccountId] != Null && t.schema.references[AccountId] == Accounts;
    assert !Dangles(db, SentNotifications, key, AccountId);
    assert row[AccountId] in db[Accounts].rows;
  }

  lemma RenameKeepsRows(db: Db, from: TableName, to: TableName, enforcing: bool)
    requires from in db && to !in db
    ensures var result := Exec(RenameTable(from, to), db, enforcing);
            && result.Some? && result.value.Keys == db.Keys - {from} + {to}
            && forall t :: t in db && t != from ==> result.value[t].rows == db[t].rows
  {
  }

  function EnforcedDrop(db: Db, name: TableName): Db
    requires name in db
  {
    var rest := db - {name};
    map t | t in rest :: WithoutReferencesTo(rest[t], name, db[name].rows)
  }

  /** With enforcement on, the same rebuild also deletes every row that refers to the old table. */
  lemma RebuildEnforced(db: Db, name: TableName, temporary: TableName, schema: Schema, columns: map<Column, Expr>)
    requires name in db && temporary !in db && name != temporary && CanRebuild(db[name], schema, columns)
    ensures var result := ExecAll(Rebuild(name, temporary, schema, columns), db, true);
            && result.Some? && result.value.Keys == db.Keys
            && forall t :: t in db && t != name ==>
                 result.value[t].rows == WithoutReferencesTo(db[t], name, db[name].rows).rows
  {
    var copied := db[temporary := Table(schema, RebuiltRows(db[name], columns))];
    var dropped := EnforcedDrop(copied, name);
    CopyRuns(db, name, temporary, schema, columns, true);
    RenameKeepsRows(dropped, temporary, name, true);
    var end := Exec(RenameTable(temporary, name), dropped, true).value;
    ExecFour(Rebuild(name, temporary, schema, columns), db, db[temporary := Table(schema, map[])], copied, dropped,
        end, true);
    assert dropped.Keys == db.Keys + {temporary} - {name};
    forall t | t in db && t != name
      ensures end[t].rows == WithoutReferencesTo(db[t], name, db[name].rows).rows
    {
      assert dropped[t] == WithoutReferencesTo(copied[t], name, copied[name].rows);
    }
  }

  lemma OwnerRowsCanBeCopied(t: Table)
    requires RowsFit(t.rows, ACCOUNTS_V1)
    ensures CanRebuild(t, ACCOUNTS_V2, CopyAll(ACCOUNT_COLUMNS))
  {
    OwnerFreeAccountsFit(t.rows);
    forall key | key in t.rows
      ensures SelectRow(CopyAll(ACCOUNT_COLUMNS), t.rows[key]) == Some(t.rows[key])
    {
      SelectRowIs(CopyAll(ACCOUNT_COLUMNS), t.rows[key], t.rows[key]);
    }
  }

  lemma NothingRemains(t: Table, parent: TableName, gone: map<Value, Row>)
    requires forall key :: key in t.rows ==> RefersTo(t, t.rows[key], parent, gone)
    ensures WithoutReferencesTo(t, parent, gone).rows == map[]
  {
  }

  /** Were enforcement left on, migration 0002 would succeed and empty sent_notifications. */
  lemma EnforcedUpgradeEmptiesSent(db: Db)
    requires IsVersion1(db)
    ensures var result := ExecAll(FREE_TEXT_OWNER, db, true);
            result.Some? && SentNotifications in result.value && result.value[SentNotifications].rows == map[]
  {
    Version1IsReady(db);
    OwnerRowsCanBeCopied(db[Accounts]);
    RebuildEnforced(db, Accounts, AccountsNew, ACCOUNTS_V2, CopyAll(ACCOUNT_COLUMNS));
    assert SentNotifications in V1;
    forall key | key in db[SentNotifications].rows
      ensures RefersTo(db[SentNotifications], db[SentNotifications].rows[key], Accounts, db[Accounts].rows)
    {
      EverySentRowRefersToAnAccount(db, key);
    }
    NothingRemains(db[SentNotifications], Accounts, db[Accounts].rows);
  }
}
