/** The accounts, thresholds and sent-notification tables: what each statement or transaction
    makes of them, and the service and stores that run those statements. */
module Tables {
  import opened Calendar
  import opened Domain
  import opened TextOrder
  import opened Wrappers

  datatype Tables = Tables(accounts: map<int, Account>, thresholds: map<int, Threshold>, sent: set<SentKey>)

  /** Rows are kept under their own id. */
  ghost predicate Keyed(db: Tables) {
    && (forall id :: id in db.accounts ==> db.accounts[id].id == id)
    && (forall id :: id in db.thresholds ==> db.thresholds[id].id == id)
  }

  /** The UNIQUE constraint on day counts. */
  ghost predicate UniqueDays(db: Tables) {
    forall x, y :: x in db.thresholds && y in db.thresholds && x != y ==>
      db.thresholds[x].daysBefore != db.thresholds[y].daysBefore
  }

  // ----- Accounts -----

  function CreatedAccount(id: int, input: Input, now: int): Account {
    Account(id, input.details, input.balance, StoredExpiration(input), input.doesNotExpire, now, now, now)
  }

  /** An insert; the kind CHECK rejects the row and leaves the table as it was. */
  function AfterCreate(db: Tables, id: int, input: Input, now: int): Tables {
    if ValidKind(input.details.kind)
    then db.(accounts := db.accounts[id := CreatedAccount(id, input, now)])
    else db
  }

  predicate UpdateSucceeds(db: Tables, id: int, input: Input) {
    id in db.accounts && ValidKind(input.details.kind)
  }

  function UpdatedAccount(a: Account, input: Input, now: int): Account {
    a.(details := input.details, balance := input.balance, expiration := StoredExpiration(input),
       doesNotExpire := input.doesNotExpire, updatedAt := now,
       pointsUpdatedAt := if a.balance != input.balance then now else a.pointsUpdatedAt)
  }

  function Without(sent: set<SentKey>, id: int, date: Date): set<SentKey> {
    set k | k in sent && !(k.accountId == id && k.date == date)
  }

  /** The update transaction.  Its test for "the date changes" compares the stored date with the
      date in the input, not with the date it has just stored. */
  function AfterUpdate(db: Tables, id: int, input: Input, now: int): Tables {
    if !UpdateSucceeds(db, id, input) then db
    else
      var a := db.accounts[id];
      db.(accounts := db.accounts[id := UpdatedAccount(a, input, now)],
          sent := if a.expiration == input.expiration then db.sent
                  else Without(db.sent, id, a.expiration))
  }

  function AfterDelete(db: Tables, id: int): Tables {
    db.(accounts := db.accounts - {id}, sent := set k | k in db.sent && k.accountId != id)
  }

  // ----- Thresholds -----

  predicate DaysTaken(ts: map<int, Threshold>, daysBefore: int, except: set<int>) {
    exists id | id in ts.Keys - except :: ts[id].daysBefore == daysBefore
  }

  function AfterAddThreshold(db: Tables, id: int, daysBefore: int): Tables {
    if DaysTaken(db.thresholds, daysBefore, {}) then db
    else db.(thresholds := db.thresholds[id := Threshold(id, daysBefore, true)])
  }

  function AfterUpdateThreshold(db: Tables, id: int, daysBefore: int): Tables {
    if id !in db.thresholds || DaysTaken(db.thresholds, daysBefore, {id}) then db
    else db.(thresholds := db.thresholds[id := db.thresholds[id].(daysBefore := daysBefore)])
  }

  function AfterDeleteThreshold(db: Tables, id: int): Tables {
    db.(thresholds := db.thresholds - {id}, sent := set k | k in db.sent && k.thresholdId != id)
  }

  // ----- Sent notifications -----

  /** INSERT OR IGNORE tolerates a duplicate key but not a missing parent row. */
  predicate RecordSucceeds(db: Tables, k: SentKey) {
    k in db.sent || (k.accountId in db.accounts && k.thresholdId in db.thresholds)
  }

  function AfterRecord(db: Tables, k: SentKey): Tables {
    if RecordSucceeds(db, k) then db.(sent := db.sent + {k}) else db
  }

  // ----- What queries may return -----

  /** Ordered by stored date text and then by name, as the account list is. */
  ghost predicate InListOrder(accts: seq<Account>) {
    forall i, j :: 0 <= i < j < |accts| ==>
      var (x, y) := (Format(accts[i].expiration), Format(accts[j].expiration));
      Less(x, y) || (x == y && AtMost(accts[i].details.name, accts[j].details.name))
  }

  ghost predicate ListsAccounts(db: Tables, accts: seq<Account>) {
    && (forall a :: a in accts <==> a.id in db.accounts && db.accounts[a.id] == a)
    && UniqueAccountIds(accts)
    && InListOrder(accts)
  }

  ghost predicate ListsThresholds(db: Tables, ts: seq<Threshold>) {
    && (forall t :: t in ts <==> t.id in db.thresholds && db.thresholds[t.id] == t)
    && UniqueThresholdIds(ts)
    && forall i, j :: 0 <= i < j < |ts| ==> ts[i].daysBefore <= ts[j].daysBefore
  }

  ghost predicate ListsSent(db: Tables, sent: seq<SentKey>) {
    forall k :: k in sent <==> k in db.sent
  }

  /** The list is chronological, and an account stored with the never-expires date follows every
      account with an earlier date. */
  lemma ListIsChronological(db: Tables, accts: seq<Account>, i: nat, j: nat)
    requires ListsAccounts(db, accts) && i < |accts| && j < |accts|
    ensures DayNumber(accts[i].expiration) < DayNumber(accts[j].expiration) ==> i < j
    ensures accts[j].expiration == NEVER_EXPIRES && accts[i].expiration != NEVER_EXPIRES ==> i < j
    ensures i < j ==> DayNumber(accts[i].expiration) <= DayNumber(accts[j].expiration)
    ensures i < j && accts[i].expiration == accts[j].expiration ==> AtMost(accts[i].details.name, accts[j].details.name)
  {
    var (a, b) := (accts[i].expiration, accts[j].expiration);
    TextOrderIsCalendarOrder(a, b);
    TextOrderIsCalendarOrder(b, a);
    FormatIsInjective(a, b);
    DayNumberOrder(a, b);
  }

  /** Thresholds are listed by strictly increasing day counts. */
  lemma ThresholdsAscend(db: Tables, ts: seq<Threshold>, i: nat, j: nat)
    requires ListsThresholds(db, ts) && UniqueDays(db) && i < j < |ts|
    ensures ts[i].daysBefore < ts[j].daysBefore
  {
    assert ts[i] in ts && ts[j] in ts;
  }

  // ----- The service and the stores -----

  datatype Outcome = Done | NotFound | Rejected | Failed

  class Database {
    var accounts: map<int, Account>
    var thresholds: map<int, Threshold>
    var sent: set<SentKey>

    function Contents(): Tables
      reads this
    {
      Tables(accounts, thresholds, sent)
    }

    /** One insert under the row id SQLite chose, which may have belonged to a deleted account. */
    method CreateAccount(id: int, input: Input, now: int, healthy: bool) returns (r: Outcome)
      requires id !in accounts
      modifies this
      ensures healthy ==> r != Failed
      ensures r != Failed ==> Contents() == AfterCreate(old(Contents()), id, input, now)
      ensures r == Failed ==> Contents() == old(Contents())
      ensures r == Done ==>
                && accounts == old(accounts)[id := Account(
                     id, input.details, input.balance,
                     if input.doesNotExpire then NEVER_EXPIRES else input.expiration, input.doesNotExpire,
                     now, now, now)]
                && thresholds == old(thresholds) && sent == old(sent)
      ensures r != Done ==> Contents() == old(Contents())
      ensures r == Rejected <==> r != Failed && !ValidKind(input.details.kind)
      ensures r != NotFound
    {
      var failed := Fails(healthy);
      if failed {
        return Failed;
      }
      if !ValidKind(input.details.kind) {
        return Rejected;
      }
      accounts := accounts[id := CreatedAccount(id, input, now)];
      r := Done;
    }

    /** One transaction: any statement may fail, and then nothing of it remains. */
    method UpdateAccount(id: int, input: Input, now: int, healthy: bool) returns (r: Outcome)
      modifies this
      ensures healthy ==> r != Failed
      ensures r == Done ==> UpdateSucceeds(old(Contents()), id, input)
                            && Contents() == AfterUpdate(old(Contents()), id, input, now)
      ensures r == Done ==>
                var a := old(accounts)[id];
                && accounts == old(accounts)[id := Account(
                     a.id, input.details, input.balance,
                     if input.doesNotExpire then NEVER_EXPIRES else input.expiration, input.doesNotExpire,
                     a.createdAt, now, if input.balance == a.balance then a.pointsUpdatedAt else now)]
                && thresholds == old(thresholds)
                && sent == set k | k in old(sent)
                             && (k.accountId != id || k.date != a.expiration || input.expiration == a.expiration)
      ensures r != Done ==> Contents() == old(Contents())
      ensures r == NotFound <==> r != Failed && id !in old(accounts)
      ensures r == Rejected <==> r != Failed && id in old(accounts) && !ValidKind(input.details.kind)
    {
      var failed := Fails(healthy);
      if failed {
        return Failed;
      }
      var rows, marks := accounts, sent;
      if id !in rows {
        return NotFound;
      }
      var beforeDate, beforeBalance := rows[id].expiration, rows[id].balance;

      failed := Fails(healthy);
      if failed {
        return Failed;
      }
      if !ValidKind(input.details.kind) {
        return Rejected;
      }
      rows := rows[id := rows[id].(details := input.details, balance := input.balance,
                                   expiration := StoredExpiration(input),
                                   doesNotExpire := input.doesNotExpire, updatedAt := now)];

      if beforeDate != input.expiration {
        failed := Fails(healthy);
        if failed {
          return Failed;
        }
        marks := Without(marks, id, beforeDate);
      }
      if beforeBalance != input.balance {
        failed := Fails(healthy);
        if failed {
          return Failed;
        }
        rows := rows[id := rows[id].(pointsUpdatedAt := now)];
      }

      failed := Fails(healthy);
      if failed {
        return Failed;
      }
      accounts, sent := rows, marks;
      r := Done;
    }

    method DeleteAccount(id: int, healthy: bool) returns (r: Outcome)
      modifies this
      ensures healthy ==> r != Failed
      ensures r == Done ==> Contents() == AfterDelete(old(Contents()), id)
      ensures r == Done ==> accounts == old(accounts) - {id} && thresholds == old(thresholds)
                            && sent == set k | k in old(sent) && k.accountId != id
      ensures r != Done ==> r == Failed && Contents() == old(Contents())
    {
      var failed := Fails(healthy);
      if failed {
        return Failed;
      }
      accounts := accounts - {id};
      sent := set k | k in sent && k.accountId != id;
      r := Done;
    }

    method AddThreshold(id: int, daysBefore: int, healthy: bool) returns (r: Outcome)
      requires id !in thresholds
      modifies this
      ensures healthy ==> r != Failed
      ensures r != Failed ==> Contents() == AfterAddThreshold(old(Contents()), id, daysBefore)
      ensures r in {Done, Rejected, Failed}
      ensures r == Rejected <==>
                r != Failed && exists x :: x in old(thresholds) && old(thresholds)[x].daysBefore == daysBefore
      ensures r == Done ==> thresholds == old(thresholds)[id := Threshold(id, daysBefore, true)]
                            && accounts == old(accounts) && sent == old(sent)
      ensures r != Done ==> Contents() == old(Contents())
    {
      var failed := Fails(healthy);
      if failed {
        return Failed;
      }
      if DaysTaken(thresholds, daysBefore, {}) {
        return Rejected;
      }
      thresholds := thresholds[id := Threshold(id, daysBefore, true)];
      r := Done;
    }

    method UpdateThreshold(id: int, daysBefore: int, healthy: bool) returns (r: Outcome)
      modifies this
      ensures healthy ==> r != Failed
      ensures r != Failed ==> Contents() == AfterUpdateThreshold(old(Contents()), id, daysBefore)
      ensures r in {Done, Rejected, Failed}
      ensures r == Rejected <==>
                r != Failed && id in old(thresholds)
                && exists x :: x in old(thresholds) && x != id && old(thresholds)[x].daysBefore == daysBefore
      ensures r == Done && id in old(thresholds) ==>
                var t := old(thresholds)[id];
                && thresholds == old(thresholds)[id := Threshold(t.id, daysBefore, t.enabled)]
                && accounts == old(accounts) && sent == old(sent)
      ensures r != Done || id !in old(thresholds) ==> Contents() == old(Contents())
    {
      var failed := Fails(healthy);
      if failed {
        return Failed;
      }
      if id in thresholds {
        if DaysTaken(thresholds, daysBefore, {id}) {
          return Rejected;
        }
        thresholds := thresholds[id := thresholds[id].(daysBefore := daysBefore)];
      }
      r := Done;
    }

    method DeleteThreshold(id: int, healthy: bool) returns (r: Outcome)
      modifies this
      ensures healthy ==> r != Failed
      ensures r == Done ==> Contents() == AfterDeleteThreshold(old(Contents()), id)
      ensures r == Done ==> thresholds == old(thresholds) - {id} && accounts == old(accounts)
                            && sent == set k | k in old(sent) && k.thresholdId != id
      ensures r != Done ==> r == Failed && Contents() == old(Contents())
    {
      var failed := Fails(healthy);
      if failed {
        return Failed;
      }
      thresholds := thresholds - {id};
      sent := set k | k in sent && k.thresholdId != id;
      r := Done;
    }

    /** INSERT OR IGNORE of one key. */
    method Record(k: SentKey, healthy: bool) returns (r: Outcome)
      modifies this`sent
      ensures healthy ==> r != Failed
      ensures Contents() == if r == Done then AfterRecord(old(Contents()), k) else old(Contents())
      ensures r in {Done, Rejected, Failed}
      ensures r == Rejected <==>
                r != Failed && k !in old(sent) && (k.accountId !in accounts || k.thresholdId !in thresholds)
      ensures sent == if r == Done then old(sent) + {k} else old(sent)
    {
      var failed := Fails(healthy);
      if failed {
        return Failed;
      }
      if k in sent {
        return Done;
      }
      if k.accountId !in accounts || k.thresholdId !in thresholds {
        return Rejected;
      }
      sent := sent + {k};
      r := Done;
    }
  }
}
