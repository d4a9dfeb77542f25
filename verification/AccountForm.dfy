/** The account form: what submitting it can hand to the service, and what submitting it again as it
    is shown does. */
module AccountForm {
  import opened Wrappers
  import opened TextOrder
  import opened Trimming
  import opened Calendar
  import opened Domain
  import opened Tables
  import opened Rearm
  import opened Scheduler

  /** The submitted texts; a control that is not submitted is empty. */
  datatype Form = Form(
    name: string, provider: string, kind: string, status: string, accountNumber: string,
    pointsBalance: string, expirationDate: string, doesNotExpire: string, owner: string, notes: string)

  function ParseAccountInput(f: Form): Option<Input> {
    var (name, provider, owner) := (TrimSpace(f.name), TrimSpace(f.provider), TrimSpace(f.owner));
    var points := ParseInt(f.pointsBalance);
    if name == "" || provider == "" then None
    else if points.None? || points.value < 0 then None
    else if owner == "" then None
    else if !ValidKind(f.kind) then None
    else
      var never := f.doesNotExpire != "";
      var date := if never then Some(ZERO_DATE) else Parse(f.expirationDate);
      if date.None? then None
      else
        var (status, number, notes) := (TrimSpace(f.status), TrimSpace(f.accountNumber), TrimSpace(f.notes));
        var details := Details(name, provider, f.kind, status, number, owner, notes);
        Some(Input(details, points.value, date.value, never))
  }

  /** Trimmed texts, a name, a provider, an owner, and a listed kind. */
  ghost predicate ProperDetails(d: Details) {
    && d.name != "" && d.provider != "" && d.owner != "" && ValidKind(d.kind)
    && Trimmed(d.name) && Trimmed(d.provider) && Trimmed(d.owner)
    && Trimmed(d.status) && Trimmed(d.accountNumber) && Trimmed(d.notes)
  }

  /** Every accepted input is proper, and has the shape that re-arming relies on unless the date
      submitted was literally 0001-01-01. */
  lemma AcceptedInputs(f: Form)
    requires ParseAccountInput(f).Some?
    ensures var input := ParseAccountInput(f).value;
            && ProperDetails(input.details) && 0 <= input.balance <= MAX_INT
            && (FormShaped(input) <==> f.doesNotExpire != "" || f.expirationDate != Format(ZERO_DATE))
  {
    TrimSpaceIsTrimmed(f.name);
    TrimSpaceIsTrimmed(f.provider);
    TrimSpaceIsTrimmed(f.owner);
    TrimSpaceIsTrimmed(f.status);
    TrimSpaceIsTrimmed(f.accountNumber);
    TrimSpaceIsTrimmed(f.notes);
    ParseInvertsFormat(ZERO_DATE, f.expirationDate);
  }

  ghost predicate HasText(s: string) {
    exists c :: c in s && !IsSpace(c)
  }

  lemma TrimmedToNothing(s: string)
    ensures TrimSpace(s) == "" <==> !HasText(s)
  {
    var left, right := TrimSpaceRemoves(s);
    if TrimSpace(s) == "" {
      assert forall c :: c in s ==> c in left || c in right;
    } else {
      TrimSpaceIsTrimmed(s);
      assert TrimSpace(s)[0] in s;
    }
  }

  lemma PointsAccepted(s: string)
    ensures ParseInt(s).Some? && ParseInt(s).value >= 0 <==>
            exists n: nat :: n < 9_223_372_036_854_775_808 && ParseInt(s) == Some(n)
  {
    if ParseInt(s).Some? && ParseInt(s).value >= 0 {
      var n: nat := ParseInt(s).value;
      assert n < 9_223_372_036_854_775_808 && ParseInt(s) == Some(n);
    }
  }

  lemma DatesAccepted(s: string)
    ensures Parse(s).Some? <==> exists d: Date :: s == Format(d)
  {
    if Parse(s).Some? {
      var d: Date := Parse(s).value;
      ParseInvertsFormat(d, s);
      assert s == Format(d);
    }
    if d: Date :| s == Format(d) {
      ParseInvertsFormat(d, s);
    }
  }

  /** The forms that are accepted: a name, a provider and an owner that are not blank, a number of
      points from 0 to 2^63 - 1, one of four kinds, and the never box or a date in stored form. */
  lemma AcceptedForms(f: Form)
    ensures ParseAccountInput(f).Some? <==>
            && HasText(f.name) && HasText(f.provider) && HasText(f.owner)
            && (exists n: nat :: n < 9_223_372_036_854_775_808 && ParseInt(f.pointsBalance) == Some(n))
            && f.kind in {"Airline", "Hotel", "Credit Card", "Other"}
            && (f.doesNotExpire != "" || exists d: Date :: f.expirationDate == Format(d))
  {
    TrimmedToNothing(f.name);
    TrimmedToNothing(f.provider);
    TrimmedToNothing(f.owner);
    PointsAccepted(f.pointsBalance);
    DatesAccepted(f.expirationDate);
  }

  /** And what an accepted form hands on. */
  lemma AcceptedContents(f: Form)
    requires ParseAccountInput(f).Some?
    ensures var (input, d) := (ParseAccountInput(f).value, ParseAccountInput(f).value.details);
            && Pads(f.name, d.name) && Pads(f.provider, d.provider) && Pads(f.owner, d.owner)
            && Pads(f.status, d.status) && Pads(f.accountNumber, d.accountNumber) && Pads(f.notes, d.notes)
            && d.kind == f.kind && ParseInt(f.pointsBalance) == Some(input.balance)
            && input.doesNotExpire == (f.doesNotExpire != "")
            && (if input.doesNotExpire then input.expiration == YearMonthDay(1, 1, 1)
                else f.expirationDate == Format(input.expiration))
  {
    var (input, d) := (ParseAccountInput(f).value, ParseAccountInput(f).value.details);
    TrimSpaceExactly(f.name, d.name);
    TrimSpaceExactly(f.provider, d.provider);
    TrimSpaceExactly(f.owner, d.owner);
    TrimSpaceExactly(f.status, d.status);
    TrimSpaceExactly(f.accountNumber, d.accountNumber);
    TrimSpaceExactly(f.notes, d.notes);
    ParseInvertsFormat(input.expiration, f.expirationDate);
  }

  /** The date that the edit form shows in place of a missing one is `nextYear`, the day a year from
      now.  That control is disabled, and so not submitted, while the account never expires. */
  function ShownDate(a: Account, nextYear: Date): string {
    if a.doesNotExpire then "" else Format(if a.expiration == ZERO_DATE then nextYear else a.expiration)
  }

  /** What submitting the edit form as it is shown sends. */
  function Shown(a: Account, nextYear: Date): Form
    requires a.balance >= 0
  {
    Form(a.details.name, a.details.provider, a.details.kind, a.details.status, a.details.accountNumber,
         Decimal(a.balance), ShownDate(a, nextYear), if a.doesNotExpire then "on" else "",
         a.details.owner, a.details.notes)
  }

  /** The form reads back the account, except that a stored 0001-01-01 becomes the day a year from now. */
  lemma ShownFormParses(a: Account, nextYear: Date)
    requires ProperDetails(a.details) && 0 <= a.balance <= MAX_INT
    ensures ParseAccountInput(Shown(a, nextYear)).Some?
    ensures var input := ParseAccountInput(Shown(a, nextYear)).value;
            && input.details == a.details && input.balance == a.balance && input.doesNotExpire == a.doesNotExpire
            && input.expiration == if a.doesNotExpire then ZERO_DATE
                                   else if a.expiration == ZERO_DATE then nextYear else a.expiration
  {
    TrimOfTrimmed(a.details.name);
    TrimOfTrimmed(a.details.provider);
    TrimOfTrimmed(a.details.owner);
    TrimOfTrimmed(a.details.status);
    TrimOfTrimmed(a.details.accountNumber);
    TrimOfTrimmed(a.details.notes);
    ParseOfDecimal(a.balance);
    ParseOfFormat(a.expiration);
    ParseOfFormat(nextYear);
  }

  /** Submitting it unchanged stores the account's own date, exactly if that is not 0001-01-01 or the
      day a year from now is. */
  lemma ShownFormKeepsDate(a: Account, nextYear: Date)
    requires ProperDetails(a.details) && 0 <= a.balance <= MAX_INT
    requires a.doesNotExpire ==> a.expiration == NEVER_EXPIRES
    ensures ParseAccountInput(Shown(a, nextYear)).Some?
    ensures StoredExpiration(ParseAccountInput(Shown(a, nextYear)).value) == a.expiration
            <==> a.expiration != ZERO_DATE || nextYear == ZERO_DATE
  {
    ShownFormParses(a, nextYear);
  }

  /** Submitting the edit form unchanged changes only `updatedAt`, and no notification is re-armed
      unless the account never expires and yet has rows for its sentinel date. */
  lemma UnchangedFormChangesNothing(db: Tables, id: int, nextYear: Date, now: int)
    requires StoredShape(db) && id in db.accounts
    requires ProperDetails(db.accounts[id].details) && 0 <= db.accounts[id].balance <= MAX_INT
    ensures ParseAccountInput(Shown(db.accounts[id], nextYear)).Some?
    ensures var a := db.accounts[id];
            var db' := AfterUpdate(db, id, ParseAccountInput(Shown(a, nextYear)).value, now);
            && db'.accounts == db.accounts[id := a.(updatedAt := now)] && db'.thresholds == db.thresholds
            && (db'.sent == db.sent <==>
                  !a.doesNotExpire || forall k | k in db.sent && k.accountId == id :: k.date != NEVER_EXPIRES)
  {
    ShownFormParses(db.accounts[id], nextYear);
    var a := db.accounts[id];
    var db' := AfterUpdate(db, id, ParseAccountInput(Shown(a, nextYear)).value, now);
    if a.doesNotExpire {
      assert db'.sent == Without(db.sent, id, NEVER_EXPIRES);
      if k :| k in db.sent && k.accountId == id && k.date == NEVER_EXPIRES {
        assert k !in db'.sent;
      }
    }
  }

  /** In every reachable state, then, submitting the edit form unchanged re-arms nothing. */
  lemma UnchangedFormRearmsNothing(run: Run, n: nat, id: int, nextYear: Date, now: int)
    requires ValidRun(run) && Undisturbed(run) && FormInputs(run) && n <= |run.steps|
    requires Consistent(run.states[0]) && NeverExpiringUnannounced(run.states[0].db)
    requires id in run.states[n].db.accounts
    requires var a := run.states[n].db.accounts[id]; ProperDetails(a.details) && 0 <= a.balance <= MAX_INT
    ensures ParseAccountInput(Shown(run.states[n].db.accounts[id], nextYear)).Some?
    ensures var (db, a) := (run.states[n].db, run.states[n].db.accounts[id]);
            AfterUpdate(db, id, ParseAccountInput(Shown(a, nextYear)).value, now)
            == db.(accounts := db.accounts[id := a.(updatedAt := now)])
  {
    RunsStayConsistent(run, n);
    RunsKeepNeverExpiringUnannounced(run, n);
    UnchangedFormChangesNothing(run.states[n].db, id, nextYear, now);
  }
}
