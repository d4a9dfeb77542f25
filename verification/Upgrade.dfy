/** The shipped migrations 0002-0004, and what they make of any version-1 database. */
module Upgrade {
  import opened Wrappers
  import opened TextOrder
  import opened Relational
  import opened Migrations
  import opened Resumption

  // ----- The version-1 schema (migration 0001) -----

  const FLAG: set<Value> := {Int(0), Int(1)}

  const USERS := Schema({Username, PasswordHash, CreatedAt, UpdatedAt},
                        {Username, PasswordHash, CreatedAt, UpdatedAt}, map[], map[])

  const SESSIONS := Schema({UserId, CreatedAt, ExpiresAt, UserAgent, IpAddress}, {UserId, CreatedAt, ExpiresAt},
                           map[], map[UserId := Users])

  const ACCOUNT_COLUMNS: set<Column> :=
    {Name, Provider, AccountNumber, PointsBalance, ExpirationDate, DoesNotExpire, Owner, Notes, CreatedAt, UpdatedAt}

  const ACCOUNT_REQUIRED: set<Column> := ACCOUNT_COLUMNS - {AccountNumber, Notes}

  const ACCOUNTS_V1 := Schema(ACCOUNT_COLUMNS, ACCOUNT_REQUIRED,
                              map[DoesNotExpire := FLAG,
                                  Owner := {Text("Wolfgang"), Text("Barbara"), Text("Joint")}], map[])

  const THRESHOLDS := Schema({DaysBefore, Enabled}, {DaysBefore, Enabled}, map[], map[])

  const SENT := Schema({AccountId, ThresholdId, NotifiedExpirationDate, SentAt},
                       {AccountId, ThresholdId, NotifiedExpirationDate, SentAt},
                       map[], map[AccountId := Accounts, ThresholdId := NotificationThresholds])

  const SMTP_COLUMNS: set<Column> := {SmtpHost, SmtpPort, SmtpUsername, SmtpPassword, SmtpSecurity, SmtpFromAddress}

  const GMAIL_COLUMNS: set<Column> := {GmailRefreshToken, GmailAccessToken, GmailTokenExpiry, GmailAccountEmail}

  const SECURITY: set<Value> := {Text("none"), Text("starttls"), Text("tls")}

  const EMAIL_COLUMNS: set<Column> := {ProviderType, UpdatedAt} + SMTP_COLUMNS

  const EMAIL_V1 := Schema(EMAIL_COLUMNS + GMAIL_COLUMNS, {ProviderType, UpdatedAt},
                           map[ProviderType := {Text("none"), Text("gmail"), Text("smtp")},
                               SmtpSecurity := SECURITY], map[])

  const PREFERENCES := Schema({AppDisplayName, Timezone, RecipientEmails, UpdatedAt},
                              {AppDisplayName, Timezone, RecipientEmails, UpdatedAt}, map[], map[])

  const V1: map<TableName, Schema> :=
    map[Users := USERS, Sessions := SESSIONS, Accounts := ACCOUNTS_V1, NotificationThresholds := THRESHOLDS,
        SentNotifications := SENT, EmailSettings := EMAIL_V1, AppPreferences := PREFERENCES]

  /** A version-1 database: its tables, rows that satisfy their constraints, intact foreign keys. */
  ghost predicate IsVersion1(db: Db) {
    && db.Keys == V1.Keys
    && (forall t :: t in db ==> db[t].schema == V1[t] && Conforms(db[t]))
    && ForeignKeysIntact(db)
  }

  /** What fits the accounts table of version 1. */
  lemma Version1AccountRow(row: Row)
    ensures RowFits(ACCOUNTS_V1, row) <==>
            && row.Keys == {Name, Provider, AccountNumber, PointsBalance, ExpirationDate, DoesNotExpire, Owner, Notes,
                            CreatedAt, UpdatedAt}
            && (forall c :: c in row && c !in {AccountNumber, Notes} ==> row[c] != Null)
            && row[DoesNotExpire] in {Int(0), Int(1)}
            && row[Owner] in {Text("Wolfgang"), Text("Barbara"), Text("Joint")}
  {
  }

  lemma Version1Columns()
    ensures Accounts in V1 && NotificationThresholds in V1 && Users in V1 && SentNotifications in V1 && Sessions in V1
    ensures V1[SentNotifications] == SENT && V1[Sessions] == SESSIONS
    ensures forall t :: t in V1 && t !in {SentNotifications, Sessions} ==> V1[t].references == map[]
  {
  }

  /** What fits the sent_notifications table, and the sessions table, and the version-1 settings. */
  lemma SentRow(row: Row)
    ensures RowFits(SENT, row) <==>
            && row.Keys == {AccountId, ThresholdId, NotifiedExpirationDate, SentAt}
            && forall c :: c in row ==> row[c] != Null
  {
  }

  lemma SessionRow(row: Row)
    ensures RowFits(SESSIONS, row) <==>
            && row.Keys == {UserId, CreatedAt, ExpiresAt, UserAgent, IpAddress}
            && forall c :: c in row && c !in {UserAgent, IpAddress} ==> row[c] != Null
  {
  }

  lemma Version1SettingsRow(row: Row)
    ensures RowFits(EMAIL_V1, row) <==>
            && row.Keys == {ProviderType, UpdatedAt, SmtpHost, SmtpPort, SmtpUsername, SmtpPassword, SmtpSecurity,
                            SmtpFromAddress, GmailRefreshToken, GmailAccessToken, GmailTokenExpiry, GmailAccountEmail}
            && row[UpdatedAt] != Null && row[ProviderType] in {Text("none"), Text("gmail"), Text("smtp")}
            && row[SmtpSecurity] in {Null, Text("none"), Text("starttls"), Text("tls")}
  {
  }

  ghost predicate TableIntact(db: Db, child: TableName)
    requires child in db
  {
    forall key | key in db[child].rows ::
      forall column | column in db[child].schema.references :: !Dangles(db, child, key, column)
  }

  ghost predicate SentRowsHaveParents(db: Db)
    requires {SentNotifications, Accounts, NotificationThresholds} <= db.Keys
  {
    forall key :: key in db[SentNotifications].rows ==>
      var row := db[SentNotifications].rows[key];
      && AccountId in row && row[AccountId] in db[Accounts].rows
      && ThresholdId in row && row[ThresholdId] in db[NotificationThresholds].rows
  }

  ghost predicate SessionsHaveUsers(db: Db)
    requires {Sessions, Users} <= db.Keys
  {
    forall key :: key in db[Sessions].rows ==>
      var row := db[Sessions].rows[key]; UserId in row && row[UserId] in db[Users].rows
  }

  lemma SentRowsIntact(db: Db)
    requires {SentNotifications, Accounts, NotificationThresholds} <= db.Keys
    requires db[SentNotifications].schema == SENT && Conforms(db[SentNotifications])
    ensures TableIntact(db, SentNotifications) <==> SentRowsHaveParents(db)
  {
    forall key | key in db[SentNotifications].rows
      ensures var row := db[SentNotifications].rows[key];
              && AccountId in row && ThresholdId in row
              && (!Dangles(db, SentNotifications, key, AccountId) <==> row[AccountId] in db[Accounts].rows)
              && (!Dangles(db, SentNotifications, key, ThresholdId) <==>
                    row[ThresholdId] in db[NotificationThresholds].rows)
    {
      SentRow(db[SentNotifications].rows[key]);
    }
    assert SENT.references.Keys == {AccountId, ThresholdId};
  }

  lemma SessionsIntact(db: Db)
    requires {Sessions, Users} <= db.Keys && db[Sessions].schema == SESSIONS && Conforms(db[Sessions])
    ensures TableIntact(db, Sessions) <==> SessionsHaveUsers(db)
  {
    forall key | key in db[Sessions].rows
      ensures var row := db[Sessions].rows[key];
              UserId in row && (!Dangles(db, Sessions, key, UserId) <==> row[UserId] in db[Users].rows)
    {
      SessionRow(db[Sessions].rows[key]);
    }
    assert SESSIONS.references.Keys == {UserId};
  }

  /** With the version-1 schema, foreign keys are intact exactly if every sent notification names an
      account and a threshold that exist, and every session a user that exists. */
  lemma Version1ForeignKeys(db: Db)
    requires db.Keys == V1.Keys && forall t :: t in db ==> db[t].schema == V1[t] && Conforms(db[t])
    ensures {SentNotifications, Accounts, NotificationThresholds, Sessions, Users} <= db.Keys
    ensures ForeignKeysIntact(db) <==> SentRowsHaveParents(db) && SessionsHaveUsers(db)
  {
    Version1Columns();
    SentRowsIntact(db);
    SessionsIntact(db);
    assert ForeignKeysIntact(db) <==> forall child | child in db :: TableIntact(db, child);
    forall child | child in db && child !in {SentNotifications, Sessions}
      ensures TableIntact(db, child)
    {
      assert db[child].schema.references == map[];
    }
  }

  // ----- The scripts -----

  /** SQLite's way to change a constraint: create, copy, drop, rename. */
  function Rebuild(name: TableName, temporary: TableName, schema: Schema, columns: map<Column, Expr>): seq<Statement> {
    [CreateTable(temporary, schema), InsertSelect(temporary, columns, name),
     DropTable(name), RenameTable(temporary, name)]
  }

  function CopyAll(columns: set<Column>): map<Column, Expr> {
    map c | c in columns :: Copy(c)
  }

  const ACCOUNTS_V2 := Schema(ACCOUNT_COLUMNS, ACCOUNT_REQUIRED, map[DoesNotExpire := FLAG], map[])

  /** 0002: the owner CHECK goes. */
  const FREE_TEXT_OWNER: seq<Statement> := Rebuild(Accounts, AccountsNew, ACCOUNTS_V2, CopyAll(ACCOUNT_COLUMNS))

  const EMAIL_V3 := Schema(EMAIL_COLUMNS, {ProviderType, UpdatedAt},
                           map[ProviderType := {Text("none"), Text("smtp")}, SmtpSecurity := SECURITY], map[])

  function CopyWithoutGmail(columns: set<Column>): map<Column, Expr> {
    map c | c in columns :: if c == ProviderType then CaseWhen(c, Text("gmail"), Text("none")) else Copy(c)
  }

  /** 0003: the Gmail columns go and the provider CHECK narrows. */
  const DROP_GMAIL: seq<Statement> :=
    Rebuild(EmailSettings, EmailSettingsNew, EMAIL_V3, CopyWithoutGmail(EMAIL_COLUMNS))

  const KIND_VALUES: set<Value> := {Text("Airline"), Text("Hotel"), Text("Credit Card"), Text("Other")}

  function KindsScript(name: TableName): seq<Statement> {
    [AddColumn(name, Status, Text(""), None), AddColumn(name, Kind, Text("Other"), Some(KIND_VALUES)),
     AddColumn(name, PointsUpdatedAt, Text(""), None), UpdateColumn(name, PointsUpdatedAt, Copy(UpdatedAt))]
  }

  /** 0004: three added columns, one of them backfilled. */
  const KIND_STATUS_LAST_UPDATED: seq<Statement> := KindsScript(Accounts)

  // ----- What a rebuild does -----

  ghost predicate NothingReferences(db: Db, parent: TableName) {
    forall t, c :: t in db && c in db[t].schema.references ==> db[t].schema.references[c] != parent
  }

  ghost predicate CanRebuild(t: Table, schema: Schema, columns: map<Column, Expr>) {
    && schema.references == map[]
    && forall key :: key in t.rows ==>
         SelectRow(columns, t.rows[key]).Some? && RowFits(schema, SelectRow(columns, t.rows[key]).value)
  }

  function RebuiltRows(t: Table, columns: map<Column, Expr>): map<Value, Row>
    requires forall key :: key in t.rows ==> SelectRow(columns, t.rows[key]).Some?
  {
    map key | key in t.rows :: SelectRow(columns, t.rows[key]).value
  }

  lemma CopyRuns(db: Db, name: TableName, temporary: TableName, schema: Schema, columns: map<Column, Expr>,
          enforcing: bool)
    requires name in db && temporary !in db && CanRebuild(db[name], schema, columns)
    ensures var created := db[temporary := Table(schema, map[])];
            && Exec(CreateTable(temporary, schema), db, enforcing) == Some(created)
            && Exec(InsertSelect(temporary, columns, name), created, enforcing)
               == Some(db[temporary := Table(schema, RebuiltRows(db[name], columns))])
  {
    var created := db[temporary := Table(schema, map[])];
    assert created[name] == db[name];
    assert created[temporary := Table(schema, RebuiltRows(db[name], columns))]
           == db[temporary := Table(schema, RebuiltRows(db[name], columns))];
  }

  lemma RepointingNothing(t: Table, from: TableName, to: TableName)
    requires forall c :: c in t.schema.references ==> t.schema.references[c] != from
    ensures RepointReferences(t, from, to) == t
  {
    var references := t.schema.references;
    assert (map c | c in references :: if references[c] == from then to else references[c]) == references;
  }

  lemma RepointingNoTable(db: Db, from: TableName, to: TableName)
    requires NothingReferences(db, from)
    ensures (map t | t in db :: RepointReferences(db[t], from, to)) == db
  {
    forall t | t in db
      ensures RepointReferences(db[t], from, to) == db[t]
    {
      RepointingNothing(db[t], from, to);
    }
  }

  lemma RenameRuns(db: Db, from: TableName, to: TableName, enforcing: bool)
    requires from in db && to !in db && NothingReferences(db, from)
    ensures Exec(RenameTable(from, to), db, enforcing) == Some((db - {from})[to := db[from]])
  {
    RepointingNoTable((db - {from})[to := db[from]], from, to);
  }

  lemma ExecFour(script: seq<Statement>, d0: Db, d1: Db, d2: Db, d3: Db, d4: Db, enforcing: bool)
    requires |script| == 4
    requires Exec(script[0], d0, enforcing) == Some(d1) && Exec(script[1], d1, enforcing) == Some(d2)
    requires Exec(script[2], d2, enforcing) == Some(d3) && Exec(script[3], d3, enforcing) == Some(d4)
    ensures ExecAll(script, d0, enforcing) == Some(d4)
  {
    var (s1, s2, s3, s4) := (script[1..], script[2..], script[3..], script[4..]);
    assert s1[1..] == s2 && s2[1..] == s3 && s3[1..] == s4 && s4 == [];
    assert ExecAll(s4, d4, enforcing) == Some(d4);
    assert ExecAll(s3, d3, enforcing) == Some(d4);
    assert ExecAll(s2, d2, enforcing) == Some(d4);
    assert ExecAll(s1, d1, enforcing) == Some(d4);
  }

  /** With enforcement off a rebuild replaces one table, keeps its keys and touches nothing else. */
  lemma RebuildUnenforced(db: Db, name: TableName, temporary: TableName, schema: Schema, columns: map<Column, Expr>)
    requires name in db && temporary !in db && name != temporary
    requires NothingReferences(db, temporary) && CanRebuild(db[name], schema, columns)
    ensures ExecAll(Rebuild(name, temporary, schema, columns), db, false)
            == Some(db[name := Table(schema, RebuiltRows(db[name], columns))])
  {
    var rebuilt := Table(schema, RebuiltRows(db[name], columns));
    var (copied, dropped) := (db[temporary := rebuilt], db[temporary := rebuilt] - {name});
    CopyRuns(db, name, temporary, schema, columns, false);
    RenameRuns(dropped, temporary, name, false);
    assert (dropped - {temporary})[name := rebuilt] == db[name := rebuilt];
    ExecFour(Rebuild(name, temporary, schema, columns), db, db[temporary := Table(schema, map[])], copied, dropped,
             db[name := rebuilt], false);
  }

  // ----- The data afterwards -----

  function WithoutGmail(columns: set<Column>, row: Row): Row {
    map c | c in columns && c in row ::
      if c == ProviderType && row[c] == Text("gmail") then Text("none") else row[c]
  }

  function AccountAfterUpgrade(row: Row): Row
    requires UpdatedAt in row
  {
    row[Status := Text("")][Kind := Text("Other")][PointsUpdatedAt := row[UpdatedAt]]
  }

  const ACCOUNTS_V4 := Schema(ACCOUNT_COLUMNS + {Status, Kind, PointsUpdatedAt},
                              ACCOUNT_REQUIRED + {Status, Kind, PointsUpdatedAt},
                              map[DoesNotExpire := FLAG, Kind := KIND_VALUES], map[])

  /** What fits the accounts table of version 4. */
  lemma Version4AccountRow(row: Row)
    ensures RowFits(ACCOUNTS_V4, row) <==>
            && row.Keys == {Name, Provider, AccountNumber, PointsBalance, ExpirationDate, DoesNotExpire, Owner, Notes,
                            CreatedAt, UpdatedAt, Status, Kind, PointsUpdatedAt}
            && (forall c :: c in row && c !in {AccountNumber, Notes} ==> row[c] != Null)
            && row[DoesNotExpire] in {Int(0), Int(1)}
            && row[Kind] in {Text("Airline"), Text("Hotel"), Text("Credit Card"), Text("Other")}
  {
  }

  /** What fits the email settings from version 3 on. */
  lemma Version3SettingsRow(row: Row)
    ensures RowFits(EMAIL_V3, row) <==>
            && row.Keys == {ProviderType, UpdatedAt, SmtpHost, SmtpPort, SmtpUsername, SmtpPassword, SmtpSecurity,
                            SmtpFromAddress}
            && row[UpdatedAt] != Null && row[ProviderType] in {Text("none"), Text("smtp")}
            && row[SmtpSecurity] in {Null, Text("none"), Text("starttls"), Text("tls")}
  {
  }

  ghost function AfterOwner(db: Db): Db
    requires Accounts in db
  {
    db[Accounts := Table(ACCOUNTS_V2, db[Accounts].rows)]
  }

  function GmailRows(rows: map<Value, Row>, columns: set<Column>): map<Value, Row> {
    map key | key in rows :: WithoutGmail(columns, rows[key])
  }

  ghost function AfterGmail(db: Db): Db
    requires EmailSettings in db
  {
    db[EmailSettings := Table(EMAIL_V3, GmailRows(db[EmailSettings].rows, EMAIL_COLUMNS))]
  }

  function UpgradedAccounts(rows: map<Value, Row>): map<Value, Row>
    requires forall key :: key in rows ==> UpdatedAt in rows[key]
  {
    map key | key in rows :: AccountAfterUpgrade(rows[key])
  }

  ghost function AfterKinds(db: Db): Db
    requires Accounts in db && forall key :: key in db[Accounts].rows ==> UpdatedAt in db[Accounts].rows[key]
  {
    db[Accounts := Table(ACCOUNTS_V4, UpgradedAccounts(db[Accounts].rows))]
  }

  lemma SelectRowIs(columns: map<Column, Expr>, row: Row, result: Row)
    requires columns.Keys == result.Keys
    requires forall c :: c in columns ==> Eval(columns[c], row) == Some(result[c])
    ensures SelectRow(columns, row) == Some(result)
  {
    assert (map c | c in columns :: Eval(columns[c], row).value) == result;
  }

  ghost predicate RowsFit(rows: map<Value, Row>, schema: Schema) {
    forall key :: key in rows ==> RowFits(schema, rows[key])
  }

  /** Every row fits both schemas and is copied unchanged. */
  lemma CopyRebuild(db: Db, name: TableName, temporary: TableName, schema: Schema)
    requires name in db && temporary !in db && name != temporary && NothingReferences(db, temporary)
    requires schema.references == map[] && RowsFit(db[name].rows, schema)
    ensures ExecAll(Rebuild(name, temporary, schema, CopyAll(schema.columns)), db, false)
            == Some(db[name := Table(schema, db[name].rows)])
  {
    var (rows, columns) := (db[name].rows, CopyAll(schema.columns));
    forall key | key in rows
      ensures SelectRow(columns, rows[key]) == Some(rows[key]) && RowFits(schema, rows[key])
    {
      SelectRowIs(columns, rows[key], rows[key]);
    }
    RebuildUnenforced(db, name, temporary, schema, columns);
    assert RebuiltRows(db[name], columns) == rows;
  }

  lemma GmailRow(columns: set<Column>, row: Row)
    requires columns <= row.Keys
    ensures SelectRow(CopyWithoutGmail(columns), row) == Some(WithoutGmail(columns, row))
  {
    SelectRowIs(CopyWithoutGmail(columns), row, WithoutGmail(columns, row));
  }

  lemma GmailRowsRebuilt(t: Table, schema: Schema)
    requires schema.references == map[]
    requires forall key :: key in t.rows ==>
               schema.columns <= t.rows[key].Keys && RowFits(schema, WithoutGmail(schema.columns, t.rows[key]))
    ensures CanRebuild(t, schema, CopyWithoutGmail(schema.columns))
    ensures RebuiltRows(t, CopyWithoutGmail(schema.columns)) == GmailRows(t.rows, schema.columns)
  {
    forall key | key in t.rows {
      GmailRow(schema.columns, t.rows[key]);
    }
  }

  lemma GmailRebuild(db: Db, name: TableName, temporary: TableName, schema: Schema)
    requires name in db && temporary !in db && name != temporary && NothingReferences(db, temporary)
    requires schema.references == map[]
    requires forall key :: key in db[name].rows ==>
               && schema.columns <= db[name].rows[key].Keys
               && RowFits(schema, WithoutGmail(schema.columns, db[name].rows[key]))
    ensures ExecAll(Rebuild(name, temporary, schema, CopyWithoutGmail(schema.columns)), db, false)
            == Some(db[name := Table(schema, GmailRows(db[name].rows, schema.columns))])
  {
    GmailRowsRebuilt(db[name], schema);
    RebuildUnenforced(db, name, temporary, schema, CopyWithoutGmail(schema.columns));
  }

  lemma OwnerScript(db: Db)
    requires Accounts in db && AccountsNew !in db && NothingReferences(db, AccountsNew)
    requires RowsFit(db[Accounts].rows, ACCOUNTS_V1)
    ensures ExecAll(FREE_TEXT_OWNER, db, false) == Some(AfterOwner(db))
  {
    forall key | key in db[Accounts].rows
      ensures RowFits(ACCOUNTS_V2, db[Accounts].rows[key])
    {
      assert RowFits(ACCOUNTS_V1, db[Accounts].rows[key]);
    }
    CopyRebuild(db, Accounts, AccountsNew, ACCOUNTS_V2);
  }

  /** The new schema asks for less, except that its provider CHECK lacks 'gmail'. */
  ghost predicate OnlyDropsGmail(before: Schema, after: Schema) {
    && after.columns <= before.columns && after.required <= before.required
    && (forall c :: c in after.checks ==> c in before.checks)
    && (forall c :: c in after.checks && c != ProviderType ==> after.checks[c] == before.checks[c])
    && (ProviderType in after.checks ==>
          && Text("none") in after.checks[ProviderType]
          && forall v :: v in before.checks[ProviderType] ==> v == Text("gmail") || v in after.checks[ProviderType])
  }

  lemma NarrowedRow(before: Schema, after: Schema, row: Row)
    requires OnlyDropsGmail(before, after) && RowFits(before, row)
    ensures after.columns <= row.Keys && RowFits(after, WithoutGmail(after.columns, row))
  {
  }

  lemma EmailSchemasDropGmail()
    ensures OnlyDropsGmail(EMAIL_V1, EMAIL_V3)
  {
    assert EMAIL_COLUMNS <= EMAIL_COLUMNS + GMAIL_COLUMNS;
  }

  lemma GmailScript(db: Db)
    requires EmailSettings in db && EmailSettingsNew !in db && NothingReferences(db, EmailSettingsNew)
    requires RowsFit(db[EmailSettings].rows, EMAIL_V1)
    ensures ExecAll(DROP_GMAIL, db, false) == Some(AfterGmail(db))
  {
    EmailSchemasDropGmail();
    forall key | key in db[EmailSettings].rows
      ensures EMAIL_COLUMNS <= db[EmailSettings].rows[key].Keys
      ensures RowFits(EMAIL_V3, WithoutGmail(EMAIL_COLUMNS, db[EmailSettings].rows[key]))
    {
      NarrowedRow(EMAIL_V1, EMAIL_V3, db[EmailSettings].rows[key]);
    }
    GmailRebuild(db, EmailSettings, EmailSettingsNew, EMAIL_V3);
  }

  function WithKinds(schema: Schema): Schema {
    Schema(schema.columns + {Status} + {Kind} + {PointsUpdatedAt},
           schema.required + {Status} + {Kind} + {PointsUpdatedAt},
           schema.checks[Kind := KIND_VALUES], schema.references)
  }

  lemma AddedColumnConforms(t: Table, column: Column, default: Value, check: Option<set<Value>>)
    requires Conforms(t) && column !in t.schema.columns && default != Null
    requires check.Some? ==> default in check.value
    requires check.None? ==> column !in t.schema.checks
    ensures Conforms(AddedColumn(t, column, default, check))
  {
  }

  function WithStatus(t: Table): Table { AddedColumn(t, Status, Text(""), None) }
  function WithKind(t: Table): Table { AddedColumn(WithStatus(t), Kind, Text("Other"), Some(KIND_VALUES)) }
  function WithStamp(t: Table): Table { AddedColumn(WithKind(t), PointsUpdatedAt, Text(""), None) }

  ghost predicate LacksNewColumns(schema: Schema) {
    && {Status, Kind, PointsUpdatedAt} !! schema.columns && {Status, PointsUpdatedAt} !! schema.checks.Keys
    && UpdatedAt in schema.columns && UpdatedAt in schema.required
  }

  /** Each added column takes its constant default in every row and satisfies its own CHECK. */
  lemma NewColumnsConform(t: Table)
    requires Conforms(t) && LacksNewColumns(t.schema)
    ensures Conforms(WithStatus(t)) && Conforms(WithKind(t)) && Conforms(WithStamp(t))
    ensures WithStamp(t).schema == WithKinds(t.schema)
  {
    AddedColumnConforms(t, Status, Text(""), None);
    AddedColumnConforms(WithStatus(t), Kind, Text("Other"), Some(KIND_VALUES));
    AddedColumnConforms(WithKind(t), PointsUpdatedAt, Text(""), None);
  }

  function Stamped(row: Row): Row {
    row[Status := Text("")][Kind := Text("Other")][PointsUpdatedAt := Text("")]
  }

  lemma StampedRows(t: Table, key: Value)
    requires key in t.rows
    ensures key in WithStamp(t).rows && WithStamp(t).rows[key] == Stamped(t.rows[key])
  {
  }

  lemma StampedThenBackfilled(row: Row, stamped: Row)
    requires stamped == Stamped(row) && UpdatedAt in row
    ensures UpdatedAt in stamped && stamped[UpdatedAt] == row[UpdatedAt]
    ensures stamped[PointsUpdatedAt := row[UpdatedAt]] == AccountAfterUpgrade(row)
  {
  }

  lemma SettingFits(schema: Schema, row: Row, column: Column, v: Value)
    requires RowFits(schema, row) && column in schema.columns && column !in schema.checks && v != Null
    ensures RowFits(schema, row[column := v])
  {
  }

  /** Setting `column` by `value` turns each row into its counterpart, which fits the schema. */
  ghost predicate UpdatesTo(t: Table, column: Column, value: Expr, rows: map<Value, Row>) {
    && rows.Keys == t.rows.Keys
    && forall key :: key in rows ==>
         SetRow(column, value, t.rows[key]) == Some(rows[key]) && RowFits(t.schema, rows[key])
  }

  lemma UpdatedRowsAre(t: Table, column: Column, value: Expr, rows: map<Value, Row>)
    requires rows.Keys == t.rows.Keys
    requires forall key :: key in rows ==> SetRow(column, value, t.rows[key]) == Some(rows[key])
    ensures (map key | key in t.rows :: SetRow(column, value, t.rows[key]).value) == rows
  {
  }

  lemma ExecUpdateIs(db: Db, name: TableName, column: Column, value: Expr, rows: map<Value, Row>)
    requires name in db && UpdatesTo(db[name], column, value, rows)
    ensures ExecUpdate(db, name, column, value) == Some(db[name := db[name].(rows := rows)])
  {
    UpdatedRowsAre(db[name], column, value, rows);
  }

  lemma UpdateRuns(db: Db, before: Db, name: TableName, t: Table, column: Column, value: Expr, rows: map<Value, Row>)
    requires name in db && before == db[name := t] && UpdatesTo(t, column, value, rows)
    ensures Exec(UpdateColumn(name, column, value), before, false) == Some(db[name := Table(t.schema, rows)])
  {
    ExecUpdateIs(before, name, column, value, rows);
    assert before[name := Table(t.schema, rows)] == db[name := Table(t.schema, rows)];
  }

  lemma UpdatedAtPresent(t: Table)
    requires Conforms(t) && LacksNewColumns(t.schema)
    ensures forall key :: key in t.rows ==> UpdatedAt in t.rows[key]
  {
    forall key | key in t.rows ensures UpdatedAt in t.rows[key] {
      assert RowFits(t.schema, t.rows[key]);
    }
  }

  lemma CopiedRow(schema: Schema, row: Row, from: Column, to: Column)
    requires RowFits(schema, row) && from in schema.columns && from in schema.required
    requires to in schema.columns && to !in schema.checks
    ensures from in row && SetRow(to, Copy(from), row) == Some(row[to := row[from]])
    ensures RowFits(schema, row[to := row[from]])
  {
    SettingFits(schema, row, to, row[from]);
  }

  /** Backfilling a column without CHECK from a required column. */
  lemma CopyUpdates(t: Table, from: Column, to: Column, rows: map<Value, Row>)
    requires Conforms(t) && from in t.schema.columns && from in t.schema.required
    requires to in t.schema.columns && to !in t.schema.checks
    requires rows.Keys == t.rows.Keys
    requires forall key :: key in rows && from in t.rows[key] ==> rows[key] == t.rows[key][to := t.rows[key][from]]
    ensures UpdatesTo(t, to, Copy(from), rows)
  {
    forall key | key in rows
      ensures SetRow(to, Copy(from), t.rows[key]) == Some(rows[key]) && RowFits(t.schema, rows[key])
    {
      CopiedRow(t.schema, t.rows[key], from, to);
    }
  }

  lemma StampedTableUpdates(t: Table)
    requires Conforms(t) && LacksNewColumns(t.schema)
    requires forall key :: key in t.rows ==> UpdatedAt in t.rows[key]
    ensures UpdatesTo(WithStamp(t), PointsUpdatedAt, Copy(UpdatedAt), UpgradedAccounts(t.rows))
  {
    NewColumnsConform(t);
    var (t3, rows) := (WithStamp(t), UpgradedAccounts(t.rows));
    forall key | key in rows && UpdatedAt in t3.rows[key]
      ensures rows[key] == t3.rows[key][PointsUpdatedAt := t3.rows[key][UpdatedAt]]
    {
      StampedRows(t, key);
      StampedThenBackfilled(t.rows[key], t3.rows[key]);
    }
    assert rows.Keys == t3.rows.Keys;
    CopyUpdates(t3, UpdatedAt, PointsUpdatedAt, rows);
  }

  lemma AddRuns(db: Db, before: Db, name: TableName, t: Table, column: Column, default: Value,
          check: Option<set<Value>>)
    requires name in db && before == db[name := t]
    requires column !in t.schema.columns && default != Null && (check.Some? ==> default in check.value)
    ensures Exec(AddColumn(name, column, default, check), before, false)
            == Some(db[name := AddedColumn(t, column, default, check)])
  {
    var added := AddedColumn(t, column, default, check);
    assert before[name := added] == db[name := added];
  }

  lemma AddsRun(db: Db, name: TableName)
    requires name in db && LacksNewColumns(db[name].schema)
    ensures var t := db[name];
            && Exec(KindsScript(name)[0], db, false) == Some(db[name := WithStatus(t)])
            && Exec(KindsScript(name)[1], db[name := WithStatus(t)], false) == Some(db[name := WithKind(t)])
            && Exec(KindsScript(name)[2], db[name := WithKind(t)], false) == Some(db[name := WithStamp(t)])
  {
    var t := db[name];
    assert db == db[name := t];
    AddRuns(db, db, name, t, Status, Text(""), None);
    AddRuns(db, db[name := WithStatus(t)], name, WithStatus(t), Kind, Text("Other"), Some(KIND_VALUES));
    AddRuns(db, db[name := WithKind(t)], name, WithKind(t), PointsUpdatedAt, Text(""), None);
  }

  lemma BackfillRuns(db: Db, name: TableName)
    requires name in db && Conforms(db[name]) && LacksNewColumns(db[name].schema)
    requires forall key :: key in db[name].rows ==> UpdatedAt in db[name].rows[key]
    ensures Exec(KindsScript(name)[3], db[name := WithStamp(db[name])], false)
            == Some(db[name := Table(WithKinds(db[name].schema), UpgradedAccounts(db[name].rows))])
  {
    var t := db[name];
    StampedTableUpdates(t);
    NewColumnsConform(t);
    UpdateRuns(db, db[name := WithStamp(t)], name, WithStamp(t), PointsUpdatedAt, Copy(UpdatedAt),
        UpgradedAccounts(t.rows));
  }

  lemma KindsScriptRuns(db: Db, name: TableName)
    requires name in db && Conforms(db[name]) && LacksNewColumns(db[name].schema)
    ensures forall key :: key in db[name].rows ==> UpdatedAt in db[name].rows[key]
    ensures ExecAll(KindsScript(name), db, false)
            == Some(db[name := Table(WithKinds(db[name].schema), UpgradedAccounts(db[name].rows))])
  {
    var t := db[name];
    UpdatedAtPresent(t);
    AddsRun(db, name);
    BackfillRuns(db, name);
    ExecFour(KindsScript(name), db, db[name := WithStatus(t)], db[name := WithKind(t)], db[name := WithStamp(t)],
             db[name := Table(WithKinds(t.schema), UpgradedAccounts(t.rows))], false);
  }

  // ----- From version 1 to version 4 -----

  ghost predicate ReadyForUpgrade(db: Db) {
    && Accounts in db && RowsFit(db[Accounts].rows, ACCOUNTS_V1) && AccountsNew !in db
    && EmailSettings in db && RowsFit(db[EmailSettings].rows, EMAIL_V1) && EmailSettingsNew !in db
    && NothingReferences(db, AccountsNew) && NothingReferences(db, EmailSettingsNew)
  }

  lemma Version1Names()
    ensures {Accounts, EmailSettings} <= V1.Keys && {AccountsNew, EmailSettingsNew} !! V1.Keys
    ensures V1[Accounts] == ACCOUNTS_V1 && V1[EmailSettings] == EMAIL_V1
  {
  }

  lemma Version1References()
    ensures forall t, c :: t in V1 && c in V1[t].references ==>
              V1[t].references[c] != AccountsNew && V1[t].references[c] != EmailSettingsNew
  {
  }

  lemma Version1IsReady(db: Db)
    requires IsVersion1(db)
    ensures ReadyForUpgrade(db)
  {
    Version1Names();
    Version1References();
    assert db[Accounts].schema == V1[Accounts] && db[EmailSettings].schema == V1[EmailSettings];
    forall t, c | t in db && c in db[t].schema.references
      ensures db[t].schema.references[c] != AccountsNew && db[t].schema.references[c] != EmailSettingsNew
    {
      assert db[t].schema == V1[t];
    }
  }

  lemma OwnerFreeAccountsFit(rows: map<Value, Row>)
    requires RowsFit(rows, ACCOUNTS_V1)
    ensures RowsFit(rows, ACCOUNTS_V2) && LacksNewColumns(ACCOUNTS_V2)
    ensures forall key :: key in rows ==> UpdatedAt in rows[key]
  {
    forall key | key in rows
      ensures RowFits(ACCOUNTS_V2, rows[key]) && UpdatedAt in rows[key]
    {
      assert RowFits(ACCOUNTS_V1, rows[key]);
    }
  }

  lemma WithKindsIsVersion4()
    ensures WithKinds(ACCOUNTS_V2) == ACCOUNTS_V4
  {
  }

  ghost function Upgraded(db: Db): Db
    requires ReadyForUpgrade(db)
  {
    OwnerFreeAccountsFit(db[Accounts].rows);
    AfterKinds(AfterGmail(AfterOwner(db)))
  }

  /** The names of the shipped files: four digits, an underscore, a title. */
  function FileName(version: nat, title: string): string {
    Pad(version, 4) + "_" + (title + ".sql")
  }

  const NAME_1 := FileName(1, "init")
  const NAME_2 := FileName(2, "free_text_owner")
  const NAME_3 := FileName(3, "drop_gmail")
  const NAME_4 := FileName(4, "program_kind_status_last_updated")

  const M2 := Migration(2, NAME_2, FREE_TEXT_OWNER)
  const M3 := Migration(3, NAME_3, DROP_GMAIL)
  const M4 := Migration(4, NAME_4, KIND_STATUS_LAST_UPDATED)

  lemma CommitIs(s: Store, m: Migration, db: Db, applied: set<int>)
    requires ExecAll(m.script, s.db, false) == Some(db) && m.version !in s.applied && applied == s.applied + {m.version}
    ensures Commit(s, m) == Some(Store(db, applied))
  {
  }

  lemma OwnerCommits(db: Db)
    requires ReadyForUpgrade(db)
    ensures Commit(Store(db, {1}), M2) == Some(Store(AfterOwner(db), {1, 2}))
  {
    OwnerScript(db);
    CommitIs(Store(db, {1}), M2, AfterOwner(db), {1, 2});
  }

  lemma OwnerKeepsReady(db: Db)
    requires ReadyForUpgrade(db)
    ensures var db2 := AfterOwner(db);
            && EmailSettings in db2 && EmailSettingsNew !in db2 && db2[EmailSettings] == db[EmailSettings]
            && NothingReferences(db2, EmailSettingsNew)
  {
    assert ACCOUNTS_V2.references == map[];
  }

  lemma GmailCommits(db: Db)
    requires ReadyForUpgrade(db)
    ensures Commit(Store(AfterOwner(db), {1, 2}), M3) == Some(Store(AfterGmail(AfterOwner(db)), {1, 2, 3}))
  {
    OwnerKeepsReady(db);
    GmailScript(AfterOwner(db));
    CommitIs(Store(AfterOwner(db), {1, 2}), M3, AfterGmail(AfterOwner(db)), {1, 2, 3});
  }

  lemma KindsCommit(db: Db)
    requires ReadyForUpgrade(db)
    ensures Commit(Store(AfterGmail(AfterOwner(db)), {1, 2, 3}), M4) == Some(Store(Upgraded(db), {1, 2, 3, 4}))
  {
    var db3 := AfterGmail(AfterOwner(db));
    OwnerFreeAccountsFit(db[Accounts].rows);
    WithKindsIsVersion4();
    assert db3[Accounts] == Table(ACCOUNTS_V2, db[Accounts].rows);
    KindsScriptRuns(db3, Accounts);
    CommitIs(Store(db3, {1, 2, 3}), M4, Upgraded(db), {1, 2, 3, 4});
  }

  lemma ThreeCommits(s0: Store, s1: Store, s2: Store, s3: Store, a: Migration, b: Migration, c: Migration)
    requires Commit(s0, a) == Some(s1) && Commit(s1, b) == Some(s2) && Commit(s2, c) == Some(s3)
    ensures CommitAll(s0, [a, b, c]) == Some(s3)
  {
    assert [a][..0] == [] && [a, b][..1] == [a] && [a, b, c][..2] == [a, b];
    assert CommitAll(s0, [a]) == Some(s1);
    assert CommitAll(s0, [a, b]) == Some(s2);
  }

  lemma UpgradeCommits(db: Db)
    requires ReadyForUpgrade(db)
    ensures CommitAll(Store(db, {1}), [M2, M3, M4]) == Some(Store(Upgraded(db), {1, 2, 3, 4}))
  {
    OwnerCommits(db);
    GmailCommits(db);
    KindsCommit(db);
    ThreeCommits(Store(db, {1}), Store(AfterOwner(db), {1, 2}), Store(AfterGmail(AfterOwner(db)), {1, 2, 3}),
                 Store(Upgraded(db), {1, 2, 3, 4}), M2, M3, M4);
  }

  /** One account row before and after: nothing lost, three columns set. */
  ghost predicate AccountKept(row: Row, row': Row) {
    && row'.Keys == row.Keys + {Status, Kind, PointsUpdatedAt}
    && (forall c :: c in row ==> row'[c] == row[c])
    && UpdatedAt in row && row'[Status] == Text("") && row'[Kind] == Text("Other")
        && row'[PointsUpdatedAt] == row[UpdatedAt]
  }

  /** One settings row before and after: the Gmail columns go, 'gmail' becomes 'none'. */
  ghost predicate SettingsKept(row: Row, row': Row) {
    && row'.Keys == row.Keys - GMAIL_COLUMNS
    && (forall c :: c in row' && c in row && c != ProviderType ==> row'[c] == row[c])
    && ProviderType in row && ProviderType in row'
    && row'[ProviderType] == if row[ProviderType] == Text("gmail") then Text("none") else row[ProviderType]
  }

  ghost predicate KeepsData(db: Db, after: Db) {
    && after.Keys == db.Keys && Accounts in db && EmailSettings in db
    && (forall t :: t in db && t != Accounts && t != EmailSettings ==> after[t] == db[t])
    && after[Accounts].schema == ACCOUNTS_V4 && after[EmailSettings].schema == EMAIL_V3
    && after[Accounts].rows.Keys == db[Accounts].rows.Keys
    && (forall key :: key in db[Accounts].rows ==> AccountKept(db[Accounts].rows[key], after[Accounts].rows[key]))
    && after[EmailSettings].rows.Keys == db[EmailSettings].rows.Keys
    && (forall key :: key in db[EmailSettings].rows ==> SettingsKept(db[EmailSettings].rows[key],
        after[EmailSettings].rows[key]))
  }

  lemma AccountRowKept(row: Row)
    requires UpdatedAt in row && {Status, Kind, PointsUpdatedAt} !! row.Keys
    ensures AccountKept(row, AccountAfterUpgrade(row))
  {
  }

  lemma SettingsRowKept(columns: set<Column>, row: Row)
    requires row.Keys == columns + GMAIL_COLUMNS && columns !! GMAIL_COLUMNS && ProviderType in columns
    ensures SettingsKept(row, WithoutGmail(columns, row))
  {
    assert WithoutGmail(columns, row).Keys == row.Keys - GMAIL_COLUMNS;
  }

  lemma Version1AccountColumns(row: Row)
    requires RowFits(ACCOUNTS_V1, row)
    ensures {Status, Kind, PointsUpdatedAt} !! row.Keys
  {
  }

  lemma UpgradedAccountsKept(rows: map<Value, Row>)
    requires RowsFit(rows, ACCOUNTS_V1)
    requires forall key :: key in rows ==> UpdatedAt in rows[key]
    ensures forall key :: key in rows ==> AccountKept(rows[key], UpgradedAccounts(rows)[key])
  {
    forall key | key in rows
      ensures AccountKept(rows[key], UpgradedAccounts(rows)[key])
    {
      Version1AccountColumns(rows[key]);
      AccountRowKept(rows[key]);
    }
  }

  lemma SettingsColumns(row: Row)
    requires RowFits(EMAIL_V1, row)
    ensures row.Keys == EMAIL_COLUMNS + GMAIL_COLUMNS && EMAIL_COLUMNS !! GMAIL_COLUMNS && ProviderType in EMAIL_COLUMNS
  {
  }

  lemma NarrowedSettingsKept(rows: map<Value, Row>)
    requires RowsFit(rows, EMAIL_V1)
    ensures forall key :: key in rows ==> SettingsKept(rows[key], WithoutGmail(EMAIL_COLUMNS, rows[key]))
  {
    forall key | key in rows
      ensures SettingsKept(rows[key], WithoutGmail(EMAIL_COLUMNS, rows[key]))
    {
      SettingsColumns(rows[key]);
      SettingsRowKept(EMAIL_COLUMNS, rows[key]);
    }
  }

  lemma UpgradeKeepsData(db: Db)
    requires ReadyForUpgrade(db)
    ensures KeepsData(db, Upgraded(db))
  {
    OwnerFreeAccountsFit(db[Accounts].rows);
    UpgradedAccountsKept(db[Accounts].rows);
    NarrowedSettingsKept(db[EmailSettings].rows);
  }

  /** The rebuilt tables satisfy the new CHECKs. */
  lemma UpgradedTablesConform(db: Db)
    requires ReadyForUpgrade(db)
    ensures Conforms(Upgraded(db)[Accounts]) && Conforms(Upgraded(db)[EmailSettings])
  {
    var t := Table(ACCOUNTS_V2, db[Accounts].rows);
    OwnerFreeAccountsFit(db[Accounts].rows);
    WithKindsIsVersion4();
    NewColumnsConform(t);
    StampedTableUpdates(t);
    EmailSchemasDropGmail();
    forall key | key in db[EmailSettings].rows
      ensures RowFits(EMAIL_V3, WithoutGmail(EMAIL_COLUMNS, db[EmailSettings].rows[key]))
    {
      NarrowedRow(EMAIL_V1, EMAIL_V3, db[EmailSettings].rows[key]);
    }
  }

  /** Foreign keys depend on the referencing tables and on the parents' keys alone. */
  lemma IntegrityByKeys(db: Db, after: Db)
    requires ForeignKeysIntact(db) && after.Keys == db.Keys
    requires forall t :: t in db ==> after[t].rows.Keys == db[t].rows.Keys
    requires forall t :: t in db ==> after[t] == db[t] || after[t].schema.references == map[]
    ensures ForeignKeysIntact(after)
  {
    forall child | child in after
      ensures forall key | key in after[child].rows ::
                forall column | column in after[child].schema.references :: !Dangles(after, child, key, column)
    {
      forall key, column | key in after[child].rows && column in after[child].schema.references
        ensures !Dangles(after, child, key, column)
      {
        assert !Dangles(db, child, key, column);
      }
    }
  }

  lemma UpgradedIntegrity(db: Db)
    requires ReadyForUpgrade(db) && ForeignKeysIntact(db)
    ensures ForeignKeysIntact(Upgraded(db))
  {
    UpgradeKeepsData(db);
    IntegrityByKeys(db, Upgraded(db));
  }
}
