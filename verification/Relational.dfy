/** A small relational database: tables with required columns, value CHECKs and cascading foreign
    keys, and the statements that the migrations are made of. */
module Relational {
  import opened Wrappers

  datatype Value = Null | Int(n: int) | Text(s: string)

  datatype TableName =
    | Users | Sessions | Accounts | AccountsNew | NotificationThresholds | SentNotifications
    | EmailSettings | EmailSettingsNew | AppPreferences

  datatype Column =
    | Username | PasswordHash | CreatedAt | UpdatedAt
    | UserId | ExpiresAt | UserAgent | IpAddress
    | Name | Provider | AccountNumber | PointsBalance | ExpirationDate | DoesNotExpire | Owner | Notes
    | Status | Kind | PointsUpdatedAt
    | DaysBefore | Enabled
    | AccountId | ThresholdId | NotifiedExpirationDate | SentAt
    | ProviderType | GmailRefreshToken | GmailAccessToken | GmailTokenExpiry | GmailAccountEmail
    | SmtpHost | SmtpPort | SmtpUsername | SmtpPassword | SmtpSecurity | SmtpFromAddress
    | AppDisplayName | Timezone | RecipientEmails

  /** The columns of one row without its primary key, under which the row is kept. */
  type Row = map<Column, Value>

  /** `checks` lists the values a column may hold besides NULL; `references` are foreign keys to
      another table's primary key, all of them ON DELETE CASCADE. */
  datatype Schema = Schema(
    columns: set<Column>, required: set<Column>, checks: map<Column, set<Value>>, references: map<Column, TableName>)

  datatype Table = Table(schema: Schema, rows: map<Value, Row>)

  type Db = map<TableName, Table>

  predicate RowFits(schema: Schema, row: Row) {
    && row.Keys == schema.columns
    && (forall c :: c in schema.required && c in row ==> row[c] != Null)
    && (forall c :: c in schema.checks && c in row ==> row[c] == Null || row[c] in schema.checks[c])
  }

  predicate Conforms(t: Table) {
    forall key :: key in t.rows ==> RowFits(t.schema, t.rows[key])
  }

  /** Row `key` of table `child` names a parent row that does not exist. */
  predicate Dangles(db: Db, child: TableName, key: Value, column: Column)
    requires child in db && key in db[child].rows
  {
    var (t, row) := (db[child], db[child].rows[key]);
    column in t.schema.references && column in row && row[column] != Null
    && (t.schema.references[column] !in db || row[column] !in db[t.schema.references[column]].rows)
  }

  /** PRAGMA foreign_key_check reports nothing. */
  predicate ForeignKeysIntact(db: Db) {
    forall child | child in db ::
      forall key | key in db[child].rows ::
        forall column | column in db[child].schema.references :: !Dangles(db, child, key, column)
  }

  // ----- Statements -----

  datatype Expr =
    | Copy(column: Column)
    | CaseWhen(column: Column, equals: Value, replacement: Value)

  function Eval(e: Expr, row: Row): Option<Value> {
    if e.column !in row then None
    else if e.CaseWhen? && row[e.column] == e.equals then Some(e.replacement)
    else Some(row[e.column])
  }

  datatype Statement =
    | CreateTable(name: TableName, schema: Schema)
    | InsertSelect(target: TableName, columns: map<Column, Expr>, source: TableName)
    | DropTable(name: TableName)
    | RenameTable(from: TableName, to: TableName)
    | AddColumn(name: TableName, column: Column, default: Value, check: Option<set<Value>>)
    | UpdateColumn(name: TableName, column: Column, value: Expr)

  /** The row that an INSERT ... SELECT builds; unlisted columns are not part of these scripts. */
  function SelectRow(columns: map<Column, Expr>, row: Row): Option<Row> {
    if forall c :: c in columns ==> Eval(columns[c], row).Some?
    then Some(map c | c in columns :: Eval(columns[c], row).value)
    else None
  }

  predicate RefersTo(t: Table, row: Row, parent: TableName, gone: map<Value, Row>) {
    exists c :: c in row && c in t.schema.references && t.schema.references[c] == parent && row[c] in gone
  }

  function WithoutReferencesTo(t: Table, parent: TableName, gone: map<Value, Row>): Table {
    t.(rows := map key | key in t.rows && !RefersTo(t, t.rows[key], parent, gone) :: t.rows[key])
  }

  function RepointReferences(t: Table, from: TableName, to: TableName): Table {
    t.(schema := t.schema.(references :=
      map c | c in t.schema.references :: if t.schema.references[c] == from then to else t.schema.references[c]))
  }

  function ExecInsert(db: Db, target: TableName, columns: map<Column, Expr>, source: TableName): Option<Db>
    requires target in db && source in db
  {
    var (t, from) := (db[target], db[source].rows);
    if (forall key :: key in from ==>
          SelectRow(columns, from[key]).Some? && RowFits(t.schema, SelectRow(columns, from[key]).value))
    then Some(db[target := t.(rows := map key | key in from :: SelectRow(columns, from[key]).value)])
    else None
  }

  function AddedColumn(t: Table, column: Column, default: Value, check: Option<set<Value>>): Table {
    Table(t.schema.(columns := t.schema.columns + {column}, required := t.schema.required + {column},
                    checks := if check.Some? then t.schema.checks[column := check.value] else t.schema.checks),
          map key | key in t.rows :: t.rows[key][column := default])
  }

  /** The row that an UPDATE of one column leaves. */
  function SetRow(column: Column, value: Expr, row: Row): Option<Row> {
    var v := Eval(value, row);
    if v.None? then None else Some(row[column := v.value])
  }

  function ExecUpdate(db: Db, name: TableName, column: Column, value: Expr): Option<Db>
    requires name in db
  {
    var t := db[name];
    if (forall key :: key in t.rows ==>
          SetRow(column, value, t.rows[key]).Some? && RowFits(t.schema, SetRow(column, value, t.rows[key]).value))
    then Some(db[name := t.(rows := map key | key in t.rows :: SetRow(column, value, t.rows[key]).value)])
    else None
  }

  /** One statement; None is an error, which leaves the statement without effect.  Dropping a table
      deletes its rows first, and that cascades when enforcement is on. */
  function Exec(stmt: Statement, db: Db, enforcing: bool): Option<Db> {
    match stmt
    case CreateTable(name, schema) =>
      if name in db then None else Some(db[name := Table(schema, map[])])
    case InsertSelect(target, columns, source) =>
      if target !in db || source !in db || target == source || db[target].rows != map[] then None
      else ExecInsert(db, target, columns, source)
    case DropTable(name) =>
      if name !in db then None
      else
        var rest := db - {name};
        Some(if enforcing then map t | t in rest :: WithoutReferencesTo(rest[t], name, db[name].rows) else rest)
    case RenameTable(from, to) =>
      if from !in db || to in db then None
      else
        var renamed := (db - {from})[to := db[from]];
        Some(map t | t in renamed :: RepointReferences(renamed[t], from, to))
    case AddColumn(name, column, default, check) =>
      if name !in db || column in db[name].schema.columns || default == Null
         || (check.Some? && default !in check.value) then None
      else Some(db[name := AddedColumn(db[name], column, default, check)])
    case UpdateColumn(name, column, value) =>
      if name !in db then None else ExecUpdate(db, name, column, value)
  }

  /** A script stops at its first error. */
  function ExecAll(script: seq<Statement>, db: Db, enforcing: bool): Option<Db> {
    if script == [] then Some(db)
    else
      var next := Exec(script[0], db, enforcing);
      if next.None? then None else ExecAll(script[1..], next.value, enforcing)
  }

  // ----- What the constraints guarantee -----

  /** NOT NULL and CHECK are declared for the schema's own columns. */
  ghost predicate WellFormed(schema: Schema) {
    schema.required <= schema.columns && schema.checks.Keys <= schema.columns
  }

  ghost predicate Constrained(db: Db) {
    forall t :: t in db ==> WellFormed(db[t].schema) && Conforms(db[t])
  }

  lemma InsertKeepsConstraints(db: Db, target: TableName, columns: map<Column, Expr>, source: TableName)
    requires Constrained(db) && target in db && source in db && ExecInsert(db, target, columns, source).Some?
    ensures Constrained(ExecInsert(db, target, columns, source).value)
  {
  }

  lemma UpdateKeepsConstraints(db: Db, name: TableName, column: Column, value: Expr)
    requires Constrained(db) && name in db && ExecUpdate(db, name, column, value).Some?
    ensures Constrained(ExecUpdate(db, name, column, value).value)
  {
  }

  lemma AddColumnKeepsConstraints(t: Table, column: Column, default: Value, check: Option<set<Value>>)
    requires WellFormed(t.schema) && Conforms(t) && column !in t.schema.columns && default != Null
    requires check.Some? ==> default in check.value
    ensures WellFormed(AddedColumn(t, column, default, check).schema)
    ensures Conforms(AddedColumn(t, column, default, check))
  {
  }

  lemma DeletingKeepsConstraints(t: Table, parent: TableName, gone: map<Value, Row>)
    requires WellFormed(t.schema) && Conforms(t)
    ensures WellFormed(WithoutReferencesTo(t, parent, gone).schema) && Conforms(WithoutReferencesTo(t, parent, gone))
  {
  }

  lemma RepointingKeepsConstraints(t: Table, from: TableName, to: TableName)
    requires WellFormed(t.schema) && Conforms(t)
    ensures WellFormed(RepointReferences(t, from, to).schema) && Conforms(RepointReferences(t, from, to))
  {
  }

  /** No statement that succeeds leaves a row that breaks a NOT NULL or a CHECK. */
  lemma StatementKeepsConstraints(stmt: Statement, db: Db, enforcing: bool)
    requires Constrained(db) && (stmt.CreateTable? ==> WellFormed(stmt.schema)) && Exec(stmt, db, enforcing).Some?
    ensures Constrained(Exec(stmt, db, enforcing).value)
  {
    match stmt {
      case CreateTable(_, _) =>
      case InsertSelect(target, columns, source) =>
        InsertKeepsConstraints(db, target, columns, source);
      case DropTable(name) =>
        forall t | t in db {
          DeletingKeepsConstraints(db[t], name, db[name].rows);
        }
      case RenameTable(from, to) =>
        forall t | t in db {
          RepointingKeepsConstraints(db[t], from, to);
        }
      case AddColumn(name, column, default, check) =>
        AddColumnKeepsConstraints(db[name], column, default, check);
      case UpdateColumn(name, column, value) =>
        UpdateKeepsConstraints(db, name, column, value);
    }
  }

  /** Nor does any script. */
  lemma {:induction false} ScriptKeepsConstraints(script: seq<Statement>, db: Db, enforcing: bool)
    requires Constrained(db) && ExecAll(script, db, enforcing).Some?
    requires forall stmt :: stmt in script && stmt.CreateTable? ==> WellFormed(stmt.schema)
    ensures Constrained(ExecAll(script, db, enforcing).value)
  {
    if script != [] {
      StatementKeepsConstraints(script[0], db, enforcing);
      ScriptKeepsConstraints(script[1..], Exec(script[0], db, enforcing).value, enforcing);
    }
  }

  /** Renaming a table, which takes the references to it along, breaks no foreign key. */
  lemma RenameKeepsForeignKeys(db: Db, from: TableName, to: TableName, enforcing: bool)
    requires ForeignKeysIntact(db) && Exec(RenameTable(from, to), db, enforcing).Some?
    ensures ForeignKeysIntact(Exec(RenameTable(from, to), db, enforcing).value)
  {
    var after := Exec(RenameTable(from, to), db, enforcing).value;
    forall child, key, column |
      child in after && key in after[child].rows && column in after[child].schema.references
      ensures !Dangles(after, child, key, column)
    {
      var was := if child == to then from else child;
      assert after[child] == RepointReferences(db[was], from, to);
      assert !Dangles(db, was, key, column);
    }
  }
}
