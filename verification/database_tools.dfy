/** The database tools the MCP server registers (`use-cases/mcp-server/examples/database-tools.ts`
    and its Sentry-instrumented twin `database-tools-sentry.ts`): `listTables` groups the
    rows of `information_schema.columns` into tables, `queryDatabase` runs only statements
    that pass the SQL guard and are not writes, and `executeDatabase`, offered only to the
    GitHub logins on a fixed list, runs any statement that passes the guard.

    The database is the parameter `db`, the text a statement would be sent as mapped to
    its result or to the value it throws; `JSON.stringify(value, null, 2)` is `pretty`, and
    `render` is that rendering of the table list. The two files differ only in how a
    thrown error becomes a response, so both are one model with a `Reporting` mode. */
module DatabaseTools {
  import opened Wrappers
  import opened Text
  import opened JsonValues
  import opened Collections
  import opened SqlGuard
  import opened McpResponses

  // ---------------------------------------------------------------------------
  // Which tools a user gets
  // ---------------------------------------------------------------------------

  /** The GitHub logins allowed to write. */
  const AllowedUsernames: set<string> := {"coleam00"}

  datatype Tool = ListTables | QueryDatabase | ExecuteDatabase

  /** The tools registered for a login: reading for everybody, writing for the listed. */
  function RegisteredTools(login: string): (r: set<Tool>)
    ensures ListTables in r && QueryDatabase in r
    ensures ExecuteDatabase in r <==> login in AllowedUsernames
  {
    {ListTables, QueryDatabase} + (if login in AllowedUsernames then {ExecuteDatabase} else {})
  }

  // ---------------------------------------------------------------------------
  // Grouping columns into tables
  // ---------------------------------------------------------------------------

  /** One row of `information_schema.columns` as the query selects it. */
  datatype ColumnRow = ColumnRow(tableName: string, columnName: string, dataType: string,
                                 isNullable: string, columnDefault: Option<string>)

  datatype Column = Column(name: string, dataType: string, nullable: bool, default: Option<string>)

  datatype TableInfo = TableInfo(name: string, schema: string, columns: seq<Column>)

  /** A row as a column: nullable exactly when the catalogue says `YES`. */
  function ToColumn(row: ColumnRow): (c: Column)
    ensures c.nullable <==> row.isNullable == "YES"
    ensures c.name == row.columnName && c.dataType == row.dataType && c.default == row.columnDefault
  {
    Column(row.columnName, row.dataType, row.isNullable == "YES", row.columnDefault)
  }

  function TableNames(rows: seq<ColumnRow>): (r: seq<string>)
    ensures |r| == |rows| && forall i :: 0 <= i < |rows| ==> r[i] == rows[i].tableName
  {
    seq(|rows|, i requires 0 <= i < |rows| => rows[i].tableName)
  }

  /** The columns of the rows of one table, in row order. */
  function ColumnsOf(rows: seq<ColumnRow>, table: string): seq<Column>
    decreases |rows|
  {
    if |rows| == 0 then []
    else
      var last := rows[|rows| - 1];
      ColumnsOf(rows[..|rows| - 1], table) + (if last.tableName == table then [ToColumn(last)] else [])
  }

  /** The grouping by reference: one table per distinct name, in order of first
      appearance, each in schema `public` with the columns of its rows. */
  function Grouped(rows: seq<ColumnRow>): (r: seq<TableInfo>)
    ensures |r| == |Dedupe(TableNames(rows))|
    ensures forall i :: 0 <= i < |r| ==> r[i].name == Dedupe(TableNames(rows))[i]
    ensures forall i :: 0 <= i < |r| ==> r[i].schema == "public" && r[i].columns == ColumnsOf(rows, r[i].name)
  {
    var names := Dedupe(TableNames(rows));
    seq(|names|, i requires 0 <= i < |names| => TableInfo(names[i], "public", ColumnsOf(rows, names[i])))
  }

  /** `tableMap.has(name)` / `tableMap.get(name)`: where a table is, or the end. */
  function TableIndex(tables: seq<TableInfo>, name: string): (i: nat)
    ensures i <= |tables|
    ensures i < |tables| ==> tables[i].name == name
    ensures forall j :: 0 <= j < i ==> tables[j].name != name
    decreases |tables|
  {
    if |tables| == 0 then 0
    else if tables[0].name == name then 0
    else 1 + TableIndex(tables[1..], name)
  }

  /** One turn of the loop: open the row's table at the end if it is new, then append
      the row's column to it. */
  function AddRow(tables: seq<TableInfo>, row: ColumnRow): (r: seq<TableInfo>)
    ensures |r| == |tables| + (if TableIndex(tables, row.tableName) == |tables| then 1 else 0)
  {
    var i := TableIndex(tables, row.tableName);
    var ts := if i == |tables| then tables + [TableInfo(row.tableName, "public", [])] else tables;
    ts[i := ts[i].(columns := ts[i].columns + [ToColumn(row)])]
  }

  /** The loop of `listTables` over the catalogue rows, with the map kept as the
      sequence of its values in insertion order. */
  method GroupColumns(rows: seq<ColumnRow>) returns (tables: seq<TableInfo>)
    ensures tables == Grouped(rows)
  {
    tables := [];
    var k := 0;
    while k < |rows|
      invariant k <= |rows|
      invariant tables == Grouped(rows[..k])
    {
      var row := rows[k];
      var i := TableIndex(tables, row.tableName);
      if i == |tables| {
        tables := tables + [TableInfo(row.tableName, "public", [])];
      }
      tables := tables[i := tables[i].(columns := tables[i].columns + [ToColumn(row)])];
      GroupedStep(rows[..k], row);
      assert rows[..k + 1] == rows[..k] + [row];
      k := k + 1;
    }
    assert rows[..k] == rows;
  }

  lemma ColumnsOfAppend(rows: seq<ColumnRow>, row: ColumnRow, table: string)
    ensures ColumnsOf(rows + [row], table)
            == ColumnsOf(rows, table) + (if row.tableName == table then [ToColumn(row)] else [])
  {
    assert (rows + [row])[..|rows|] == rows;
  }

  lemma TableNamesAppend(rows: seq<ColumnRow>, row: ColumnRow)
    ensures Dedupe(TableNames(rows + [row]))
            == if row.tableName in TableNames(rows) then Dedupe(TableNames(rows))
               else Dedupe(TableNames(rows)) + [row.tableName]
  {
    var xs := TableNames(rows + [row]);
    assert xs[..|rows|] == TableNames(rows);
  }

  /** A table nobody names has no columns. */
  lemma {:induction false} ColumnsOfAbsent(rows: seq<ColumnRow>, table: string)
    requires table !in TableNames(rows)
    ensures ColumnsOf(rows, table) == []
    decreases |rows|
  {
    if |rows| > 0 {
      var n := |rows| - 1;
      assert TableNames(rows)[n] == rows[n].tableName;
      assert table !in TableNames(rows[..n]) by {
        forall j | 0 <= j < n ensures TableNames(rows[..n])[j] != table {
          assert TableNames(rows)[j] == rows[j].tableName;
        }
      }
      ColumnsOfAbsent(rows[..n], table);
    }
  }

  /** Adding a row to the grouping of the rows before it gives the grouping of all. */
  lemma GroupedStep(rows: seq<ColumnRow>, row: ColumnRow)
    ensures Grouped(rows + [row]) == AddRow(Grouped(rows), row)
  {
    var g := Grouped(rows);
    var names := Dedupe(TableNames(rows));
    var t := row.tableName;
    var g2 := Grouped(rows + [row]);
    var a := AddRow(g, row);
    TableNamesAppend(rows, row);
    forall x ensures ColumnsOf(rows + [row], x) == ColumnsOf(rows, x) + (if t == x then [ToColumn(row)] else []) {
      ColumnsOfAppend(rows, row, x);
    }
    var i := TableIndex(g, t);
    if t in TableNames(rows) {
      assert t in names;
      var k :| 0 <= k < |names| && names[k] == t;
      assert i <= k;
      assert names[i] == names[k];
      assert |g2| == |a|;
      forall j | 0 <= j < |g2| ensures g2[j] == a[j] {
        if j != i {
          assert names[j] != names[i];
        }
      }
    } else {
      assert t !in names;
      assert i == |g|;
      ColumnsOfAbsent(rows, t);
      assert |g2| == |a|;
      forall j | 0 <= j < |g2| ensures g2[j] == a[j] {
        if j < |g| {
          assert names[j] != t;
        }
      }
    }
  }

  // ---------------------------------------------------------------------------
  // Properties of the grouping
  // ---------------------------------------------------------------------------

  function TotalColumns(tables: seq<TableInfo>): nat
    decreases |tables|
  {
    if |tables| == 0 then 0
    else TotalColumns(tables[..|tables| - 1]) + |tables[|tables| - 1].columns|
  }

  lemma TotalColumnsAppend(tables: seq<TableInfo>, t: TableInfo)
    ensures TotalColumns(tables + [t]) == TotalColumns(tables) + |t.columns|
  {
    assert (tables + [t])[..|tables|] == tables;
  }

  lemma {:induction false} TotalColumnsUpdate(tables: seq<TableInfo>, i: nat, t: TableInfo)
    requires i < |tables|
    ensures TotalColumns(tables[i := t]) + |tables[i].columns| == TotalColumns(tables) + |t.columns|
    decreases |tables|
  {
    var n := |tables| - 1;
    var u := tables[i := t];
    assert u[..n] == if i == n then tables[..n] else tables[..n][i := t];
    if i < n {
      TotalColumnsUpdate(tables[..n], i, t);
    }
  }

  lemma AddRowAddsOneColumn(tables: seq<TableInfo>, row: ColumnRow)
    ensures TotalColumns(AddRow(tables, row)) == TotalColumns(tables) + 1
  {
    var i := TableIndex(tables, row.tableName);
    var ts := if i == |tables| then tables + [TableInfo(row.tableName, "public", [])] else tables;
    if i == |tables| {
      TotalColumnsAppend(tables, TableInfo(row.tableName, "public", []));
    }
    TotalColumnsUpdate(ts, i, ts[i].(columns := ts[i].columns + [ToColumn(row)]));
  }

  /** No row is lost or counted twice: the tables hold as many columns as there are rows. */
  lemma {:induction false} EveryRowGrouped(rows: seq<ColumnRow>)
    ensures TotalColumns(Grouped(rows)) == |rows|
    decreases |rows|
  {
    if |rows| == 0 {
      assert Grouped(rows) == [];
    } else {
      var n := |rows| - 1;
      EveryRowGrouped(rows[..n]);
      assert rows[..n] + [rows[n]] == rows;
      GroupedStep(rows[..n], rows[n]);
      AddRowAddsOneColumn(Grouped(rows[..n]), rows[n]);
    }
  }

  /** Each row's column is in the table of its name. */
  lemma {:induction false} RowInItsTable(rows: seq<ColumnRow>, k: nat)
    requires k < |rows|
    ensures ToColumn(rows[k]) in ColumnsOf(rows, rows[k].tableName)
    decreases |rows|
  {
    var n := |rows| - 1;
    if k < n {
      RowInItsTable(rows[..n], k);
    }
  }

  /** Table names are distinct, appear in order of first appearance, and the reported
      total is the number of distinct names among the rows. */
  lemma TablesAreDistinctAndOrdered(rows: seq<ColumnRow>, i: nat, j: nat)
    requires i < j < |Grouped(rows)|
    ensures Grouped(rows)[i].name != Grouped(rows)[j].name
    ensures IndexOf(TableNames(rows), Grouped(rows)[i].name) < IndexOf(TableNames(rows), Grouped(rows)[j].name)
  {
    DedupeKeepsFirstOccurrenceOrder(TableNames(rows), i, j);
  }

  lemma TableCountIsDistinctNames(rows: seq<ColumnRow>)
    ensures |Grouped(rows)| == |Elements(TableNames(rows))|
  {
    DedupeCount(TableNames(rows));
  }

  // ---------------------------------------------------------------------------
  // Tool bodies
  // ---------------------------------------------------------------------------

  /** How a thrown error becomes a response: the plain tools put the formatted message
      under a context line; the Sentry tools report the error and show its event id. */
  datatype Reporting = Plain | WithSentry(eventId: string, nodeEnv: Option<string>)

  /** The fixed lines of `handleError`'s report, joined by blank lines, up to the event id. */
  const ReportPreamble: string :=
    "**Error**" + "\n\n" + "There was a problem with your request." + "\n\n"
    + "Please report the following to the support team:" + "\n\n" + "**Event ID**: "

  /** What `handleError` shows of the error itself. */
  function ErrorDetail(e: Thrown, nodeEnv: Option<string>): string {
    if nodeEnv == Some("production") then ""
    else match e
         case ErrorObject(m) => m
         case OtherValue(shown) => shown
  }

  /** `handleError` of the Sentry tools, with the event id Sentry returned and the value
      of `NODE_ENV`. */
  function HandleError(e: Thrown, eventId: string, nodeEnv: Option<string>): (r: McpResponse)
    ensures |r.content| == 1 && r.content[0].isError == Some(true)
    ensures StartsWith(r.content[0].text, ReportPreamble + eventId + "\n\n")
    ensures r.content[0].text[|ReportPreamble| + |eventId| + 2..] == ErrorDetail(e, nodeEnv)
  {
    var detail := ErrorDetail(e, nodeEnv);
    var text := Join(["**Error**", "There was a problem with your request.",
                      "Please report the following to the support team:",
                      "**Event ID**: " + eventId, detail], "\n\n");
    JoinFive("**Error**", "There was a problem with your request.",
             "Please report the following to the support team:",
             "**Event ID**: " + eventId, detail, "\n\n");
    assert text == ReportPreamble + eventId + "\n\n" + detail;
    assert text[..|ReportPreamble + eventId + "\n\n"|] == ReportPreamble + eventId + "\n\n";
    McpResponse([TextContent(text, Some(true))])
  }

  /** In production the response says nothing about the error: two errors with the same
      event id give the same response. */
  lemma ProductionHidesError(e1: Thrown, e2: Thrown, eventId: string)
    ensures HandleError(e1, eventId, Some("production")) == HandleError(e2, eventId, Some("production"))
  {
    var r1 := HandleError(e1, eventId, Some("production"));
    var r2 := HandleError(e2, eventId, Some("production"));
    var p := ReportPreamble + eventId + "\n\n";
    assert r1.content[0].text == p by {
      assert r1.content[0].text[..|p|] == p;
    }
    assert r2.content[0].text == p by {
      assert r2.content[0].text[..|p|] == p;
    }
  }

  function ReportFailure(mode: Reporting, context: string, e: Thrown, pretty: Json -> string): (r: McpResponse)
    ensures |r.content| == 1 && r.content[0].isError == Some(true)
  {
    match mode
    case Plain => CreateErrorResponse(context + FormatDatabaseError(e), None, pretty)
    case WithSentry(eventId, nodeEnv) => HandleError(e, eventId, nodeEnv)
  }

  /** The response of a tool, and whether the statement was sent to the database. */
  datatype ToolRun = ToolRun(response: McpResponse, dbCalled: bool)

  /** `Array.isArray(results) ? results.length : 1`. */
  function RowCount(results: Json): nat {
    if results.JArray? then |results.items| else 1
  }

  const WriteRejected: string :=
    "Write operations are not allowed with this tool. Use the `executeDatabase` tool if you have write permissions (requires special GitHub username access)."

  function Fenced(sql: string, pretty: string): string {
    "```sql\n" + sql + "\n```\n\n**Results:**\n```json\n" + pretty + "\n```\n\n"
  }

  function RowsReturned(results: Json): string {
    "**Rows returned:** " + NatToString(RowCount(results))
  }

  /** The `listTables` tool on the catalogue rows the query returns, or on what it throws. */
  method RunListTables(mode: Reporting, catalogue: Result<seq<ColumnRow>, Thrown>,
                       render: seq<TableInfo> -> string, pretty: Json -> string) returns (r: McpResponse)
    ensures catalogue.Failure? ==> r == ReportFailure(mode, "Error retrieving database schema: ", catalogue.error, pretty)
    // the count shown is the number of distinct table names among the rows
    ensures catalogue.Success? ==>
              r == McpResponse([TextContent(SchemaText(render(Grouped(catalogue.value)),
                                                       |Elements(TableNames(catalogue.value))|), None)])
  {
    if catalogue.Failure? {
      return ReportFailure(mode, "Error retrieving database schema: ", catalogue.error, pretty);
    }
    var tables := GroupColumns(catalogue.value);
    TableCountIsDistinctNames(catalogue.value);
    r := McpResponse([TextContent(SchemaText(render(tables), |tables|), None)]);
  }

  /** The answer of `listTables`: the rendered tables, then their count. */
  function SchemaText(rendered: string, count: nat): string {
    "**Database Tables and Schema**\n\n" + rendered
    + "\n\n**Total tables found:** " + NatToString(count)
    + "\n\n**Note:** Use the `queryDatabase` tool to run SELECT queries, or `executeDatabase` tool for write operations (if you have write access)."
  }

  /** The `queryDatabase` tool: the guard first, then the write check, and only then the
      database. */
  function RunQueryDatabase(mode: Reporting, sql: string, db: string -> Result<Json, Thrown>,
                            pretty: Json -> string): (r: ToolRun)
    ensures r.dbCalled <==> ValidateSqlQuery(sql).Valid? && !IsWriteOperation(sql)
    ensures ValidateSqlQuery(sql).Invalid? ==>
              r.response == CreateErrorResponse("Invalid SQL query: " + ValidateSqlQuery(sql).error, None, pretty)
    ensures ValidateSqlQuery(sql).Valid? && IsWriteOperation(sql) ==>
              r.response == CreateErrorResponse(WriteRejected, None, pretty)
    ensures r.dbCalled && db(sql).Failure? ==>
              r.response == ReportFailure(mode, "Database query error: ", db(sql).error, pretty)
    ensures r.dbCalled && db(sql).Success? ==>
              |r.response.content| == 1 && r.response.content[0].isError.None?
              && EndsWith(r.response.content[0].text, RowsReturned(db(sql).value))
  {
    QueryWith(mode, ValidateSqlQuery(sql), IsWriteOperation(sql), sql, db, pretty)
  }

  /** `queryDatabase` once the guard and the write check have given their verdicts. */
  function QueryWith(mode: Reporting, validation: SqlValidation, write: bool, sql: string,
                     db: string -> Result<Json, Thrown>, pretty: Json -> string): (r: ToolRun)
    ensures r.dbCalled <==> validation.Valid? && !write
  {
    if validation.Invalid? then
      ToolRun(CreateErrorResponse("Invalid SQL query: " + validation.error, None, pretty), false)
    else if write then
      ToolRun(CreateErrorResponse(WriteRejected, None, pretty), false)
    else
      match db(sql)
      case Failure(e) => ToolRun(ReportFailure(mode, "Database query error: ", e, pretty), true)
      case Success(results) => ToolRun(McpResponse([TextContent(QueryText(sql, results, pretty), None)]), true)
  }

  /** The answer of `queryDatabase` once the query ran: it closes with the row count. */
  function QueryText(sql: string, results: Json, pretty: Json -> string): (text: string)
    ensures EndsWith(text, RowsReturned(results))
  {
    EndsOfConcat("**Query Results**\n", Fenced(sql, pretty(results)), RowsReturned(results));
    "**Query Results**\n" + Fenced(sql, pretty(results)) + RowsReturned(results)
  }

  /** The heading word of `executeDatabase`'s answer. */
  function OperationType(sql: string): (kind: string)
    ensures kind == "Write Operation" <==> IsWriteOperation(sql)
    ensures kind == "Read Operation" <==> !IsWriteOperation(sql)
  {
    if IsWriteOperation(sql) then "Write Operation" else "Read Operation"
  }

  /** The `executeDatabase` tool for the user `login` (display name `name`): the guard,
      then the database, whatever kind of statement it is. */
  function RunExecuteDatabase(mode: Reporting, login: string, name: string, sql: string,
                              db: string -> Result<Json, Thrown>, pretty: Json -> string): (r: ToolRun)
    ensures r.dbCalled <==> ValidateSqlQuery(sql).Valid?
    ensures ValidateSqlQuery(sql).Invalid? ==>
              r.response == CreateErrorResponse("Invalid SQL statement: " + ValidateSqlQuery(sql).error, None, pretty)
    ensures r.dbCalled && db(sql).Failure? ==>
              r.response == ReportFailure(mode, "Database execution error: ", db(sql).error, pretty)
    ensures r.dbCalled && db(sql).Success? ==>
              |r.response.content| == 1 && r.response.content[0].isError.None?
              && StartsWith(r.response.content[0].text, "**" + OperationType(sql) + " Executed Successfully**\n")
              && EndsWith(r.response.content[0].text, "\n\n**Executed by:** " + login + " (" + name + ")")
  {
    var validation := ValidateSqlQuery(sql);
    if validation.Invalid? then
      ToolRun(CreateErrorResponse("Invalid SQL statement: " + validation.error, None, pretty), false)
    else
      match db(sql)
      case Failure(e) => ToolRun(ReportFailure(mode, "Database execution error: ", e, pretty), true)
      case Success(results) => ToolRun(McpResponse([TextContent(ExecutedText(login, name, sql, results, pretty), None)]), true)
  }

  /** The answer of `executeDatabase` once the statement ran. */
  function ExecutedText(login: string, name: string, sql: string, results: Json, pretty: Json -> string): (text: string)
    ensures StartsWith(text, "**" + OperationType(sql) + " Executed Successfully**\n")
    ensures EndsWith(text, "\n\n**Executed by:** " + login + " (" + name + ")")
  {
    var head := "**" + OperationType(sql) + " Executed Successfully**\n";
    var outcome := if IsWriteOperation(sql) then "**\U{26A0}\U{FE0F} Database was modified**" else RowsReturned(results);
    var tail := "\n\n**Executed by:** " + login + " (" + name + ")";
    var middle := Fenced(sql, pretty(results)) + outcome;
    EndsOfConcat(head, middle, tail);
    head + middle + tail
  }

  /** A call of a query tool by a user: nothing when the tool is not registered for them.
      `listTables` takes no SQL text and is run by `RunListTables` instead, so it also
      gives nothing here. */
  function CallTool(mode: Reporting, login: string, name: string, tool: Tool, sql: string,
                    db: string -> Result<Json, Thrown>, pretty: Json -> string): Option<ToolRun> {
    if tool !in RegisteredTools(login) then None
    else match tool
         case ListTables => None
         case QueryDatabase => Some(RunQueryDatabase(mode, sql, db, pretty))
         case ExecuteDatabase => Some(RunExecuteDatabase(mode, login, name, sql, db, pretty))
  }

  /** A user not on the list never gets a write statement to the database, and nobody gets
      a statement past the guard. */
  lemma OnlyListedUsersWrite(mode: Reporting, login: string, name: string, tool: Tool, sql: string,
                             db: string -> Result<Json, Thrown>, pretty: Json -> string)
    requires CallTool(mode, login, name, tool, sql, db, pretty).Some?
    requires CallTool(mode, login, name, tool, sql, db, pretty).value.dbCalled
    ensures ValidateSqlQuery(sql).Valid?
    ensures login !in AllowedUsernames ==> !IsWriteOperation(sql)
  {
  }

  /** The two variants answer alike unless the database throws. */
  lemma ReportingOnlyMattersOnErrors(m1: Reporting, m2: Reporting, sql: string,
                                     db: string -> Result<Json, Thrown>, pretty: Json -> string)
    requires !(ValidateSqlQuery(sql).Valid? && !IsWriteOperation(sql) && db(sql).Failure?)
    ensures RunQueryDatabase(m1, sql, db, pretty) == RunQueryDatabase(m2, sql, db, pretty)
  {
    QueryWithIgnoresModeOnSuccess(m1, m2, ValidateSqlQuery(sql), IsWriteOperation(sql), sql, db, pretty);
  }

  lemma QueryWithIgnoresModeOnSuccess(m1: Reporting, m2: Reporting, validation: SqlValidation, write: bool,
                                      sql: string, db: string -> Result<Json, Thrown>, pretty: Json -> string)
    requires !(validation.Valid? && !write && db(sql).Failure?)
    ensures QueryWith(m1, validation, write, sql, db, pretty) == QueryWith(m2, validation, write, sql, db, pretty)
  {
  }

  /** The query text kept on the trace span: `sql.substring(0, 100)`. */
  function TracedSql(sql: string): (r: string)
    ensures |r| <= 100 && StartsWith(sql, r)
    ensures |r| == if |sql| < 100 then |sql| else 100
  {
    if |sql| <= 100 then sql else sql[..100]
  }
}
