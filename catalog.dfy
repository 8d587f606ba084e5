/** The DuckDB database file as seen by the ingester: a set of schemas and a
    map from schema-qualified table names to table contents, changed only by
    the statements the ingester issues through a connection
    (src/ingest/data.py, connect / create_schema / the DROP and CREATE
    statements). */
module Catalog {
  import opened Wrappers
  import opened CalendarDimension
  import opened BrazilianStates

  datatype TableId = TableId(schema: string, name: string)

  /** A table's contents: a table loaded from a CSV file is known only by its
      number of records; the two dimension tables hold the frames built in
      memory. */
  datatype Table =
    | RawTable(records: nat)
    | CalendarTable(days: seq<CalendarRow>)
    | StatesTable(states: seq<StateRow>)

  /** What SELECT COUNT(*) returns for a table. */
  function RowCount(t: Table): nat {
    match t
    case RawTable(n) => n
    case CalendarTable(rows) => |rows|
    case StatesTable(rows) => |rows|
  }

  datatype Catalog = Catalog(schemas: set<string>, tables: map<TableId, Table>)

  /** Every table lives in a schema that exists. */
  predicate Valid(c: Catalog) {
    forall id :: id in c.tables ==> id.schema in c.schemas
  }

  function Lookup(c: Catalog, id: TableId): Option<Table> {
    if id in c.tables then Some(c.tables[id]) else None
  }

  /** The exceptions the ingester can raise. */
  datatype IngestError =
    | ConnectionFailed             // duckdb.connect raised
    | NotConnected                 // self.conn is None: AttributeError
    | ConnectionClosed             // execute on a closed connection
    | MissingSchema(schema: string)
    | TableExists(id: TableId)
    | MissingTable(id: TableId)
    | LoadFailed(file: string)     // read_csv_auto could not read the file
    | OutOfBoundsDatetime          // the calendar's date range cannot be built
    | ColumnLengthMismatch         // pandas DataFrame from unequal columns

  /** The catalog after a step of the ingester, and the step's value or the
      exception it raised. */
  datatype Step<T> = Step(catalog: Catalog, result: Result<T, IngestError>)

  /** The state of the ingester's connection attribute. */
  datatype Session = NoConnection | Closed | Open

  function SessionError(s: Session): IngestError
    requires s != Open
  {
    if s == NoConnection then NotConnected else ConnectionClosed
  }

  /** A CSV file in the data directory: either it parses into some number of
      records or read_csv_auto fails on it. */
  datatype CsvFile = Parsed(records: nat) | Malformed

  /** What a CREATE TABLE ... AS SELECT reads from: a CSV file, or a data
      frame registered on the connection. */
  datatype Source = Csv(file: string, content: CsvFile) | Frame(table: Table)

  datatype Statement =
    | CreateSchemaIfNotExists(schema: string)
    | DropTableIfExists(id: TableId)
    | CreateTableAs(id: TableId, source: Source)

  /** The table a statement may touch (none for a schema statement). */
  function Target(stmt: Statement): Option<TableId> {
    match stmt
    case CreateSchemaIfNotExists(_) => None
    case DropTableIfExists(id) => Some(id)
    case CreateTableAs(id, _) => Some(id)
  }

  /** The table a source yields, or the error reading it raises. */
  function Contents(src: Source): Result<Table, IngestError> {
    match src
    case Csv(file, Malformed) => Err(LoadFailed(file))
    case Csv(_, Parsed(n)) => Ok(RawTable(n))
    case Frame(t) => Ok(t)
  }

  /** Executing one statement: every statement fails unless the session is
      open; CREATE TABLE fails on a missing schema, an existing table or an
      unreadable file. A successful statement changes at most its own target
      table, never removes a schema and keeps every table inside a schema. */
  function Exec(s: Session, c: Catalog, stmt: Statement): (r: Result<Catalog, IngestError>)
    ensures r.Err? && s != Open ==> r.error == SessionError(s)
    ensures r.Ok? ==> s == Open
    ensures r.Ok? ==> c.schemas <= r.value.schemas
    ensures r.Ok? && Valid(c) ==> Valid(r.value)
    ensures r.Ok? ==> forall id :: Some(id) != Target(stmt) ==> Lookup(r.value, id) == Lookup(c, id)
  {
    if s != Open then Err(SessionError(s))
    else match stmt
      case CreateSchemaIfNotExists(name) => Ok(c.(schemas := c.schemas + {name}))
      case DropTableIfExists(id) => Ok(c.(tables := c.tables - {id}))
      case CreateTableAs(id, src) =>
        if id.schema !in c.schemas then Err(MissingSchema(id.schema))
        else if id in c.tables then Err(TableExists(id))
        else match Contents(src)
          case Err(e) => Err(e)
          case Ok(t) => Ok(c.(tables := c.tables[id := t]))
  }

  /** SELECT COUNT(*) FROM id. */
  function Count(s: Session, c: Catalog, id: TableId): (r: Result<nat, IngestError>)
    ensures r.Ok? <==> s == Open && id in c.tables
    ensures r.Ok? ==> r.value == RowCount(c.tables[id])
  {
    if s != Open then Err(SessionError(s))
    else if id !in c.tables then Err(MissingTable(id))
    else Ok(RowCount(c.tables[id]))
  }

  /** DROP TABLE IF EXISTS followed by CREATE TABLE ... AS: the catalog
      after the two statements, or after the first one that failed. */
  function Rebuild(s: Session, c: Catalog, id: TableId, src: Source): Step<()> {
    match Exec(s, c, DropTableIfExists(id))
    case Err(e) => Step(c, Err(e))
    case Ok(c1) =>
      match Exec(s, c1, CreateTableAs(id, src))
      case Err(e) => Step(c1, Err(e))
      case Ok(c2) => Step(c2, Ok(()))
  }

  /** Drop-then-create replaces the table and never appends: whatever the
      table held before, a rebuild succeeds exactly when the session is open,
      the schema exists and the source is readable, and the table then holds
      exactly the source's contents while nothing else changes; without an
      open session nothing changes at all. */
  lemma RebuildReplaces(s: Session, c: Catalog, id: TableId, src: Source)
    ensures Rebuild(s, c, id, src).result.Ok? <==> s == Open && id.schema in c.schemas && Contents(src).Ok?
    ensures Rebuild(s, c, id, src).result.Ok? ==>
      Rebuild(s, c, id, src).catalog == c.(tables := c.tables[id := Contents(src).value])
    ensures Rebuild(s, c, id, src).result.Err? && s == Open ==>
      Rebuild(s, c, id, src).catalog == c.(tables := c.tables - {id})
      && Rebuild(s, c, id, src).result.error ==
        (if id.schema !in c.schemas then MissingSchema(id.schema) else Contents(src).error)
    ensures s != Open ==> Rebuild(s, c, id, src) == Step(c, Err(SessionError(s)))
  {
    if s == Open {
      var c1 := c.(tables := c.tables - {id});
      assert Exec(s, c, DropTableIfExists(id)) == Ok(c1);
      assert id !in c1.tables;
      if Contents(src).Ok? {
        assert c1.tables[id := Contents(src).value] == c.tables[id := Contents(src).value];
      }
    }
  }

  /** The outcome of a rebuild does not depend on what the target table held
      before. */
  lemma RebuildForgetsTarget(c: Catalog, d: Catalog, id: TableId, src: Source)
    requires c.schemas == d.schemas
    requires c.tables - {id} == d.tables - {id}
    ensures Rebuild(Open, c, id, src) == Rebuild(Open, d, id, src)
  {
    assert Exec(Open, c, DropTableIfExists(id)) == Exec(Open, d, DropTableIfExists(id)) by {
      assert c.(tables := c.tables - {id}) == d.(tables := d.tables - {id});
    }
  }

  /** The database file: its catalog persists across connections; whether
      duckdb.connect can open it is fixed. */
  class Database {
    var catalog: Catalog
    const reachable: bool

    constructor(catalog: Catalog, reachable: bool)
      ensures this.catalog == catalog && this.reachable == reachable
    {
      this.catalog := catalog;
      this.reachable := reachable;
    }
  }

  /** A DuckDB connection to one database. */
  class Connection {
    const db: Database
    var open: bool

    constructor(db: Database)
      ensures this.db == db && open
    {
      this.db := db;
      open := true;
    }

    function SessionOf(): Session
      reads this
    {
      if open then Open else Closed
    }

    /** conn.execute(statement). */
    method Execute(stmt: Statement) returns (o: Outcome<IngestError>)
      modifies db
      ensures var r := Exec(SessionOf(), old(db.catalog), stmt);
        && (r.Ok? ==> o == Pass && db.catalog == r.value)
        && (r.Err? ==> o == Fail(r.error) && db.catalog == old(db.catalog))
    {
      var r := Exec(SessionOf(), db.catalog, stmt);
      if r.Ok? {
        db.catalog := r.value;
        o := Pass;
      } else {
        o := Fail(r.error);
      }
    }

    /** conn.execute("SELECT COUNT(*) FROM id").fetchone()[0]. */
    method CountRows(id: TableId) returns (r: Result<nat, IngestError>)
      ensures r.Ok? <==> open && id in db.catalog.tables
      ensures r.Ok? ==> r.value == RowCount(db.catalog.tables[id])
      ensures r.Err? && !open ==> r.error == ConnectionClosed
      ensures r.Err? && open ==> r.error == MissingTable(id)
    {
      r := Count(SessionOf(), db.catalog, id);
    }

    /** conn.close(): closing an already closed connection is harmless. */
    method Close()
      modifies this
      ensures !open
    {
      open := false;
    }
  }
}
