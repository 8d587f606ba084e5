/** The ingester object and its pipeline (src/ingest/data.py, class
    OlistDataIngester): each step as a function from the catalog to the
    catalog and a result, the class whose methods perform the steps on the
    database through its connection, and what a full run promises. */
module Ingest {
  import opened Wrappers
  import opened CalendarDimension
  import opened BrazilianStates
  import opened Catalog
  import opened Loader

  const CalendarId := TableId("dimensions", "calendar")
  const StatesId := TableId("dimensions", "brazilian_states")

  /** The default year range of the calendar dimension. */
  const DefaultStartYear := 2016
  const DefaultEndYear := 2025

  /** create_schema: CREATE SCHEMA IF NOT EXISTS raw, then dimensions. */
  function CreateSchemaSpec(s: Session, c: Catalog): Step<()> {
    match Exec(s, c, CreateSchemaIfNotExists("raw"))
    case Err(e) => Step(c, Err(e))
    case Ok(c1) =>
      match Exec(s, c1, CreateSchemaIfNotExists("dimensions"))
      case Err(e) => Step(c1, Err(e))
      case Ok(c2) => Step(c2, Ok(()))
  }

  /** create_calendar_dimension: the frame is built before the database is
      touched, so an unrepresentable range raises first; then the table is
      rebuilt and the frame's length returned. */
  function CalendarSpec(s: Session, c: Catalog, startYear: int, endYear: int): Step<nat> {
    match Calendar(startYear, endYear)
    case None => Step(c, Err(OutOfBoundsDatetime))
    case Some(rows) =>
      var built := Rebuild(s, c, CalendarId, Frame(CalendarTable(rows)));
      if built.result.Err? then Step(built.catalog, Err(built.result.error))
      else Step(built.catalog, Ok(|rows|))
  }

  /** create_country_dimension: the same shape, over the states frame. */
  function StatesSpec(s: Session, c: Catalog): Step<nat> {
    match StatesFrame()
    case None => Step(c, Err(ColumnLengthMismatch))
    case Some(rows) =>
      var built := Rebuild(s, c, StatesId, Frame(StatesTable(rows)));
      if built.result.Err? then Step(built.catalog, Err(built.result.error))
      else Step(built.catalog, Ok(|rows|))
  }

  /** run_full_ingestion: connect, create the schemas, load the CSV files,
      build the calendar and the states tables, stopping at the first
      exception, which is raised again. The connection is closed afterwards
      in every case, which does not change the catalog. */
  function RunSpec(reachable: bool, dir: map<string, CsvFile>, c: Catalog): Step<()> {
    if !reachable then Step(c, Err(ConnectionFailed))
    else
      var sc := CreateSchemaSpec(Open, c);
      if sc.result.Err? then sc
      else
        var ld := LoadFrom(Manifest, Open, dir, sc.catalog);
        if ld.result.Err? then Step(ld.catalog, Err(ld.result.error))
        else
          var cal := CalendarSpec(Open, ld.catalog, DefaultStartYear, DefaultEndYear);
          if cal.result.Err? then Step(cal.catalog, Err(cal.result.error))
          else
            var st := StatesSpec(Open, cal.catalog);
            if st.result.Err? then Step(st.catalog, Err(st.result.error))
            else Step(st.catalog, Ok(()))
  }

  /** Creating the schemas succeeds exactly on an open connection, adds the
      two schemas and nothing else, and doing it twice is doing it once. */
  lemma CreateSchemaIdempotent(s: Session, c: Catalog)
    ensures CreateSchemaSpec(s, c).result.Ok? <==> s == Open
    ensures s == Open ==> CreateSchemaSpec(s, c).catalog == c.(schemas := c.schemas + {"raw", "dimensions"})
    ensures s != Open ==> CreateSchemaSpec(s, c) == Step(c, Err(SessionError(s)))
    ensures CreateSchemaSpec(s, CreateSchemaSpec(s, c).catalog) == CreateSchemaSpec(s, c)
  {
    if s == Open {
      var c2 := c.(schemas := c.schemas + {"raw", "dimensions"});
      assert c2.schemas + {"raw"} + {"dimensions"} == c2.schemas;
      assert c.schemas + {"raw"} + {"dimensions"} == c2.schemas;
    }
  }

  /** The calendar step on an open connection with the dimensions schema:
      it stores the calendar frame for the requested years and returns its
      length, or raises before touching the database when pandas cannot
      represent the range. */
  lemma CalendarStepFacts(c: Catalog, startYear: int, endYear: int)
    requires "dimensions" in c.schemas
    ensures Calendar(startYear, endYear).None? ==>
      CalendarSpec(Open, c, startYear, endYear) == Step(c, Err(OutOfBoundsDatetime))
    ensures Calendar(startYear, endYear).Some? ==>
      var rows := Calendar(startYear, endYear).value;
      CalendarSpec(Open, c, startYear, endYear) == Step(c.(tables := c.tables[CalendarId := CalendarTable(rows)]), Ok(|rows|))
  {
    if Calendar(startYear, endYear).Some? {
      RebuildReplaces(Open, c, CalendarId, Frame(CalendarTable(Calendar(startYear, endYear).value)));
    }
  }

  /** The states step on an open connection with the dimensions schema never
      fails: it stores the 27-row frame and returns 27. */
  lemma StatesStepFacts(c: Catalog)
    requires "dimensions" in c.schemas
    ensures StatesFrame().Some? && |StatesFrame().value| == 27
    ensures StatesSpec(Open, c) == Step(c.(tables := c.tables[StatesId := StatesTable(StatesFrame().value)]), Ok(27))
  {
    StatesFrameInvariants();
    RebuildReplaces(Open, c, StatesId, Frame(StatesTable(StatesFrame().value)));
  }

  /** A run that connects always ends with both schemas in place, whatever
      happens after create_schema. */
  lemma RunSchemas(dir: map<string, CsvFile>, c: Catalog)
    ensures RunSpec(true, dir, c).catalog.schemas == c.schemas + {"raw", "dimensions"}
  {
    CreateSchemaIdempotent(Open, c);
    var sc := CreateSchemaSpec(Open, c);
    LoadKeepsSchemas(Manifest, Open, dir, sc.catalog);
    var ld := LoadFrom(Manifest, Open, dir, sc.catalog);
    if ld.result.Ok? {
      DefaultCalendarRowCount();
      CalendarStepFacts(ld.catalog, DefaultStartYear, DefaultEndYear);
      StatesStepFacts(CalendarSpec(Open, ld.catalog, DefaultStartYear, DefaultEndYear).catalog);
    }
  }

  /** A run fails exactly when the database cannot be opened or some manifest
      file is present but unreadable; in the second case the error is the
      one for the first such file in manifest order. */
  lemma RunOutcome(reachable: bool, dir: map<string, CsvFile>, c: Catalog)
    ensures !reachable ==> RunSpec(reachable, dir, c) == Step(c, Err(ConnectionFailed))
    ensures RunSpec(reachable, dir, c).result.Ok? <==> reachable && NoFailure(dir, Manifest)
    ensures reachable ==> forall k :: 0 <= k < |Manifest| && NoFailure(dir, Manifest[..k]) && Fails(dir, Manifest[k]) ==>
      RunSpec(reachable, dir, c).result == Err(LoadFailed(Manifest[k].file))
  {
    if reachable {
      ManifestInjective();
      var sc := c.(schemas := c.schemas + {"raw", "dimensions"});
      RunStages(dir, c);
      if NoFailure(dir, Manifest) {
        LoadSucceeds(Manifest, dir, sc);
      } else {
        FirstFailure(dir, Manifest);
        forall k | 0 <= k < |Manifest| && NoFailure(dir, Manifest[..k]) && Fails(dir, Manifest[k])
          ensures RunSpec(reachable, dir, c).result == Err(LoadFailed(Manifest[k].file))
        {
          LoadFailsAtFirst(Manifest, k, dir, sc);
        }
      }
    }
  }

  /** The stages of a run that connects: the schemas are added, the CSV
      files are loaded, and unless loading raised, the two dimension tables
      are stored on top of the loaded catalog. */
  lemma RunStages(dir: map<string, CsvFile>, c: Catalog)
    ensures Calendar(DefaultStartYear, DefaultEndYear).Some?
    ensures StatesFrame().Some?
    ensures var ld := LoadFrom(Manifest, Open, dir, c.(schemas := c.schemas + {"raw", "dimensions"}));
      ld.result.Err? ==> RunSpec(true, dir, c) == Step(ld.catalog, Err(ld.result.error))
    ensures var ld := LoadFrom(Manifest, Open, dir, c.(schemas := c.schemas + {"raw", "dimensions"}));
      ld.result.Ok? ==>
        RunSpec(true, dir, c) == Step(ld.catalog.(tables := ld.catalog.tables
          [CalendarId := CalendarTable(Calendar(DefaultStartYear, DefaultEndYear).value)]
          [StatesId := StatesTable(StatesFrame().value)]), Ok(()))
  {
    CreateSchemaIdempotent(Open, c);
    var sc := CreateSchemaSpec(Open, c);
    LoadKeepsSchemas(Manifest, Open, dir, sc.catalog);
    var ld := LoadFrom(Manifest, Open, dir, sc.catalog);
    DefaultCalendarRowCount();
    StatesFrameInvariants();
    if ld.result.Ok? {
      CalendarStepFacts(ld.catalog, DefaultStartYear, DefaultEndYear);
      StatesStepFacts(CalendarSpec(Open, ld.catalog, DefaultStartYear, DefaultEndYear).catalog);
    }
  }

  /** The catalog a successful run leaves: the two dimension tables stored on
      top of the catalog the loader leaves, which loaded every manifest file
      present into the raw schema. */
  lemma RunCatalog(dir: map<string, CsvFile>, c: Catalog)
    requires NoFailure(dir, Manifest)
    ensures var sc := c.(schemas := c.schemas + {"raw", "dimensions"});
      var ld := LoadFrom(Manifest, Open, dir, sc);
      && ld.result.Ok?
      && RunSpec(true, dir, c).catalog == ld.catalog.(tables := ld.catalog.tables
           [CalendarId := CalendarTable(Calendar(DefaultStartYear, DefaultEndYear).value)]
           [StatesId := StatesTable(StatesFrame().value)])
  {
    ManifestInjective();
    var sc := c.(schemas := c.schemas + {"raw", "dimensions"});
    LoadSucceeds(Manifest, dir, sc);
    RunStages(dir, c);
  }

  /** After a successful run both schemas exist, the calendar table holds the
      3653 days of 2016-2025 and the states table holds the 27 states. */
  lemma RunDimensions(dir: map<string, CsvFile>, c: Catalog)
    requires NoFailure(dir, Manifest)
    ensures RunSpec(true, dir, c).catalog.schemas == c.schemas + {"raw", "dimensions"}
    ensures Calendar(DefaultStartYear, DefaultEndYear).Some?
    ensures |Calendar(DefaultStartYear, DefaultEndYear).value| == 3653
    ensures Lookup(RunSpec(true, dir, c).catalog, CalendarId) ==
      Some(CalendarTable(Calendar(DefaultStartYear, DefaultEndYear).value))
    ensures StatesFrame().Some? && |StatesFrame().value| == 27
    ensures Lookup(RunSpec(true, dir, c).catalog, StatesId) == Some(StatesTable(StatesFrame().value))
  {
    RunSchemas(dir, c);
    RunCatalog(dir, c);
    DefaultCalendarRowCount();
    StatesFrameInvariants();
  }

  /** After a successful run every present manifest file's table holds
      exactly that file's records. */
  lemma RunRawTables(dir: map<string, CsvFile>, c: Catalog)
    requires NoFailure(dir, Manifest)
    ensures forall i :: 0 <= i < |Manifest| && Manifest[i].file in dir ==>
      Lookup(RunSpec(true, dir, c).catalog, RawId(Manifest[i].table)) == Some(RawTable(dir[Manifest[i].file].records))
  {
    ManifestInjective();
    var sc := c.(schemas := c.schemas + {"raw", "dimensions"});
    LoadStores(Manifest, dir, sc);
    RunCatalog(dir, c);
    var ld := LoadFrom(Manifest, Open, dir, sc).catalog;
    var out := RunSpec(true, dir, c).catalog;
    forall i | 0 <= i < |Manifest| && Manifest[i].file in dir
      ensures Lookup(out, RawId(Manifest[i].table)) == Some(RawTable(dir[Manifest[i].file].records))
    {
      assert RawId(Manifest[i].table) != CalendarId && RawId(Manifest[i].table) != StatesId;
      assert Lookup(out, RawId(Manifest[i].table)) == Lookup(ld, RawId(Manifest[i].table));
    }
  }

  /** After a successful run every table that is neither a dimension table
      nor the target of a present manifest file is as before. */
  lemma RunUntouched(dir: map<string, CsvFile>, c: Catalog)
    requires NoFailure(dir, Manifest)
    ensures forall id :: id != CalendarId && id != StatesId && Untouched(Manifest, dir, id) ==>
      Lookup(RunSpec(true, dir, c).catalog, id) == Lookup(c, id)
  {
    ManifestInjective();
    var sc := c.(schemas := c.schemas + {"raw", "dimensions"});
    LoadStores(Manifest, dir, sc);
    RunCatalog(dir, c);
    var ld := LoadFrom(Manifest, Open, dir, sc).catalog;
    var out := RunSpec(true, dir, c).catalog;
    forall id | id != CalendarId && id != StatesId && Untouched(Manifest, dir, id)
      ensures Lookup(out, id) == Lookup(c, id)
    {
      assert Lookup(out, id) == Lookup(ld, id);
      assert Lookup(sc, id) == Lookup(c, id);
    }
  }

  /** A successful run leaves no table outside a schema. */
  lemma RunKeepsValid(dir: map<string, CsvFile>, c: Catalog)
    requires NoFailure(dir, Manifest)
    requires Valid(c)
    ensures Valid(RunSpec(true, dir, c).catalog)
  {
    RunSchemas(dir, c);
    RunUntouched(dir, c);
    RunCatalog(dir, c);
    var out := RunSpec(true, dir, c).catalog;
    forall id | id in out.tables
      ensures id.schema in out.schemas
    {
      if id != CalendarId && id != StatesId && Untouched(Manifest, dir, id) {
        assert Lookup(out, id) == Lookup(c, id);
      }
    }
  }

  /** Running the whole ingestion twice on the same inputs leaves the same
      catalog and the same outcome as running it once. */
  lemma RunIdempotent(reachable: bool, dir: map<string, CsvFile>, c: Catalog)
    ensures RunSpec(reachable, dir, RunSpec(reachable, dir, c).catalog) == RunSpec(reachable, dir, c)
  {
    if reachable {
      var sc := c.(schemas := c.schemas + {"raw", "dimensions"});
      if LoadFrom(Manifest, Open, dir, sc).result.Ok? {
        RerunAfterLoad(dir, c);
      } else {
        RerunAfterFailedLoad(dir, c);
      }
    }
  }

  /** A run whose loader raised, run again, raises the same error and leaves
      the same catalog. */
  lemma RerunAfterFailedLoad(dir: map<string, CsvFile>, c: Catalog)
    requires LoadFrom(Manifest, Open, dir, c.(schemas := c.schemas + {"raw", "dimensions"})).result.Err?
    ensures RunSpec(true, dir, RunSpec(true, dir, c).catalog) == RunSpec(true, dir, c)
  {
    var c1 := RunSpec(true, dir, c).catalog;
    RunSchemas(dir, c);
    var sc := c.(schemas := c.schemas + {"raw", "dimensions"});
    assert c1.(schemas := c1.schemas + {"raw", "dimensions"}) == c1;
    ManifestInjective();
    LoadIdempotent(Manifest, Open, dir, sc);
    RunStages(dir, c);
    RunStages(dir, c1);
  }

  /** A run whose loader succeeded, run again, reloads the same files and
      rebuilds the same dimension tables: nothing changes. */
  lemma RerunAfterLoad(dir: map<string, CsvFile>, c: Catalog)
    requires LoadFrom(Manifest, Open, dir, c.(schemas := c.schemas + {"raw", "dimensions"})).result.Ok?
    ensures RunSpec(true, dir, RunSpec(true, dir, c).catalog) == RunSpec(true, dir, c)
  {
    var sc := c.(schemas := c.schemas + {"raw", "dimensions"});
    var ld := LoadFrom(Manifest, Open, dir, sc);
    var c1 := RunSpec(true, dir, c).catalog;
    RunSchemas(dir, c);
    assert c1.(schemas := c1.schemas + {"raw", "dimensions"}) == c1;
    ManifestInjective();
    LoadIdempotent(Manifest, Open, dir, sc);
    RunStages(dir, c);
    DimensionsSurviveReload(dir, ld.catalog, ld.result);
    RunStages(dir, c1);
  }

  /** A catalog that loading leaves unchanged is still left unchanged, with
      the same counts, once the two dimension tables are stored in it: the
      manifest never names a dimension table. */
  lemma DimensionsSurviveReload(dir: map<string, CsvFile>, ldc: Catalog, r: Result<map<string, nat>, IngestError>)
    requires LoadFrom(Manifest, Open, dir, ldc) == Step(ldc, r)
    ensures var mid := ldc.(tables := ldc.tables
        [CalendarId := CalendarTable(Calendar(DefaultStartYear, DefaultEndYear).value)]);
      var d := mid.(tables := mid.tables[StatesId := StatesTable(StatesFrame().value)]);
      LoadFrom(Manifest, Open, dir, d) == Step(d, r)
  {
    var ct := CalendarTable(Calendar(DefaultStartYear, DefaultEndYear).value);
    var st := StatesTable(StatesFrame().value);
    var mid := ldc.(tables := ldc.tables[CalendarId := ct]);
    assert Untouched(Manifest, dir, CalendarId);
    assert Untouched(Manifest, dir, StatesId);
    LoadFixpointUpdate(Manifest, Open, dir, ldc, CalendarId, ct);
    LoadFixpointUpdate(Manifest, Open, dir, mid, StatesId, st);
  }

  /** The ingester: the database file it writes, the CSV files of its data
      directory, and its connection attribute, None until connect runs. */
  class OlistDataIngester {
    const db: Database
    const dataDir: map<string, CsvFile>
    var conn: Connection?

    /** Any connection the ingester holds is to its own database. */
    ghost predicate Valid()
      reads this, conn
    {
      conn != null ==> conn.db == db
    }

    function CurrentSession(): Session
      reads this, conn
    {
      if conn == null then NoConnection else conn.SessionOf()
    }

    constructor(db: Database, dataDir: map<string, CsvFile>)
      ensures this.db == db && this.dataDir == dataDir && conn == null
      ensures Valid()
    {
      this.db := db;
      this.dataDir := dataDir;
      conn := null;
    }

    /** connect: a fresh open connection replaces the attribute; when the
        database cannot be opened the attribute keeps its old value. */
    method Connect() returns (r: Result<(), IngestError>)
      requires Valid()
      modifies this
      ensures Valid()
      ensures db.reachable ==> r.Ok? && conn != null && fresh(conn) && CurrentSession() == Open
      ensures !db.reachable ==> r == Err(ConnectionFailed) && conn == old(conn)
    {
      if db.reachable {
        conn := new Connection(db);
        r := Ok(());
      } else {
        r := Err(ConnectionFailed);
      }
    }

    /** close: closes the connection when there is one; the attribute is not
        reset to None. */
    method Close()
      modifies conn
      ensures conn != null ==> CurrentSession() == Closed
    {
      if conn != null {
        conn.Close();
      }
    }

    /** self.conn.execute(stmt): None has no execute method. */
    method Execute(stmt: Statement) returns (o: Outcome<IngestError>)
      requires Valid()
      modifies db
      ensures var r := Exec(CurrentSession(), old(db.catalog), stmt);
        && (r.Ok? ==> o == Pass && db.catalog == r.value)
        && (r.Err? ==> o == Fail(r.error) && db.catalog == old(db.catalog))
    {
      if conn == null {
        o := Fail(NotConnected);
      } else {
        o := conn.Execute(stmt);
      }
    }

    /** DROP TABLE IF EXISTS id, then CREATE TABLE id AS SELECT * FROM src. */
    method RebuildTable(id: TableId, src: Source) returns (r: Result<(), IngestError>)
      requires Valid()
      modifies db
      ensures Step(db.catalog, r) == Rebuild(CurrentSession(), old(db.catalog), id, src)
    {
      var o := Execute(DropTableIfExists(id));
      if o.Fail? {
        return Err(o.error);
      }
      o := Execute(CreateTableAs(id, src));
      if o.Fail? {
        return Err(o.error);
      }
      r := Ok(());
    }

    /** SELECT COUNT(*) FROM id. */
    method CountRows(id: TableId) returns (r: Result<nat, IngestError>)
      requires Valid()
      ensures r == Count(CurrentSession(), db.catalog, id)
    {
      if conn == null {
        r := Err(NotConnected);
      } else {
        r := conn.CountRows(id);
      }
    }

    /** create_schema. */
    method CreateSchema() returns (r: Result<(), IngestError>)
      requires Valid()
      modifies db
      ensures Step(db.catalog, r) == CreateSchemaSpec(CurrentSession(), old(db.catalog))
    {
      var o := Execute(CreateSchemaIfNotExists("raw"));
      if o.Fail? {
        return Err(o.error);
      }
      // The first statement succeeded, so the session is open and the second
      // one cannot fail.
      o := Execute(CreateSchemaIfNotExists("dimensions"));
      r := Ok(());
    }

    /** load_csv_files: the loop over the manifest, skipping absent files,
        rebuilding and counting each present one, and stopping at the first
        error. */
    method LoadCsvFiles() returns (r: Result<map<string, nat>, IngestError>)
      requires Valid()
      modifies db
      ensures Step(db.catalog, r) == LoadFrom(Manifest, CurrentSession(), dataDir, old(db.catalog))
    {
      var counts: map<string, nat> := map[];
      var i := 0;
      while i < |Manifest|
        invariant 0 <= i <= |Manifest|
        invariant LoadFrom(Manifest[..i], CurrentSession(), dataDir, old(db.catalog)) == Step(db.catalog, Ok(counts))
      {
        var e := Manifest[i];
        LoadPrefixStep(Manifest, i, CurrentSession(), dataDir, old(db.catalog));
        if e.file in dataDir {
          var id := RawId(e.table);
          ghost var before := db.catalog;
          var built := RebuildTable(id, Csv(e.file, dataDir[e.file]));
          if built.Err? {
            LoadStops(Manifest, i + 1, CurrentSession(), dataDir, old(db.catalog));
            return Err(built.error);
          }
          EntryCounted(CurrentSession(), dataDir, e, before, counts);
          var n := CountRows(id);
          counts := counts[e.table := n.value];
        }
        i := i + 1;
      }
      assert Manifest[..i] == Manifest;
      r := Ok(counts);
    }

    /** create_calendar_dimension(startYear, endYear). */
    method CreateCalendarDimension(startYear: int, endYear: int) returns (r: Result<nat, IngestError>)
      requires Valid()
      modifies db
      ensures Step(db.catalog, r) == CalendarSpec(CurrentSession(), old(db.catalog), startYear, endYear)
    {
      var frame := Calendar(startYear, endYear);
      if frame.None? {
        return Err(OutOfBoundsDatetime);
      }
      var built := RebuildTable(CalendarId, Frame(CalendarTable(frame.value)));
      if built.Err? {
        return Err(built.error);
      }
      r := Ok(|frame.value|);
    }

    /** create_country_dimension. */
    method CreateCountryDimension() returns (r: Result<nat, IngestError>)
      requires Valid()
      modifies db
      ensures Step(db.catalog, r) == StatesSpec(CurrentSession(), old(db.catalog))
    {
      // The four columns have equal lengths, so the frame is always built.
      StatesFrameInvariants();
      var rows := StatesFrame().value;
      var built := RebuildTable(StatesId, Frame(StatesTable(rows)));
      if built.Err? {
        return Err(built.error);
      }
      r := Ok(|rows|);
    }

    /** The body of the try block of run_full_ingestion. */
    method RunSteps() returns (r: Result<(), IngestError>)
      requires Valid()
      modifies this, db
      ensures Valid()
      ensures Step(db.catalog, r) == RunSpec(db.reachable, dataDir, old(db.catalog))
      ensures db.reachable ==> conn != null && fresh(conn)
      ensures !db.reachable ==> conn == old(conn)
    {
      var connected := Connect();
      if connected.Err? {
        return Err(connected.error);
      }
      // The connection was just opened, so creating the schemas cannot fail.
      ghost var start := db.catalog;
      var schemas := CreateSchema();
      CreateSchemaIdempotent(Open, start);
      ghost var withSchemas := db.catalog;
      var loaded := LoadCsvFiles();
      if loaded.Err? {
        return Err(loaded.error);
      }
      // Both schemas exist and the default years are within the range of
      // pandas timestamps, so the two dimension tables are always built.
      LoadKeepsSchemas(Manifest, Open, dataDir, withSchemas);
      DefaultCalendarRowCount();
      CalendarStepFacts(db.catalog, DefaultStartYear, DefaultEndYear);
      var days := CreateCalendarDimension(DefaultStartYear, DefaultEndYear);
      StatesStepFacts(db.catalog);
      var states := CreateCountryDimension();
      r := Ok(());
    }

    /** run_full_ingestion: the steps in order, any exception raised again,
        and close in the finally clause. */
    method RunFullIngestion() returns (r: Result<(), IngestError>)
      requires Valid()
      modifies this, db, conn
      ensures Valid()
      ensures Step(db.catalog, r) == RunSpec(db.reachable, dataDir, old(db.catalog))
      ensures conn != null ==> CurrentSession() == Closed
      ensures db.reachable ==> fresh(conn)
      ensures !db.reachable ==> conn == old(conn)
    {
      r := RunSteps();
      Close();
    }
  }
}
