/** Loading the Olist CSV files into the raw schema (src/ingest/data.py,
    csv_mappings and load_csv_files): the manifest of file/table pairs and
    the specification of the loading loop as a fold over it. */
module Loader {
  import opened Wrappers
  import opened Catalog

  /** One manifest entry: a CSV file name and the raw table it becomes. */
  datatype Entry = Entry(file: string, table: string)

  /** The nine file/table pairs, in the order the loader visits them. */
  const Manifest: seq<Entry> := [
    Entry("olist_customers_dataset.csv", "customers"),
    Entry("olist_geolocation_dataset.csv", "geolocation"),
    Entry("olist_orders_dataset.csv", "orders"),
    Entry("olist_order_items_dataset.csv", "order_items"),
    Entry("olist_order_payments_dataset.csv", "order_payments"),
    Entry("olist_order_reviews_dataset.csv", "order_reviews"),
    Entry("olist_products_dataset.csv", "products"),
    Entry("olist_sellers_dataset.csv", "sellers"),
    Entry("product_category_name_translation.csv", "product_category_translation")]

  function RawId(table: string): TableId {
    TableId("raw", table)
  }

  predicate DistinctFiles(es: seq<Entry>) {
    forall i, j :: 0 <= i < j < |es| ==> es[i].file != es[j].file
  }

  predicate DistinctTables(es: seq<Entry>) {
    forall i, j :: 0 <= i < j < |es| ==> es[i].table != es[j].table
  }

  /** The manifest maps nine distinct files to nine distinct tables. */
  lemma ManifestInjective()
    ensures |Manifest| == 9
    ensures DistinctFiles(Manifest)
    ensures DistinctTables(Manifest)
  {
    forall i, j | 0 <= i < j < |Manifest| ensures Manifest[i].table != Manifest[j].table {
      var a, b := Manifest[i].table, Manifest[j].table;
      assert |a| != |b| || a[0] != b[0];
    }
    forall i, j | 0 <= i < j < |Manifest| ensures Manifest[i].file != Manifest[j].file {
      var a, b := Manifest[i].file, Manifest[j].file;
      assert |a| != |b| || a[12] != b[12];
    }
  }

  /** The directory holds the entry's file, and read_csv_auto fails on it. */
  predicate Fails(dir: map<string, CsvFile>, e: Entry) {
    e.file in dir && dir[e.file].Malformed?
  }

  predicate NoFailure(dir: map<string, CsvFile>, es: seq<Entry>) {
    forall i :: 0 <= i < |es| ==> !Fails(dir, es[i])
  }

  /** One iteration of the loop: a missing file is skipped; a present one is
      dropped, recreated from the CSV file and counted, and its count is
      recorded under the table name. The first error stops here. */
  function LoadEntry(s: Session, dir: map<string, CsvFile>, e: Entry, c: Catalog, counts: map<string, nat>)
    : Step<map<string, nat>>
  {
    if e.file !in dir then Step(c, Ok(counts))
    else
      var id := RawId(e.table);
      var built := Rebuild(s, c, id, Csv(e.file, dir[e.file]));
      if built.result.Err? then Step(built.catalog, Err(built.result.error))
      else
        match Count(s, built.catalog, id)
        case Err(err) => Step(built.catalog, Err(err))
        case Ok(n) => Step(built.catalog, Ok(counts[e.table := n]))
  }

  /** The loop over the entries es, from the catalog c: the final catalog and
      either the map of row counts or the first error. */
  function LoadFrom(es: seq<Entry>, s: Session, dir: map<string, CsvFile>, c: Catalog): Step<map<string, nat>>
  {
    if es == [] then Step(c, Ok(map[]))
    else
      var prev := LoadFrom(es[..|es| - 1], s, dir, c);
      if prev.result.Err? then prev
      else LoadEntry(s, dir, es[|es| - 1], prev.catalog, prev.result.value)
  }

  /** Once an error is raised, later entries are never visited. */
  lemma {:induction false} LoadStops(es: seq<Entry>, k: nat, s: Session, dir: map<string, CsvFile>, c: Catalog)
    requires k <= |es|
    requires LoadFrom(es[..k], s, dir, c).result.Err?
    ensures LoadFrom(es, s, dir, c) == LoadFrom(es[..k], s, dir, c)
    decreases |es|
  {
    if k < |es| {
      assert es[..|es| - 1][..k] == es[..k];
      LoadStops(es[..|es| - 1], k, s, dir, c);
    } else {
      assert es[..k] == es;
    }
  }

  /** One more entry of a load that has not raised so far is one more
      iteration. */
  lemma LoadPrefixStep(es: seq<Entry>, i: nat, s: Session, dir: map<string, CsvFile>, c: Catalog)
    requires i < |es|
    requires LoadFrom(es[..i], s, dir, c).result.Ok?
    ensures var prev := LoadFrom(es[..i], s, dir, c);
      LoadFrom(es[..i + 1], s, dir, c) == LoadEntry(s, dir, es[i], prev.catalog, prev.result.value)
  {
    assert es[..i + 1][..i] == es[..i];
  }

  /** An iteration whose rebuild succeeded counts the rows it just stored. */
  lemma EntryCounted(s: Session, dir: map<string, CsvFile>, e: Entry, c: Catalog, counts: map<string, nat>)
    requires e.file in dir
    requires Rebuild(s, c, RawId(e.table), Csv(e.file, dir[e.file])).result.Ok?
    ensures var built := Rebuild(s, c, RawId(e.table), Csv(e.file, dir[e.file])).catalog;
      && Count(s, built, RawId(e.table)).Ok?
      && Count(s, built, RawId(e.table)).value == dir[e.file].records
      && LoadEntry(s, dir, e, c, counts) == Step(built, Ok(counts[e.table := Count(s, built, RawId(e.table)).value]))
  {
    RebuildReplaces(s, c, RawId(e.table), Csv(e.file, dir[e.file]));
  }

  /** The schemas are never changed by loading. */
  lemma {:induction false} LoadKeepsSchemas(es: seq<Entry>, s: Session, dir: map<string, CsvFile>, c: Catalog)
    ensures LoadFrom(es, s, dir, c).catalog.schemas == c.schemas
    decreases |es|
  {
    if es != [] {
      LoadKeepsSchemas(es[..|es| - 1], s, dir, c);
    }
  }

  /** Without an open connection nothing changes: with no file present the
      loop returns an empty map, otherwise it raises the connection error. */
  lemma {:induction false} LoadNotConnected(es: seq<Entry>, s: Session, dir: map<string, CsvFile>, c: Catalog)
    requires s != Open
    ensures LoadFrom(es, s, dir, c).catalog == c
    ensures (forall i :: 0 <= i < |es| ==> es[i].file !in dir) ==> LoadFrom(es, s, dir, c).result == Ok(map[])
    ensures (exists i :: 0 <= i < |es| && es[i].file in dir) ==> LoadFrom(es, s, dir, c).result == Err(SessionError(s))
    decreases |es|
  {
    if es != [] {
      var init := es[..|es| - 1];
      LoadNotConnected(init, s, dir, c);
      if exists i :: 0 <= i < |es| && es[i].file in dir {
        var i :| 0 <= i < |es| && es[i].file in dir;
        if i < |es| - 1 {
          assert init[i] == es[i];
        }
      } else {
        forall i | 0 <= i < |init| ensures init[i].file !in dir {
          assert init[i] == es[i];
        }
      }
    }
  }

  /** With an open connection, a raw schema and no unreadable file, the loop
      succeeds, and the returned map has exactly the tables whose files are
      present as keys, each with its file's record count. */
  lemma {:induction false} LoadSucceeds(es: seq<Entry>, dir: map<string, CsvFile>, c: Catalog)
    requires "raw" in c.schemas
    requires DistinctTables(es)
    requires NoFailure(dir, es)
    ensures LoadFrom(es, Open, dir, c).result.Ok?
    ensures var m := LoadFrom(es, Open, dir, c).result.value;
      forall t :: t in m <==> exists i :: 0 <= i < |es| && es[i].file in dir && es[i].table == t
    ensures var m := LoadFrom(es, Open, dir, c).result.value;
      forall i :: 0 <= i < |es| && es[i].file in dir ==> m[es[i].table] == dir[es[i].file].records
    decreases |es|
  {
    if es != [] {
      var init := es[..|es| - 1];
      var e := es[|es| - 1];
      assert forall i :: 0 <= i < |init| ==> init[i] == es[i];
      LoadSucceeds(init, dir, c);
      LoadKeepsSchemas(init, Open, dir, c);
      var prev := LoadFrom(init, Open, dir, c);
      if e.file in dir {
        EntryLoaded(dir, e, prev.catalog, prev.result.value);
      }
    }
  }

  /** Under the same conditions every present file's table holds exactly its
      records and every other table is unchanged. */
  lemma {:induction false} LoadStores(es: seq<Entry>, dir: map<string, CsvFile>, c: Catalog)
    requires "raw" in c.schemas
    requires DistinctTables(es)
    requires NoFailure(dir, es)
    ensures var out := LoadFrom(es, Open, dir, c).catalog;
      forall i :: 0 <= i < |es| && es[i].file in dir ==>
        Lookup(out, RawId(es[i].table)) == Some(RawTable(dir[es[i].file].records))
    ensures var out := LoadFrom(es, Open, dir, c).catalog;
      forall id :: (forall i :: 0 <= i < |es| && es[i].file in dir ==> id != RawId(es[i].table)) ==>
        Lookup(out, id) == Lookup(c, id)
    decreases |es|
  {
    if es != [] {
      var init := es[..|es| - 1];
      var e := es[|es| - 1];
      assert forall i :: 0 <= i < |init| ==> init[i] == es[i];
      LoadSucceeds(init, dir, c);
      LoadStores(init, dir, c);
      LoadKeepsSchemas(init, Open, dir, c);
      var prev := LoadFrom(init, Open, dir, c);
      if e.file in dir {
        var id := RawId(e.table);
        EntryLoaded(dir, e, prev.catalog, prev.result.value);
        forall i | 0 <= i < |init| && init[i].file in dir
          ensures RawId(init[i].table) != id
        {
          assert init[i].table == es[i].table != es[|es| - 1].table;
        }
      }
    }
  }

  /** An iteration on a readable present file with the raw schema in place
      stores the file's records under its table and records their number. */
  lemma EntryLoaded(dir: map<string, CsvFile>, e: Entry, c: Catalog, counts: map<string, nat>)
    requires "raw" in c.schemas
    requires e.file in dir && !Fails(dir, e)
    ensures LoadEntry(Open, dir, e, c, counts) ==
      Step(c.(tables := c.tables[RawId(e.table) := RawTable(dir[e.file].records)]),
           Ok(counts[e.table := dir[e.file].records]))
  {
    RebuildReplaces(Open, c, RawId(e.table), Csv(e.file, dir[e.file]));
    EntryCounted(Open, dir, e, c, counts);
  }

  /** The first unreadable file aborts the loop with its error: the entries
      before it have been loaded as LoadStores describes, its own table has
      been dropped, and the entries after it are untouched. */
  lemma LoadFailsAtFirst(es: seq<Entry>, k: nat, dir: map<string, CsvFile>, c: Catalog)
    requires "raw" in c.schemas
    requires DistinctTables(es)
    requires k < |es|
    requires NoFailure(dir, es[..k])
    requires Fails(dir, es[k])
    ensures LoadFrom(es, Open, dir, c).result == Err(LoadFailed(es[k].file))
    ensures var before := LoadFrom(es[..k], Open, dir, c).catalog;
      LoadFrom(es, Open, dir, c).catalog == before.(tables := before.tables - {RawId(es[k].table)})
  {
    var init := es[..k];
    var prefix := es[..k + 1];
    assert prefix[..k] == init;
    assert prefix[k] == es[k];
    assert DistinctTables(init) by {
      assert forall i :: 0 <= i < |init| ==> init[i] == es[i];
    }
    LoadSucceeds(init, dir, c);
    LoadKeepsSchemas(init, Open, dir, c);
    LoadStops(es, k + 1, Open, dir, c);
  }

  /** No present entry of es loads into the table id. */
  predicate Untouched(es: seq<Entry>, dir: map<string, CsvFile>, id: TableId) {
    forall i :: 0 <= i < |es| && es[i].file in dir ==> RawId(es[i].table) != id
  }

  /** One iteration does not look at what its own table held before. */
  lemma LoadEntryForgetsTarget(s: Session, dir: map<string, CsvFile>, e: Entry, c: Catalog, d: Catalog, counts: map<string, nat>)
    requires s == Open
    requires e.file in dir
    requires c.schemas == d.schemas
    requires c.tables - {RawId(e.table)} == d.tables - {RawId(e.table)}
    ensures LoadEntry(s, dir, e, c, counts) == LoadEntry(s, dir, e, d, counts)
  {
    var id := RawId(e.table);
    assert Exec(s, c, DropTableIfExists(id)) == Exec(s, d, DropTableIfExists(id)) by {
      assert c.(tables := c.tables - {id}) == d.(tables := d.tables - {id});
    }
  }

  /** Two catalogs that differ only in a table no present entry loads give
      the same outcome, still differ only in that table, and that table is
      left as it was. */
  lemma {:induction false} LoadAgrees(es: seq<Entry>, s: Session, dir: map<string, CsvFile>, c: Catalog, d: Catalog, id: TableId)
    requires c.schemas == d.schemas
    requires c.tables - {id} == d.tables - {id}
    requires Untouched(es, dir, id)
    ensures LoadFrom(es, s, dir, c).result == LoadFrom(es, s, dir, d).result
    ensures LoadFrom(es, s, dir, c).catalog.schemas == LoadFrom(es, s, dir, d).catalog.schemas
    ensures LoadFrom(es, s, dir, c).catalog.tables - {id} == LoadFrom(es, s, dir, d).catalog.tables - {id}
    ensures Lookup(LoadFrom(es, s, dir, d).catalog, id) == Lookup(d, id)
    decreases |es|
  {
    if es != [] {
      var init := es[..|es| - 1];
      var e := es[|es| - 1];
      assert Untouched(init, dir, id) by {
        assert forall i :: 0 <= i < |init| ==> init[i] == es[i];
      }
      LoadAgrees(init, s, dir, c, d, id);
      var p, q := LoadFrom(init, s, dir, c), LoadFrom(init, s, dir, d);
      if p.result.Ok? {
        EntryAgrees(s, dir, e, p.catalog, q.catalog, p.result.value, id);
      }
    }
  }

  /** One iteration on two catalogs that differ at most in a table it does
      not touch gives the same result, and catalogs that still differ at most
      there. */
  lemma EntryAgrees(s: Session, dir: map<string, CsvFile>, e: Entry, c: Catalog, d: Catalog, counts: map<string, nat>, id: TableId)
    requires c.schemas == d.schemas
    requires c.tables - {id} == d.tables - {id}
    requires e.file in dir ==> RawId(e.table) != id
    ensures LoadEntry(s, dir, e, c, counts).result == LoadEntry(s, dir, e, d, counts).result
    ensures LoadEntry(s, dir, e, c, counts).catalog.schemas == LoadEntry(s, dir, e, d, counts).catalog.schemas
    ensures LoadEntry(s, dir, e, c, counts).catalog.tables - {id} == LoadEntry(s, dir, e, d, counts).catalog.tables - {id}
    ensures Lookup(LoadEntry(s, dir, e, d, counts).catalog, id) == Lookup(d, id)
  {
    if e.file in dir {
      var ide := RawId(e.table);
      var src := Csv(e.file, dir[e.file]);
      RebuildReplaces(s, c, ide, src);
      RebuildReplaces(s, d, ide, src);
      if s == Open {
        var p, q := Rebuild(s, c, ide, src).catalog, Rebuild(s, d, ide, src).catalog;
        if Rebuild(s, c, ide, src).result.Ok? {
          var t := Contents(src).value;
          assert p.tables - {id} == (c.tables - {id})[ide := t];
          assert q.tables - {id} == (d.tables - {id})[ide := t];
        } else {
          assert p.tables - {id} == (c.tables - {id}) - {ide};
          assert q.tables - {id} == (d.tables - {id}) - {ide};
        }
      }
    }
  }


  /** Loading twice from the same directory leaves the catalog and the
      returned counts (or error) exactly as loading once: every present file
      replaces its table, and nothing is appended. */
  lemma {:induction false} LoadIdempotent(es: seq<Entry>, s: Session, dir: map<string, CsvFile>, c: Catalog)
    requires DistinctTables(es)
    ensures LoadFrom(es, s, dir, LoadFrom(es, s, dir, c).catalog) == LoadFrom(es, s, dir, c)
    decreases |es|
  {
    if s != Open {
      LoadNotConnected(es, s, dir, c);
    } else if es != [] {
      var init := es[..|es| - 1];
      var e := es[|es| - 1];
      assert DistinctTables(init) by {
        assert forall i :: 0 <= i < |init| ==> init[i] == es[i];
      }
      LoadIdempotent(init, s, dir, c);
      var a := LoadFrom(init, s, dir, c);
      var b := LoadFrom(es, s, dir, c);
      if a.result.Ok? && e.file in dir {
        var id := RawId(e.table);
        LoadKeepsSchemas(init, s, dir, c);
        LoadKeepsSchemas(es, s, dir, c);
        assert b.catalog.tables - {id} == a.catalog.tables - {id} by {
          forall t | t != id ensures Lookup(b.catalog, t) == Lookup(a.catalog, t) {
          }
        }
        assert Untouched(init, dir, id) by {
          forall i | 0 <= i < |init| && init[i].file in dir ensures RawId(init[i].table) != id {
            assert init[i].table == es[i].table != es[|es| - 1].table;
          }
        }
        LoadAgrees(init, s, dir, a.catalog, b.catalog, id);
        var x := LoadFrom(init, s, dir, b.catalog);
        LoadEntryForgetsTarget(s, dir, e, x.catalog, a.catalog, a.result.value);
      }
    }
  }

  /** If some entry fails, there is a first one. */
  lemma {:induction false} FirstFailure(dir: map<string, CsvFile>, es: seq<Entry>)
    requires !NoFailure(dir, es)
    ensures exists k :: 0 <= k < |es| && NoFailure(dir, es[..k]) && Fails(dir, es[k])
    decreases |es|
  {
    var init := es[..|es| - 1];
    if NoFailure(dir, init) {
      var k := |es| - 1;
      assert es[..k] == init;
      assert Fails(dir, es[k]);
    } else {
      assert forall i :: 0 <= i < |init| ==> init[i] == es[i];
      FirstFailure(dir, init);
      var k :| 0 <= k < |init| && NoFailure(dir, init[..k]) && Fails(dir, init[k]);
      assert init[..k] == es[..k];
    }
  }

  /** A catalog that loading leaves as it is stays so when a table no present
      entry loads is replaced beforehand. */
  lemma LoadFixpointUpdate(es: seq<Entry>, s: Session, dir: map<string, CsvFile>, c: Catalog, id: TableId, t: Table)
    requires LoadFrom(es, s, dir, c).catalog == c
    requires Untouched(es, dir, id)
    ensures var d := c.(tables := c.tables[id := t]);
      LoadFrom(es, s, dir, d) == Step(d, LoadFrom(es, s, dir, c).result)
  {
    var d := c.(tables := c.tables[id := t]);
    assert c.tables - {id} == d.tables - {id};
    LoadAgrees(es, s, dir, c, d, id);
    var out := LoadFrom(es, s, dir, d).catalog;
    assert out.tables - {id} == d.tables - {id};
    forall k ensures (k in out.tables <==> k in d.tables) && (k in out.tables ==> out.tables[k] == d.tables[k]) {
      if k != id {
        assert k in out.tables <==> k in out.tables - {id};
        assert k in d.tables <==> k in d.tables - {id};
        if k in out.tables {
          assert out.tables[k] == (out.tables - {id})[k];
          assert d.tables[k] == (d.tables - {id})[k];
        }
      } else {
        assert Lookup(out, id) == Lookup(d, id);
      }
    }
    assert out.tables == d.tables;
  }
}
