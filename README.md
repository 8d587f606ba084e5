# Olist data ingester, modelled in Dafny

This project models the ingestion step of an analytics pipeline for the Olist
Brazilian e-commerce dataset (`src/ingest/data.py`, class `OlistDataIngester`).
The ingester does four things:

- it opens a DuckDB database file;
- it creates the `raw` and `dimensions` schemas;
- it loads nine CSV files into `raw.<table>`, dropping and recreating each table;
- it builds two dimension tables: a calendar with one row per day, and the 27
  Brazilian federative units with their macro-regions.

It closes the connection whatever happens.

The model has six modules:

- `Gregorian` (gregorian.dfy): proleptic Gregorian dates. It covers leap
  years, month lengths, day numbers, the next day, the weekday (Monday = 1)
  and the ISO 8601 week date. The ISO week is computed the way Python's
  `isocalendar` does, and is proved equal to the week-date rule of section 4.1.4 of
  ISO 8601:2004 (week 1 is the week containing the year's first Thursday).
- `CalendarDimension` (calendar.dfy):
  - the 17 attributes of a calendar row;
  - the list of days between two dates;
  - the calendar table for a range of years.
- `BrazilianStates` (states.dfy): the four parallel columns of the states
  table, and the frame built from them.
- `Catalog` (catalog.dfy): the database as an abstract catalog, i.e. a set
  of schemas plus a map from `schema.table` to table contents. It defines the
  statements the ingester issues, their errors, and the `Database` and
  `Connection` classes.
- `Loader` (loader.dfy):
  - the nine-entry manifest;
  - one iteration of the loading loop;
  - the loop as a fold over the manifest, with what it promises.
- `Ingest` (ingester.dfy):
  - each ingester step as a function from a catalog to a catalog and a result;
  - the class `OlistDataIngester`, whose methods perform those steps on the
    database through its nullable `conn` field;
  - lemmas about a full run.

A CSV file is modelled only by what the loader can observe: either a number of
records, or a failure of `read_csv_auto`. The data directory is a map from file
name to such a value, and a file is present exactly when it is a key.

## Model

| member | source | states |
|---|---|---|
| Gregorian.DaysInMonth | src/ingest/data.py:137 | every month has 28 to 31 days, and a month's length is exactly the gap in the cumulative month table between its start and the next month's start (or the end of the year), so the leap day counts in February (used by `is_month_end`) |
| Gregorian.DaysBeforeYearClosedForm | src/ingest/data.py:119-121 | the year-by-year day count before year y equals 365(y-1) + (y-1)/4 - (y-1)/100 + (y-1)/400 |
| Gregorian.OrdinalOrder | src/ingest/data.py:119-121 | day numbers order valid dates exactly as the calendar does, and two dates share a day number only if they are equal |
| Gregorian.Next | src/ingest/data.py:121 | the following day (daily frequency) is a valid date, comes later, and has the next day number |
| Gregorian.DayOfWeek | src/ingest/data.py:133 | the weekday is in 1..7 |
| Gregorian.NextDayOfWeek | src/ingest/data.py:133 | the weekday advances cyclically from one day to the next, Sunday (7) being followed by Monday (1) |
| Gregorian.Week1MondayStep | src/ingest/data.py:131 | consecutive ISO years start 364 or 371 days apart, so they have 52 or 53 weeks |
| Gregorian.IsoCalendarSpec | src/ingest/data.py:131 | the ISO year is within one of the calendar year; the date lies between the week-1 Mondays of that ISO year and the next one; the week is the number of whole weeks since the first of them, plus one |
| Gregorian.IsoYearUnique | src/ingest/data.py:131 | a day belongs to the ISO span of only one year |
| Gregorian.IsoThursdayRule | src/ingest/data.py:131 | a date's ISO year is the calendar year of the Thursday of its week, and the week number counts the weeks up to that Thursday (the ISO 8601 definition) |
| Gregorian.IsoWeekRange | src/ingest/data.py:131 | ISO week numbers lie in 1..53 |
| Gregorian.IsoWeekOfJanuary4 | src/ingest/data.py:131 | January 4 is always in week 1 of its own year |
| Gregorian.NextIsoWeek | src/ingest/data.py:131 | from one day to the next, the ISO week stays the same unless the next day is a Monday; on a Monday it goes up by one, or restarts at week 1 of the next ISO year |
| CalendarDimension.DateKeyFacts | src/ingest/data.py:125 | `date_key` = year*10000 + month*100 + day decodes back to year, month and day; key order is date order; equal keys mean equal dates |
| CalendarDimension.RowKeyFacts | src/ingest/data.py:125-132 | a row's `date_key` decodes back to the row's own year, month and day |
| CalendarDimension.RowRangeFacts | src/ingest/data.py:128-135 | quarter is in 1..4 and holds the month; week is in 1..53; `day_of_week` is in 1..7 and `day_name` names that day; weekend iff the day is Saturday or Sunday |
| CalendarDimension.RowFlagFacts | src/ingest/data.py:136-141 | quarter start iff month start in January, April, July or October; quarter end iff month end in March, June, September or December; year start/end iff quarter start/end in the first/last quarter |
| CalendarDimension.NextRowKey | src/ingest/data.py:125 | date keys increase from a day to the next |
| CalendarDimension.NextRowMonth | src/ingest/data.py:136-137 | a day is a month end exactly when the next day lies in another month, and the next day is then a month start |
| CalendarDimension.NextRowQuarter | src/ingest/data.py:138-139 | a day is a quarter end exactly when the next day lies in another quarter, and the next day is then a quarter start |
| CalendarDimension.NextRowYear | src/ingest/data.py:140-141 | a day is a year end exactly when the next day lies in another year, and the next day is then a year start |
| CalendarDimension.NextRowWeekday | src/ingest/data.py:131-133 | `day_of_week` cycles 1..7 along the days, and `week` changes only on a Monday |
| CalendarDimension.DateRange | src/ingest/data.py:119-121 | the inclusive daily range from a to b has one element per day number from a to b (none when b is earlier), in order |
| CalendarDimension.CalendarDefined | src/ingest/data.py:119-121 | the calendar exists exactly when 1678 <= start_year <= 2262 and 1677 <= end_year <= 2261, the years whose bounds fit a 64-bit nanosecond timestamp |
| CalendarDimension.CalendarRowCount | src/ingest/data.py:119-121 | the number of rows is the number of days in the years start_year..end_year |
| CalendarDimension.CalendarOrdered | src/ingest/data.py:121-142 | row i describes the i-th day after January 1 of the start year, and date keys strictly increase, so they are unique |
| CalendarDimension.CalendarCoversYears | src/ingest/data.py:119-121 | a date appears in the calendar iff it is valid and its year is in the range |
| CalendarDimension.SingleYearRowCount | src/ingest/data.py:119-121 | the calendar of a single year has one row per day of that year: 366 in a leap year, 365 otherwise |
| CalendarDimension.DefaultCalendarRowCount | src/ingest/data.py:107 | the default range 2016..2025 is representable and gives 3653 rows |
| CalendarDimension.FirstDefaultRow | src/ingest/data.py:124-141 | 2016-01-01 has key 20160101, is a Friday (5), is in ISO week 53, is not a weekend day, starts the year and is in quarter 1 |
| BrazilianStates.Repeat | src/ingest/data.py:187 | `['Brazil'] * 27` has 27 elements, all equal to "Brazil" |
| BrazilianStates.CodeIndexOfColumn | src/ingest/data.py:169-171 | each state code is found back at its own position, so the codes are pairwise distinct |
| BrazilianStates.ColumnFacts | src/ingest/data.py:168-188 | the four literal columns have 27 entries each; the codes are two letters long and pairwise distinct; every region is one of the five macro-regions; every country is "Brazil" |
| BrazilianStates.StatesFrameInvariants | src/ingest/data.py:168-190 | the frame exists and has 27 rows; the codes are two letters long and pairwise distinct; every region is one of North, Northeast, Central-West, Southeast, South; every country is "Brazil" |
| Catalog.Exec | src/ingest/data.py:55-59 | a statement fails without an open connection; a successful one touches only its own target table, never drops a schema, and keeps every table inside an existing schema |
| Catalog.RebuildReplaces | src/ingest/data.py:82-92 | drop-then-create succeeds iff the connection is open, the schema exists and the source is readable. It then leaves the table holding exactly the source's contents, whatever it held before (replace, never append), and changes nothing else. A failed create leaves the table dropped. Without a connection nothing changes |
| Catalog.RebuildForgetsTarget | src/ingest/data.py:82-92 | the outcome of a rebuild does not depend on the table's previous contents |
| Catalog.Connection.constructor | src/ingest/data.py:44-47 | a new connection is open, on the given database |
| Catalog.Connection.Execute | src/ingest/data.py:56-58 | executing a statement changes the database exactly as the statement's semantics says, or not at all when it raises |
| Catalog.Connection.CountRows | src/ingest/data.py:95-96 | counting succeeds iff the connection is open and the table exists; it returns the row count, else the closed-connection or missing-table error |
| Catalog.Connection.Close | src/ingest/data.py:52 | after close the connection is closed |
| Loader.ManifestInjective | src/ingest/data.py:32-42 | the manifest has nine entries, with distinct file names and distinct table names |
| Loader.LoadStops | src/ingest/data.py:101-103 | once an entry raises, later entries are not visited |
| Loader.EntryCounted | src/ingest/data.py:82-99 | once an iteration's DROP and CREATE succeed, `SELECT COUNT(*)` on its table succeeds and returns the file's record count, which the iteration stores in the result map under the table's name |
| Loader.LoadKeepsSchemas | src/ingest/data.py:70-105 | loading never changes the schemas |
| Loader.LoadNotConnected | src/ingest/data.py:70-103 | without an open connection nothing changes. If no manifest file is present the result is an empty map; otherwise it is the connection error |
| Loader.LoadSucceeds | src/ingest/data.py:70-105 | with an open connection, the raw schema, and no unreadable present file, loading succeeds, and the returned map's keys are exactly the tables whose files are present, each mapped to its file's record count |
| Loader.LoadStores | src/ingest/data.py:82-99 | under the same conditions each present file's table holds exactly that file's records, and every other table is unchanged |
| Loader.LoadFailsAtFirst | src/ingest/data.py:82-103 | the first unreadable present file aborts loading with its error. Earlier entries are loaded, its table has been dropped, and later entries are untouched |
| Loader.LoadEntryForgetsTarget | src/ingest/data.py:82-99 | one iteration does not depend on what its table held before |
| Loader.LoadAgrees | src/ingest/data.py:70-105 | catalogs that differ only in a table no present entry writes give the same result, still differ only there, and that table is untouched |
| Loader.EntryAgrees | src/ingest/data.py:82-99 | one iteration on catalogs that differ only in a table it does not write gives the same result, and the catalogs still differ only there |
| Loader.LoadIdempotent | src/ingest/data.py:70-105 | loading a second time from the same directory gives the same catalog and the same result as loading once |
| Ingest.CreateSchemaIdempotent | src/ingest/data.py:55-59 | creating the schemas succeeds iff the connection is open, adds exactly raw and dimensions, and doing it twice is doing it once |
| Ingest.CalendarStepFacts | src/ingest/data.py:107-158 | with the dimensions schema, an unrepresentable range raises before the database is touched. Otherwise the calendar table is replaced by the calendar frame and the frame's length is returned |
| Ingest.StatesStepFacts | src/ingest/data.py:160-206 | with the dimensions schema, the states table is replaced by the 27-row frame and 27 is returned |
| Ingest.RunSchemas | src/ingest/data.py:250-258 | a run that connects ends with both schemas present, whatever happens later |
| Ingest.RunOutcome | src/ingest/data.py:250-284 | a run fails exactly when the database cannot be opened or some present manifest file is unreadable. The error is the connection failure, or the load failure of the first such file in manifest order |
| Ingest.RunStages | src/ingest/data.py:250-271 | a run that connects leaves the catalog of the load step when loading raises, and otherwise that catalog with the calendar and states tables stored on top |
| Ingest.RunCatalog | src/ingest/data.py:250-271 | after a run with no unreadable file, the loader succeeded and the final catalog is its catalog with the calendar and states tables stored on top |
| Ingest.RunDimensions | src/ingest/data.py:250-271 | after a successful run both schemas exist, the calendar table holds the 3653 days of 2016-2025 and the states table holds the 27 states |
| Ingest.RunRawTables | src/ingest/data.py:259-262 | after a successful run each present manifest file's table holds exactly its records |
| Ingest.RunUntouched | src/ingest/data.py:250-271 | after a successful run every table that is neither a dimension table nor written by a present manifest file is unchanged |
| Ingest.RunKeepsValid | src/ingest/data.py:250-271 | a successful run leaves no table outside a schema |
| Ingest.RunIdempotent | src/ingest/data.py:244-284 | two runs on the same inputs leave the same catalog and the same outcome as one |
| Ingest.RerunAfterFailedLoad | src/ingest/data.py:259-262 | a run whose loading raised, run again, raises the same error and leaves the same catalog |
| Ingest.RerunAfterLoad | src/ingest/data.py:250-271 | a run whose loading succeeded, run again, leaves the same catalog and outcome |
| Ingest.DimensionsSurviveReload | src/ingest/data.py:259-271 | storing the two dimension tables does not change what reloading the manifest does, since no manifest entry names a dimension table |
| Ingest.OlistDataIngester.constructor | src/ingest/data.py:19-30 | a new ingester has no connection and the given database and data directory |
| Ingest.OlistDataIngester.Connect | src/ingest/data.py:44-47 | connecting stores a fresh open connection; when the database cannot be opened it raises and the attribute keeps its old value |
| Ingest.OlistDataIngester.Close | src/ingest/data.py:49-53 | a held connection ends up closed; the attribute is not reset to None |
| Ingest.OlistDataIngester.Execute | src/ingest/data.py:56-58 | `self.conn.execute` on no connection raises the attribute error; otherwise it behaves as the statement's semantics says |
| Ingest.OlistDataIngester.RebuildTable | src/ingest/data.py:82-92 | the database after DROP and CREATE is the one `Catalog.Rebuild` describes |
| Ingest.OlistDataIngester.CountRows | src/ingest/data.py:95-96 | `SELECT COUNT(*)` succeeds exactly when a connection is open and the table exists, and then returns the table's row count |
| Ingest.OlistDataIngester.CreateSchema | src/ingest/data.py:55-59 | the new database and result are those of `CreateSchemaSpec` |
| Ingest.OlistDataIngester.LoadCsvFiles | src/ingest/data.py:61-105 | the loop leaves the database and returns the result of the fold `LoadFrom` over the whole manifest |
| Ingest.OlistDataIngester.CreateCalendarDimension | src/ingest/data.py:107-158 | the new database and the returned row count are those of `CalendarSpec` |
| Ingest.OlistDataIngester.CreateCountryDimension | src/ingest/data.py:160-206 | the new database and the returned row count are those of `StatesSpec` |
| Ingest.OlistDataIngester.RunSteps | src/ingest/data.py:250-271 | the steps in order, stopping at the first error, leave the database and outcome of `RunSpec` |
| Ingest.OlistDataIngester.RunFullIngestion | src/ingest/data.py:244-284 | the database and outcome are those of `RunSpec`, and any connection held afterwards is closed (the `finally` clause) |

## Left out

- DuckDB's SQL engine is not modelled. This covers `read_csv_auto` type
  inference, the `header`, `nullstr` and `dateformat` options, and the column
  types of the created tables. A loaded file is only its number of records or
  a failure.
- `register`/`unregister` of a data frame are part of the `CREATE TABLE ... AS`
  statement in the model. The temporary view's name is not modelled.
- `get_table_summary` and the totals printed after a run only read the
  database, so they are left out. The model also assumes they do not raise.
- `create_indexes` is left out: it only prints, and `run_full_ingestion` does
  not call it.
- All printed output and the absolute-path report are left out.
- `main` is left out beyond the constructor: it builds an ingester with
  default paths and runs it.
- Which error comes first is assumed. When both the schema is missing and the
  file is unreadable, `CREATE TABLE` reports the missing schema.
  `DROP TABLE IF EXISTS` on a missing schema is assumed not to raise.
- Whether `duckdb.connect` succeeds is a fixed property of the database. File
  locks, permissions and I/O errors during later statements are not modelled.
- The calendar's valid year range comes from the frame library's 64-bit
  nanosecond timestamps (1677-09-21 to 2262-04-11), not from the repository.
  Outside it the frame cannot be built, and the step raises before the
  database is touched. For years outside 1..9999 it is `datetime` itself that
  raises `ValueError` (src/ingest/data.py:119-120), before `date_range` is
  called; the model reports that case as `OutOfBoundsDatetime` as well.
- Column types are not modelled. The calendar's `date` column is a `Date`
  value, not a timestamp, and `week`'s integer width is left out.
- The repository's other scripts are not part of this model:
  - `src/ingest/verify_data.py` only reports;
  - `src/ingest/explore.py` is an interactive menu;
  - `download_olist_data.py` is network and filesystem code;
  - `verify_installs.py` only checks imports;
  - the ad-hoc query scripts under `dbt/` and `check_marts.py` are out of scope.
- Ingest.OlistDataIngester.CreateSchema does not check the second `CREATE
  SCHEMA` for an error, and RunSteps does not check the schema and dimension
  steps. On the paths where they run these steps cannot fail, as their
  postconditions show.
- A missing data directory is tolerated, following the code: every manifest
  file is then absent, so every entry is skipped. In the model an empty
  directory map gives an empty result map, which `Loader.LoadSucceeds` covers.
