# iucn2sqlite loading loop in Dafny

This project models the loading loop of `iucn2sqlite.py`. The loop walks the entries of the working directory. For each directory that holds a `taxonomy.csv`, it inserts:

- every taxonomy row;
- every habitat row, reusing the habitat code when it is already present, plus one link row per habitat row;
- every common-name row.

It commits once at the end. The SQLite tables are values and an error aborts the run.

The project has five modules:

- `Schema`: the four tables (`taxonomy`, `habitat`, `taxonomy_habitat_m2m`, `common_names`) and the constraints their DDL declares:
  - unique taxonomy id;
  - unique, non-NULL habitat code;
  - SQLite-assigned rowids: one more than the largest rowid in use, even when that one is negative, or 1 in an empty table.

  Also the lookup `select id from habitat where code==?`, and Python's tuple slicing. An `itertuples()` tuple keeps the row index at position 0, so tuple position k is CSV column k - 1.
- `Ingest`: what each statement does, as pure functions from the database before to the database after, or to the error that ends the run:
  - `TAXONOMY_INSERT`;
  - `HABITAT_INSERT ... ON CONFLICT DO NOTHING`;
  - the fallback lookup and its `assert len(res) == 1`;
  - the m2m insert;
  - `COMMON_NAMES_INSERT`;
  - the three row loops;
  - the per-directory body with its skip rule;
  - the run over all entries;
  - what the four tables hold afterwards.

  Aborts are modelled as `Error` values:
  - wrong binding count (`ProgrammingError`);
  - duplicate taxonomy id (`IntegrityError`);
  - NULL habitat code (`IntegrityError`);
  - non-integer taxonomy id;
  - lookup not finding exactly one row (`AssertionError`);
  - missing `habitats.csv` or `common_names.csv` (`FileNotFoundError`).
- `Properties`: lemmas about those functions. The schema constraints are kept by every step. Link rows that resolve to a habitat row keep resolving. The link table has no foreign key, so a database may also hold link rows that do not resolve, and the loop runs on it just the same. Existing rows never change. A known code only adds a link. The first row with a code decides the habitat row. Each habitat row adds one resolving link. A second run over the same directories aborts once some directory's taxonomy.csv has a row; otherwise the second run succeeds and appends duplicate m2m and common_names rows.
- `Loader`: class `Connection`. Its four fields are the tables, and it has one method per `conn.execute` INSERT. `LoadDirectory` runs the three row loops as `while` loops; `Run` runs the loop over the entries. Each method is proved against the `Ingest` function it executes.
- `Scenarios`: concrete loads of a small directory, worked out by the verifier.

Points of the code's behaviour worth knowing:

- Values reach the tables verbatim. The code does not normalise importance, season or suitability (`Scenarios.OneDirectory` stores `"Yes"`, `"breeding"` and `"garbage"` as given).
- majorImportance, season and suitability are columns of `habitat`, not of the link (iucn2sqlite.py:36-38, 45). The first row with a code decides them. The link table has two columns (iucn2sqlite.py:48-50).
- A taxonomy row holds the fifteen columns of its CSV row and nothing else.
- After an abort the four tables hold the rows they held before the run. The code has no commit before the abort, so sqlite3 discards the transaction its first INSERT opened. The CREATE TABLE and CREATE INDEX statements at iucn2sqlite.py:82-93 run before that transaction opens, so they stay in effect. `Ingest.Committed` and `Loader.Connection.Run` model that.

## Model

| member | source | states |
|---|---|---|
| Schema.Slice | iucn2sqlite.py:125 | Python's t[lo:hi]: the bounds are clipped to the tuple, and each element is the tuple's element at lo + k |
| Schema.From | iucn2sqlite.py:103 | Python's t[lo:] as used at iucn2sqlite.py:103, 109 and 125: empty past the end, otherwise the elements from lo on |
| Schema.MaxRowid | iucn2sqlite.py:33 | the largest rowid of a non-empty table: one of its rowids, and no rowid is larger |
| Schema.NewRowid | iucn2sqlite.py:33 | the rowid SQLite gives a new row: 1 in an empty table, otherwise one more than the largest rowid in use (negative ones included), so no row holds it |
| Schema.WellFormed | iucn2sqlite.py:7-72 | what the DDL lets the tables hold: each taxonomy key holds fifteen values and its own id (iucn2sqlite.py:9); habitat codes are unique and not NULL (iucn2sqlite.py:34, 43); habitat and common-name rowids are distinct (iucn2sqlite.py:33, 42, 61, 69); the m2m table has no key and no foreign key |
| Schema.IdsWithCode | iucn2sqlite.py:115 | the lookup by code returns exactly the ids of the rows holding that code |
| Schema.LookupFindsOne | iucn2sqlite.py:115-116 | with unique codes (iucn2sqlite.py:34, 43) the lookup by an existing code returns exactly that row's id, so the assert cannot fail |
| Schema.LookupFindsNone | iucn2sqlite.py:115 | the lookup by a code no row holds returns nothing |
| Ingest.TaxonomyInsert | iucn2sqlite.py:103 | the insert succeeds exactly when fifteen values are bound and the id is an integer not yet a key; it then adds that one key, holding the values, and changes nothing else |
| Ingest.HabitatInsert | iucn2sqlite.py:45 | the upsert succeeds exactly when five values are bound and the code is not NULL; it inserts nothing exactly when the code is present; otherwise it appends the five values under a rowid no row holds, and reports that rowid |
| Ingest.LinkInsert | iucn2sqlite.py:119 | the m2m insert appends one row (taxon, habitat id), whatever the table holds, and changes nothing else |
| Ingest.CommonNameInsert | iucn2sqlite.py:125 | the insert succeeds exactly when four values are bound; it appends one row holding them under a rowid no row holds and changes nothing else |
| Ingest.HabitatRowLoad | iucn2sqlite.py:108-120 | a habitats.csv row that loads has nine positions and a non-NULL code, now present in table habitat; it adds exactly one m2m row, from tuple[2], and changes no existing row |
| Ingest.RowLoad | iucn2sqlite.py:102-126 | one iteration of a row loop: a habitats.csv row adds one m2m row, and the other loops add none |
| Ingest.RowsLoad | iucn2sqlite.py:102-126 | a row loop whose first row fails aborts with that row's error, and an empty loop cannot fail; a habitats.csv loop that succeeds adds one m2m row per row, and the other loops add none |
| Ingest.Skipped | iucn2sqlite.py:96-100 | the skip rule of the directory loop: an entry is passed over when it is not a directory or holds no taxonomy.csv |
| Ingest.DirectoryLoad | iucn2sqlite.py:96-126 | an entry that is not a directory, or has no taxonomy.csv, leaves the tables as they are; a read directory without habitats.csv or without common_names.csv aborts; a loaded directory adds one m2m row per habitats.csv row |
| Ingest.RunLoad | iucn2sqlite.py:95-127 | only a directory that is read can abort the run; a successful run leaves at least the m2m rows it found (that no row changes is Properties.RunKeeps) |
| Ingest.Committed | iucn2sqlite.py:128 | the four tables after the run: the tables the run loaded when it succeeds, and the rows they held before it when the run aborts, since no commit has happened; never fewer m2m rows than before |
| Properties.ExistingCodeResolves | iucn2sqlite.py:109-117 | a row whose code is present leaves table habitat unchanged and links tuple[2] to the existing row's id |
| Properties.NewCodeInserted | iucn2sqlite.py:109-113 | a row with a new code appends tuple[4:9] under a rowid no row holds and links tuple[2] to that rowid |
| Properties.TaxonomyRowEffect | iucn2sqlite.py:102-104 | a taxonomy row is inserted iff it binds fifteen values with an integer id not present; it then adds only that row, keyed by its id; a present id aborts with the duplicate-id error |
| Properties.CommonNameRowEffect | iucn2sqlite.py:124-126 | a common-name row is inserted iff the tuple has six positions; the row holds tuple[1], tuple[3], tuple[4], tuple[5] under a fresh rowid and nothing else changes |
| Properties.TaxonomyInsertKeeps | iucn2sqlite.py:103 | a taxonomy insert keeps the schema constraints, keeps resolving m2m rows resolving, and changes no existing row |
| Properties.HabitatInsertKeeps | iucn2sqlite.py:109 | the upsert keeps codes unique and non-NULL and rowids distinct, keeps resolving m2m rows resolving, changes no existing row, and an inserted rowid is new and then present |
| Properties.CommonNameInsertKeeps | iucn2sqlite.py:125 | a common-name insert keeps rowids distinct, keeps resolving m2m rows resolving, and changes no existing row |
| Properties.HabitatRowKeeps | iucn2sqlite.py:108-120 | one habitats.csv row keeps the constraints and changes no existing row; the m2m row it adds names an existing habitat row, and if every m2m row did so before, every one does after |
| Properties.RowKeeps | iucn2sqlite.py:102-126 | one iteration of any of the three row loops keeps the constraints, keeps resolving m2m rows resolving, adds only m2m rows that name an existing habitat row, and changes no existing row |
| Properties.RowsKeep | iucn2sqlite.py:102-126 | a whole successful row loop keeps the constraints, keeps resolving m2m rows resolving, adds only m2m rows that name an existing habitat row, and changes no existing row |
| Properties.DirectoryKeeps | iucn2sqlite.py:95-126 | a successfully loaded directory keeps the constraints, keeps resolving m2m rows resolving, adds only m2m rows that name an existing habitat row, and changes no existing row |
| Properties.RunKeeps | iucn2sqlite.py:95-127 | after a successful run over any entries, codes are unique and non-NULL and rowids distinct; every m2m row the run adds names an existing habitat row, and if every m2m row did so before, every one does after; every row present before is still there unchanged |
| Properties.HabitatRowLinks | iucn2sqlite.py:113-120 | one habitats.csv row appends exactly one link, from tuple[2] to the one habitat row holding tuple[4] |
| Properties.HabitatRowsLink | iucn2sqlite.py:108-120 | a habitats.csv loop appends exactly one link per row, in order, each from tuple[2] to the one habitat row holding tuple[4]; equal rows give separate equal links |
| Properties.HabitatRowCodes | iucn2sqlite.py:109 | a row with a new code appends its own tuple[4:9] as the last habitat row; any other row leaves absent codes absent |
| Properties.FirstOccurrenceWins | iucn2sqlite.py:109 | after a habitats.csv loop, the habitat row of a new code holds the name, majorImportance, season and suitability of the first row with that code |
| Properties.SkippedEntriesChangeNothing | iucn2sqlite.py:95-100 | entries that are not directories or lack taxonomy.csv leave all four tables as they are |
| Properties.TaxonomyRowsStored | iucn2sqlite.py:102-104 | after a successful taxonomy loop every row's id is a key of the taxonomy table, holding that row's fifteen values |
| Properties.RunStoresFirstIds | iucn2sqlite.py:95-104 | after a successful run the first taxonomy id of every directory read is stored |
| Properties.StoredIdAborts | iucn2sqlite.py:103-104 | a run that reaches a directory whose first taxonomy id is already stored aborts |
| Properties.RunTwiceAborts | iucn2sqlite.py:9 | loading the same directories again into the database a successful run produced aborts, once any directory has a taxonomy row |
| Loader.Connection.constructor | iucn2sqlite.py:80-93 | the connection opens on any tables SQLite lets the DDL hold (unique ids, unique non-NULL codes; m2m rows may name any habitat id), and holds them unchanged |
| Loader.Connection.InsertTaxonomy | iucn2sqlite.py:103 | the insert does what Ingest.TaxonomyInsert says, keeps the constraints, and on an error leaves the tables unchanged |
| Loader.Connection.InsertHabitat | iucn2sqlite.py:109 | the upsert does what Ingest.HabitatInsert says, returning the inserted rowid or nothing, and keeps the constraints |
| Loader.Connection.InsertLink | iucn2sqlite.py:119 | the m2m insert appends one row and changes nothing else |
| Loader.Connection.InsertCommonName | iucn2sqlite.py:125 | the insert does what Ingest.CommonNameInsert says, keeps the constraints, and on an error leaves the tables unchanged |
| Loader.Connection.LoadHabitatRow | iucn2sqlite.py:108-120 | insert, fallback lookup with its exactly-one assert, then link: the result Ingest.HabitatRowLoad specifies; a failure leaves the tables unchanged |
| Loader.Connection.LoadDirectory | iucn2sqlite.py:96-126 | the three row loops give the result Ingest.DirectoryLoad specifies; a skipped entry changes nothing |
| Loader.Connection.Run | iucn2sqlite.py:95-128 | the run's outcome is Ingest.RunLoad's; the tables end as the committed state: the loaded tables on success, the opening tables after an abort; every m2m row the run adds names an existing habitat row, and if every m2m row did so at the start, every one does at the end |
| Scenarios.OneDirectoryHabitats | iucn2sqlite.py:108-120 | the habitats loop of that directory: one habitat row with the values verbatim and one two-column m2m row |
| Scenarios.OneDirectoryNames | iucn2sqlite.py:124-126 | the common names loop of that directory: one row, without tuple[2] |
| Scenarios.OneDirectory | iucn2sqlite.py:95-126 | one directory with one row per file gives one row in each table, the habitat row holding importance, season and suitability verbatim and the link holding only taxon and habitat id |
| Scenarios.SecondRowLinksOnly | iucn2sqlite.py:113-119 | a second row with a known code adds only a link to the existing habitat id |
| Scenarios.SameCodeTwice | iucn2sqlite.py:108-120 | two rows with one code give one habitat row, from the first row, and two links to it |

## Left out

- CSV parsing with pandas (iucn2sqlite.py:101, 107, 123): the model takes parsed tuples of `Int`, `Text` and `Null` values. NaN handling and type inference are not modelled.
- Directory discovery with `os.listdir`, `os.path.isdir` and `os.path.exists` (iucn2sqlite.py:95-100): entries are a given sequence, with the directory test and the presence of each file as fields. Listing order is whatever that sequence holds.
- Opening the connection, the DDL and the index statements, `commit` and `close` (iucn2sqlite.py:80-93, 128-129) are I/O. Only the constraints they declare, and the all-or-nothing effect of the single final commit, are modelled.
- Command-line handling (iucn2sqlite.py:74-78) is I/O. It catches `KeyError`, but a missing argument raises `IndexError`, so its usage message is never printed.
- VARCHAR lengths, and NOT NULL on columns other than `habitat.code`, are not modelled. SQLite does not enforce VARCHAR lengths. `code` keeps its NOT NULL because it decides between the upsert and the lookup.
- SQLite type affinity is not modelled. A text taxonomy id is not converted to an integer, and a NULL taxonomy id is not given an automatic rowid: both abort with the non-integer-id error. Values keep their own type, so the model treats `Int(1)` and `Text("1")` as two different habitat codes, while SQLite gives `code` TEXT affinity (iucn2sqlite.py:34), stores both as '1', and ignores the second insert.
- Rowids are unbounded: the 2^63 - 1 ceiling, and SQLite's random rowid past it, are not modelled.
- The `rowcount == 1` asserts at iucn2sqlite.py:104, 120 and 126 hold after every successful single-row insert. A successful insert is therefore the whole condition.
- `tuple[2]` at iucn2sqlite.py:119 needs no separate index-error case, because the habitat insert before it already needs nine positions.
