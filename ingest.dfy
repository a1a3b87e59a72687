/**
 What each statement of the loading loop of iucn2sqlite.py does to the
 database, as functions from the database before to the database after (or to
 the error that aborts the run). The class in Loader executes these steps in
 place and is proved against them.
 */
module Ingest {
  import opened Schema

  /** Why a run aborts. */
  datatype Error =
    | BindingCount(table: string, supplied: nat)  // sqlite3.ProgrammingError: incorrect number of bindings
    | IdNotInteger(given: Value)                  // datatype mismatch on taxonomy.id
    | DuplicateTaxonomyId(id: int)                // IntegrityError: UNIQUE constraint failed: taxonomy.id
    | NullHabitatCode                             // IntegrityError: NOT NULL constraint failed: habitat.code
    | HabitatLookup(code: Value, found: nat)      // AssertionError: len(res) == 1
    | MissingFile(name: string)                   // FileNotFoundError from pd.read_csv

  datatype Result<T> = Ok(value: T) | Err(error: Error)

  /** What HABITAT_INSERT did: rowcount 1 with the new row's lastrowid, or rowcount 0. */
  datatype Upsert = Inserted(rowid: int) | Ignored

  /** The input files a directory may hold. */
  datatype Csv = TaxonomyCsv | HabitatsCsv | CommonNamesCsv

  /** A parsed CSV file of a directory, or its absence. */
  datatype File = Absent | Present(rows: seq<Tuple>)

  /** One entry of the working directory, its CSV files already parsed. */
  datatype Entry = Entry(isDir: bool, taxonomy: File, habitats: File, commonNames: File)

  /** TAXONOMY_INSERT with the values of one row. */
  function TaxonomyInsert(db: Db, values: seq<Value>): (r: Result<Db>)
    ensures r.Ok? <==> |values| == TaxonomyColumns && values[0].Int? && values[0].i !in db.taxonomy
    ensures r.Ok? ==> Extends(db, r.value) && r.value.taxonomy.Keys == db.taxonomy.Keys + {values[0].i}
                      && r.value.taxonomy[values[0].i] == values
                      && r.value.habitat == db.habitat && r.value.links == db.links
                      && r.value.commonNames == db.commonNames
  {
    if |values| != TaxonomyColumns then Err(BindingCount("taxonomy", |values|))
    else
      match values[0]
      case Int(id) =>
        if id in db.taxonomy then Err(DuplicateTaxonomyId(id))
        else Ok(db.(taxonomy := db.taxonomy[id := values]))
      case _ => Err(IdNotInteger(values[0]))
  }

  /** HABITAT_INSERT, `INSERT ... ON CONFLICT DO NOTHING`: NOT NULL is checked
      before the uniqueness of code, and a conflict on code inserts nothing. */
  function HabitatInsert(db: Db, values: seq<Value>): (r: Result<(Db, Upsert)>)
    ensures r.Ok? <==> |values| == HabitatColumns && values[0] != Null
    ensures r.Ok? ==> Extends(db, r.value.0) && r.value.0.taxonomy == db.taxonomy
                      && r.value.0.links == db.links && r.value.0.commonNames == db.commonNames
    ensures r.Ok? ==> (r.value.1.Ignored? <==> HasCode(db.habitat, values[0]))
    ensures r.Ok? && r.value.1.Ignored? ==> r.value.0 == db
    ensures r.Ok? && r.value.1.Inserted? ==>
              && r.value.1.rowid !in HabitatIds(db.habitat)
              && |r.value.0.habitat| == |db.habitat| + 1
              && r.value.0.habitat[|db.habitat|].id == r.value.1.rowid
              && HabitatFields(r.value.0.habitat[|db.habitat|]) == values
  {
    if |values| != HabitatColumns then Err(BindingCount("habitat", |values|))
    else if values[0] == Null then Err(NullHabitatCode)
    else if HasCode(db.habitat, values[0]) then Ok((db, Ignored))
    else
      var id := NewRowid(HabitatIds(db.habitat));
      var row := Habitat(id, values[0], values[1], values[2], values[3], values[4]);
      Ok((db.(habitat := db.habitat + [row]), Inserted(id)))
  }

  /** TAXONOMY_HABITAT_M2M_INSERT: appends one row, whatever the table holds. */
  function LinkInsert(db: Db, taxonomy: Value, habitat: int): (r: Db)
    ensures Extends(db, r) && |r.links| == |db.links| + 1 && r.links[|db.links|] == Link(taxonomy, habitat)
    ensures r.taxonomy == db.taxonomy && r.habitat == db.habitat && r.commonNames == db.commonNames
  {
    db.(links := db.links + [Link(taxonomy, habitat)])
  }

  /** COMMON_NAMES_INSERT with the four values of one row. */
  function CommonNameInsert(db: Db, values: seq<Value>): (r: Result<Db>)
    ensures r.Ok? <==> |values| == CommonNameColumns
    ensures r.Ok? ==> Extends(db, r.value) && |r.value.commonNames| == |db.commonNames| + 1
    ensures r.Ok? ==>
              var c := r.value.commonNames[|db.commonNames|];
              && c.id !in CommonNameIds(db.commonNames) && [c.taxonomy, c.name, c.language, c.main] == values
              && r.value.taxonomy == db.taxonomy && r.value.habitat == db.habitat && r.value.links == db.links
  {
    if |values| != CommonNameColumns then Err(BindingCount("common_names", |values|))
    else
      var row := CommonName(NewRowid(CommonNameIds(db.commonNames)), values[0], values[1], values[2], values[3]);
      Ok(db.(commonNames := db.commonNames + [row]))
  }

  /** The habitat loop body: insert the habitat, fall back to the lookup by
      code when nothing was inserted, then link tuple[2] to the id found. */
  function HabitatRowLoad(db: Db, t: Tuple): (r: Result<Db>)
    ensures r.Ok? ==> |t| == 9 && t[4] != Null && HasCode(r.value.habitat, t[4])
    ensures r.Ok? ==> Extends(db, r.value) && r.value.taxonomy == db.taxonomy && r.value.commonNames == db.commonNames
    ensures r.Ok? ==> |r.value.links| == |db.links| + 1 && r.value.links[|db.links|].taxonomy == t[2]
  {
    match HabitatInsert(db, From(t, 4))
    case Err(e) => Err(e)
    case Ok((d, Inserted(id))) => Ok(LinkInsert(d, t[2], id))
    case Ok((d, Ignored)) =>
      var found := IdsWithCode(d.habitat, t[4]);
      if |found| != 1 then Err(HabitatLookup(t[4], |found|))
      else Ok(LinkInsert(d, t[2], found[0]))
  }

  /** One iteration of one of the three row loops. */
  function RowLoad(f: Csv, db: Db, t: Tuple): (r: Result<Db>)
    ensures r.Ok? && f == HabitatsCsv ==> |r.value.links| == |db.links| + 1
    ensures r.Ok? && f != HabitatsCsv ==> r.value.links == db.links
  {
    match f
    case TaxonomyCsv => TaxonomyInsert(db, From(t, 1))
    case HabitatsCsv => HabitatRowLoad(db, t)
    case CommonNamesCsv => CommonNameInsert(db, Slice(t, 1, 2) + From(t, 3))
  }

  /** A whole row loop, stopping at the first error. */
  function RowsLoad(f: Csv, db: Db, rows: seq<Tuple>): (r: Result<Db>)
    ensures r.Err? ==> rows != []
    ensures rows != [] && RowLoad(f, db, rows[0]).Err? ==> r == RowLoad(f, db, rows[0])
    ensures r.Ok? && f == HabitatsCsv ==> |r.value.links| == |db.links| + |rows|
    ensures r.Ok? && f != HabitatsCsv ==> r.value.links == db.links
    decreases |rows|
  {
    if rows == [] then Ok(db)
    else
      match RowLoad(f, db, rows[0])
      case Err(e) => Err(e)
      case Ok(d) => RowsLoad(f, d, rows[1..])
  }

  /** The entry is skipped: not a directory, or no taxonomy.csv in it. */
  predicate Skipped(e: Entry)
  {
    !e.isDir || e.taxonomy.Absent?
  }

  /** The body of the loop over the working directory. */
  function DirectoryLoad(db: Db, e: Entry): (r: Result<Db>)
    ensures Skipped(e) ==> r == Ok(db)
    ensures !Skipped(e) && e.habitats.Absent? ==> r.Err?
    ensures !Skipped(e) && e.commonNames.Absent? ==> r.Err?
    ensures r.Ok? && !Skipped(e) ==> |r.value.links| == |db.links| + |e.habitats.rows|
  {
    if Skipped(e) then Ok(db)
    else
      match RowsLoad(TaxonomyCsv, db, e.taxonomy.rows)
      case Err(x) => Err(x)
      case Ok(d1) =>
        if e.habitats.Absent? then Err(MissingFile("habitats.csv"))
        else
          match RowsLoad(HabitatsCsv, d1, e.habitats.rows)
          case Err(x) => Err(x)
          case Ok(d2) =>
            if e.commonNames.Absent? then Err(MissingFile("common_names.csv"))
            else RowsLoad(CommonNamesCsv, d2, e.commonNames.rows)
  }

  /** The loop over all entries, stopping at the first error. */
  function RunLoad(db: Db, es: seq<Entry>): (r: Result<Db>)
    ensures r.Err? ==> exists i :: 0 <= i < |es| && !Skipped(es[i])
    ensures r.Ok? ==> |db.links| <= |r.value.links|
    decreases |es|
  {
    if es == [] then Ok(db)
    else
      match DirectoryLoad(db, es[0])
      case Err(x) => Err(x)
      case Ok(d) => RunLoad(d, es[1..])
  }

  /** What the four tables hold after the process ends: conn.commit() runs
      only after the last entry, so an abort discards the whole transaction. */
  function Committed(db: Db, es: seq<Entry>): (r: Db)
    ensures RunLoad(db, es).Ok? ==> r == RunLoad(db, es).value
    ensures RunLoad(db, es).Err? ==> r == db
    ensures |db.links| <= |r.links|
  {
    match RunLoad(db, es)
    case Ok(d) => d
    case Err(_) => db
  }
}
