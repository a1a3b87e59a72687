/**
 The loading loop of iucn2sqlite.py run in place: a connection whose four
 fields are the tables, one method per INSERT, the body of the loop over the
 working directory and the driver that commits once at the end. Each method is
 proved against the step of Ingest it executes.
 */
module Loader {
  import opened Schema
  import opened Ingest
  import opened Properties

  /** How a method that may abort the run ends. */
  datatype Outcome = Pass | Fail(error: Error)

  /** The result of a step of Ingest, read off a method's outcome and the tables it left. */
  function Settled(r: Outcome, db: Db): Result<Db>
  {
    if r.Pass? then Ok(db) else Err(r.error)
  }

  class Connection {
    var taxonomy: map<int, seq<Value>>
    var habitat: seq<Habitat>
    var links: seq<Link>
    var commonNames: seq<CommonName>

    function Tables(): Db
      reads this
    {
      Db(taxonomy, habitat, links, commonNames)
    }

    /** The constraints the tables' DDL makes SQLite enforce. The m2m table
        has no foreign key, so its rows may name any habitat id. */
    predicate Valid()
      reads this
    {
      WellFormed(Tables())
    }

    /** sqlite3.connect on a database file already holding `db`; the
        CREATE ... IF NOT EXISTS statements leave its rows as they are. */
    constructor (db: Db)
      requires WellFormed(db)
      ensures Valid() && Tables() == db
    {
      taxonomy, habitat, links, commonNames := db.taxonomy, db.habitat, db.links, db.commonNames;
    }

    /** `conn.execute(TAXONOMY_INSERT, values)`. */
    method InsertTaxonomy(values: seq<Value>) returns (r: Outcome)
      requires Valid()
      modifies this
      ensures Valid()
      ensures TaxonomyInsert(old(Tables()), values) == Settled(r, Tables())
      ensures r.Fail? ==> Tables() == old(Tables())
    {
      if |values| != TaxonomyColumns {
        return Fail(BindingCount("taxonomy", |values|));
      }
      match values[0] {
        case Int(id) =>
          if id in taxonomy {
            return Fail(DuplicateTaxonomyId(id));
          }
          taxonomy := taxonomy[id := values];
          r := Pass;
        case _ =>
          r := Fail(IdNotInteger(values[0]));
      }
    }

    /** `conn.execute(HABITAT_INSERT, values)`, giving rowcount and lastrowid as an Upsert. */
    method InsertHabitat(values: seq<Value>) returns (r: Result<Upsert>)
      requires Valid()
      modifies this
      ensures Valid()
      ensures match HabitatInsert(old(Tables()), values)
              case Ok((d, u)) => r == Ok(u) && Tables() == d
              case Err(e) => r == Err(e) && Tables() == old(Tables())
    {
      if |values| != HabitatColumns {
        return Err(BindingCount("habitat", |values|));
      }
      var code := values[0];
      if code == Null {
        return Err(NullHabitatCode);
      }
      HabitatInsertKeeps(Tables(), values);
      if HasCode(habitat, code) {
        return Ok(Ignored);
      }
      var id := NewRowid(HabitatIds(habitat));
      habitat := habitat + [Habitat(id, code, values[1], values[2], values[3], values[4])];
      r := Ok(Inserted(id));
    }

    /** `conn.execute(TAXONOMY_HABITAT_M2M_INSERT, (taxon, habitatId))`. */
    method InsertLink(taxon: Value, habitatId: int)
      modifies this
      ensures Tables() == LinkInsert(old(Tables()), taxon, habitatId)
    {
      links := links + [Link(taxon, habitatId)];
    }

    /** `conn.execute(COMMON_NAMES_INSERT, values)`. */
    method InsertCommonName(values: seq<Value>) returns (r: Outcome)
      requires Valid()
      modifies this
      ensures Valid()
      ensures CommonNameInsert(old(Tables()), values) == Settled(r, Tables())
      ensures r.Fail? ==> Tables() == old(Tables())
    {
      if |values| != CommonNameColumns {
        return Fail(BindingCount("common_names", |values|));
      }
      CommonNameInsertKeeps(Tables(), values);
      var id := NewRowid(CommonNameIds(commonNames));
      commonNames := commonNames + [CommonName(id, values[0], values[1], values[2], values[3])];
      r := Pass;
    }

    /** One iteration of the habitats.csv loop: insert, fall back to the
        lookup by code when nothing was inserted, then add the m2m row. */
    method LoadHabitatRow(t: Tuple) returns (r: Outcome)
      requires Valid()
      modifies this
      ensures Valid()
      ensures RowLoad(HabitatsCsv, old(Tables()), t) == Settled(r, Tables())
      ensures r.Fail? ==> Tables() == old(Tables())
    {
      ghost var before := Tables();
      var res := InsertHabitat(From(t, 4));
      if res.Err? {
        return Fail(res.error);
      }
      var lastrowid: int;
      match res.value {
        case Inserted(id) =>
          lastrowid := id;
        case Ignored =>
          var found := IdsWithCode(habitat, t[4]);
          if |found| != 1 {
            return Fail(HabitatLookup(t[4], |found|));
          }
          lastrowid := found[0];
      }
      InsertLink(t[2], lastrowid);
      r := Pass;
      HabitatRowKeeps(before, t);
    }

    /** The body of the loop over the working directory: skip an entry that
        is not a directory or has no taxonomy.csv, else run the taxonomy,
        habitats and common names loops in turn. */
    method LoadDirectory(e: Entry) returns (r: Outcome)
      requires Valid()
      modifies this
      ensures Valid()
      ensures DirectoryLoad(old(Tables()), e) == Settled(r, Tables())
      ensures Skipped(e) ==> r == Pass && Tables() == old(Tables())
    {
      if Skipped(e) {
        return Pass;
      }
      ghost var start := Tables();

      var rows := e.taxonomy.rows;
      var i := 0;
      while i < |rows|
        invariant 0 <= i <= |rows| && Valid()
        invariant RowsLoad(TaxonomyCsv, start, rows) == RowsLoad(TaxonomyCsv, Tables(), rows[i..])
      {
        ghost var before := Tables();
        assert rows[i..][0] == rows[i] && rows[i..][1..] == rows[i + 1..];
        r := InsertTaxonomy(From(rows[i], 1));
        if r.Fail? {
          assert RowsLoad(TaxonomyCsv, start, rows) == Err(r.error);
          return;
        }
        assert RowsLoad(TaxonomyCsv, before, rows[i..]) == RowsLoad(TaxonomyCsv, Tables(), rows[i + 1..]);
        i := i + 1;
      }
      ghost var afterTaxonomy := Tables();

      if e.habitats.Absent? {
        return Fail(MissingFile("habitats.csv"));
      }
      rows := e.habitats.rows;
      i := 0;
      while i < |rows|
        invariant 0 <= i <= |rows| && Valid()
        invariant RowsLoad(HabitatsCsv, afterTaxonomy, rows) == RowsLoad(HabitatsCsv, Tables(), rows[i..])
      {
        ghost var before := Tables();
        assert rows[i..][0] == rows[i] && rows[i..][1..] == rows[i + 1..];
        r := LoadHabitatRow(rows[i]);
        if r.Fail? {
          assert RowsLoad(HabitatsCsv, afterTaxonomy, rows) == Err(r.error);
          return;
        }
        assert RowsLoad(HabitatsCsv, before, rows[i..]) == RowsLoad(HabitatsCsv, Tables(), rows[i + 1..]);
        i := i + 1;
      }
      ghost var afterHabitats := Tables();

      if e.commonNames.Absent? {
        return Fail(MissingFile("common_names.csv"));
      }
      rows := e.commonNames.rows;
      i := 0;
      while i < |rows|
        invariant 0 <= i <= |rows| && Valid()
        invariant RowsLoad(CommonNamesCsv, afterHabitats, rows) == RowsLoad(CommonNamesCsv, Tables(), rows[i..])
      {
        ghost var before := Tables();
        assert rows[i..][0] == rows[i] && rows[i..][1..] == rows[i + 1..];
        r := InsertCommonName(Slice(rows[i], 1, 2) + From(rows[i], 3));
        if r.Fail? {
          assert RowsLoad(CommonNamesCsv, afterHabitats, rows) == Err(r.error);
          return;
        }
        assert RowsLoad(CommonNamesCsv, before, rows[i..]) == RowsLoad(CommonNamesCsv, Tables(), rows[i + 1..]);
        i := i + 1;
      }
      r := Pass;
    }

    /** The whole run over the entries of the working directory. The rows
        are written inside one transaction that conn.commit() ends after the
        last entry; an abort ends the process before that, and the uncommitted
        rows are discarded, so the tables are back to what they held at the start. */
    method Run(es: seq<Entry>) returns (r: Outcome)
      requires Valid()
      modifies this
      ensures Valid()
      ensures RunLoad(old(Tables()), es) == Settled(r, Committed(old(Tables()), es))
      ensures Tables() == Committed(old(Tables()), es)
      ensures LinksResolve(old(Tables())) ==> LinksResolve(Tables())
      ensures LinksResolveFrom(Tables(), |old(Tables()).links|)
    {
      var atStart := Tables();
      var i := 0;
      while i < |es|
        invariant 0 <= i <= |es| && Valid()
        invariant RunLoad(atStart, es) == RunLoad(Tables(), es[i..])
      {
        ghost var before := Tables();
        assert es[i..][0] == es[i] && es[i..][1..] == es[i + 1..];
        r := LoadDirectory(es[i]);
        if r.Fail? {
          assert RunLoad(atStart, es) == Err(r.error);
          taxonomy, habitat, links, commonNames := atStart.taxonomy, atStart.habitat, atStart.links, atStart.commonNames;
          return;
        }
        assert RunLoad(before, es[i..]) == RunLoad(Tables(), es[i + 1..]);
        i := i + 1;
      }
      r := Pass;
      assert RunLoad(atStart, es) == Ok(Tables());
      RunKeeps(atStart, es);
    }
  }
}
