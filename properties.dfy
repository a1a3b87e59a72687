/**
 Properties of the loading loop of iucn2sqlite.py: the schema constraints
 hold after every successful step, m2m rows that resolve keep resolving,
 existing rows never change, a habitat code
 already present only adds a link, the first row with a code decides the
 habitat row, each habitats.csv row adds exactly one resolvable link, and a
 second run over the same directories aborts once some directory's
 taxonomy.csv has a row.
 */
module Properties {
  import opened Schema
  import opened Ingest

  /** The m2m row `l` links tuple[2] of habitats.csv tuple `t` to the one
      habitat row whose code is tuple[4]. */
  predicate LinksTuple(db: Db, l: Link, t: Tuple)
  {
    && |t| == 9
    && l.taxonomy == t[2]
    && IdsWithCode(db.habitat, t[4]) == [l.habitat]
  }

  /** A directory whose taxonomy.csv is read and has at least one row. */
  predicate LoadsTaxonomy(e: Entry)
  {
    !Skipped(e) && |e.taxonomy.rows| > 0
  }

  lemma HabitatIdsAppend(hs: seq<Habitat>, h: Habitat)
    ensures HabitatIds(hs + [h]) == HabitatIds(hs) + [h.id]
  {
    assert forall k :: 0 <= k < |hs| ==> (hs + [h])[k] == hs[k];
  }

  lemma CommonNameIdsAppend(cs: seq<CommonName>, c: CommonName)
    ensures CommonNameIds(cs + [c]) == CommonNameIds(cs) + [c.id]
  {
    assert forall k :: 0 <= k < |cs| ==> (cs + [c])[k] == cs[k];
  }

  /** A row loop that succeeds is its first iteration followed by the rest. */
  lemma RowsLoadStep(f: Csv, db: Db, rows: seq<Tuple>)
    requires rows != [] && RowsLoad(f, db, rows).Ok?
    ensures RowLoad(f, db, rows[0]).Ok?
    ensures RowsLoad(f, db, rows) == RowsLoad(f, RowLoad(f, db, rows[0]).value, rows[1..])
  {
  }

  /** A habitat whose code is already present leaves the habitat table as it
      is, and the m2m row gets the existing row's id. */
  lemma ExistingCodeResolves(db: Db, t: Tuple, k: nat)
    requires WellFormed(db)
    requires |t| == 9 && k < |db.habitat| && db.habitat[k].code == t[4]
    ensures HabitatRowLoad(db, t) == Ok(LinkInsert(db, t[2], db.habitat[k].id))
  {
    assert From(t, 4)[0] == t[4];
    assert HabitatInsert(db, From(t, 4)) == Ok((db, Ignored));
    LookupFindsOne(db.habitat, k);
  }

  /** A habitat whose code is new is appended under a rowid no row holds, and
      the m2m row gets that rowid. */
  lemma NewCodeInserted(db: Db, t: Tuple)
    requires |t| == 9 && t[4] != Null && !HasCode(db.habitat, t[4])
    ensures var id := NewRowid(HabitatIds(db.habitat));
      && id !in HabitatIds(db.habitat)
      && HabitatRowLoad(db, t)
         == Ok(db.(habitat := db.habitat + [Habitat(id, t[4], t[5], t[6], t[7], t[8])],
                   links := db.links + [Link(t[2], id)]))
  {
    assert From(t, 4) == [t[4], t[5], t[6], t[7], t[8]];
  }

  /** A taxonomy row is inserted exactly when it binds fifteen values whose id
      is an integer not yet present; then only its own row is added. */
  lemma TaxonomyRowEffect(db: Db, t: Tuple)
    ensures RowLoad(TaxonomyCsv, db, t).Ok?
            <==> |t| == 16 && t[1].Int? && t[1].i !in db.taxonomy
    ensures RowLoad(TaxonomyCsv, db, t).Ok? ==>
              RowLoad(TaxonomyCsv, db, t).value == db.(taxonomy := db.taxonomy[t[1].i := t[1..]])
    ensures |t| == 16 && t[1].Int? && t[1].i in db.taxonomy ==>
              RowLoad(TaxonomyCsv, db, t) == Err(DuplicateTaxonomyId(t[1].i))
  {
    if |t| >= 1 {
      assert From(t, 1) == t[1..];
    }
  }

  /** A common_names.csv row is inserted exactly when the tuple has six
      positions; the row holds tuple[1], tuple[3], tuple[4] and tuple[5]
      (CSV column 1 dropped) under a fresh rowid, and nothing else changes. */
  lemma CommonNameRowEffect(db: Db, t: Tuple)
    ensures RowLoad(CommonNamesCsv, db, t).Ok? <==> |t| == 6
    ensures |t| == 6 ==>
      var id := NewRowid(CommonNameIds(db.commonNames));
      && id !in CommonNameIds(db.commonNames)
      && RowLoad(CommonNamesCsv, db, t).value
         == db.(commonNames := db.commonNames + [CommonName(id, t[1], t[3], t[4], t[5])])
  {
    var values := Slice(t, 1, 2) + From(t, 3);
    if |t| == 6 {
      assert values == [t[1], t[3], t[4], t[5]];
    } else if |t| < 3 {
      assert |values| <= 1;
    } else {
      assert |values| == |t| - 2;
    }
  }

  lemma TaxonomyInsertKeeps(db: Db, values: seq<Value>)
    requires WellFormed(db) && TaxonomyInsert(db, values).Ok?
    ensures WellFormed(TaxonomyInsert(db, values).value)
    ensures LinksResolve(db) ==> LinksResolve(TaxonomyInsert(db, values).value)
    ensures Extends(db, TaxonomyInsert(db, values).value)
  {
  }

  /** HABITAT_INSERT keeps the constraints; the rowid it reports is the id of
      the row it appended. */
  lemma HabitatInsertKeeps(db: Db, values: seq<Value>)
    requires WellFormed(db) && HabitatInsert(db, values).Ok?
    ensures var (d, u) := HabitatInsert(db, values).value;
      && WellFormed(d) && Extends(db, d) && (LinksResolve(db) ==> LinksResolve(d))
      && (u.Inserted? ==> u.rowid !in HabitatIds(db.habitat) && u.rowid in HabitatIds(d.habitat))
  {
    var (d, u) := HabitatInsert(db, values).value;
    if u.Inserted? {
      var row := Habitat(u.rowid, values[0], values[1], values[2], values[3], values[4]);
      assert d.habitat == db.habitat + [row];
      HabitatIdsAppend(db.habitat, row);
      assert HabitatIds(d.habitat)[|db.habitat|] == u.rowid;
    }
  }

  lemma CommonNameInsertKeeps(db: Db, values: seq<Value>)
    requires WellFormed(db) && CommonNameInsert(db, values).Ok?
    ensures WellFormed(CommonNameInsert(db, values).value)
    ensures LinksResolve(db) ==> LinksResolve(CommonNameInsert(db, values).value)
    ensures Extends(db, CommonNameInsert(db, values).value)
  {
    var id := NewRowid(CommonNameIds(db.commonNames));
    CommonNameIdsAppend(db.commonNames, CommonName(id, values[0], values[1], values[2], values[3]));
  }

  lemma HabitatRowKeeps(db: Db, t: Tuple)
    requires WellFormed(db) && RowLoad(HabitatsCsv, db, t).Ok?
    ensures WellFormed(RowLoad(HabitatsCsv, db, t).value)
    ensures LinksResolve(db) ==> LinksResolve(RowLoad(HabitatsCsv, db, t).value)
    ensures LinksResolveFrom(RowLoad(HabitatsCsv, db, t).value, |db.links|)
    ensures Extends(db, RowLoad(HabitatsCsv, db, t).value)
  {
    HabitatInsertKeeps(db, From(t, 4));
    var (d, u) := HabitatInsert(db, From(t, 4)).value;
    var id;
    if u.Ignored? {
      var found := IdsWithCode(d.habitat, t[4]);
      assert found[0] in found;
      var k :| 0 <= k < |d.habitat| && d.habitat[k].code == t[4] && d.habitat[k].id == found[0];
      assert HabitatIds(d.habitat)[k] == found[0];
      id := found[0];
    } else {
      id := u.rowid;
    }
    assert RowLoad(HabitatsCsv, db, t).value == LinkInsert(d, t[2], id);
    assert id in HabitatIds(d.habitat);
  }

  /** The m2m rows added from `a` to `b` still resolve in `c`, which extends `b`
      and resolves the rows it added in turn. */
  lemma NewLinksStayResolved(a: Db, b: Db, c: Db)
    requires Extends(a, b) && Extends(b, c)
    requires LinksResolveFrom(b, |a.links|) && LinksResolveFrom(c, |b.links|)
    ensures LinksResolveFrom(c, |a.links|)
  {
    forall k | |a.links| <= k < |c.links|
      ensures c.links[k].habitat in HabitatIds(c.habitat)
    {
      if k < |b.links| {
        assert c.links[k] == b.links[k];
        var j :| 0 <= j < |b.habitat| && HabitatIds(b.habitat)[j] == b.links[k].habitat;
        assert HabitatIds(c.habitat)[j] == HabitatIds(b.habitat)[j];
      }
    }
  }

  /** Every successful loop iteration keeps the constraints and only adds rows. */
  lemma RowKeeps(f: Csv, db: Db, t: Tuple)
    requires WellFormed(db) && RowLoad(f, db, t).Ok?
    ensures WellFormed(RowLoad(f, db, t).value)
    ensures LinksResolve(db) ==> LinksResolve(RowLoad(f, db, t).value)
    ensures LinksResolveFrom(RowLoad(f, db, t).value, |db.links|)
    ensures Extends(db, RowLoad(f, db, t).value)
  {
    match f
    case TaxonomyCsv => TaxonomyInsertKeeps(db, From(t, 1));
    case HabitatsCsv => HabitatRowKeeps(db, t);
    case CommonNamesCsv => CommonNameInsertKeeps(db, Slice(t, 1, 2) + From(t, 3));
  }

  lemma {:induction false} RowsKeep(f: Csv, db: Db, rows: seq<Tuple>)
    requires WellFormed(db) && RowsLoad(f, db, rows).Ok?
    ensures WellFormed(RowsLoad(f, db, rows).value)
    ensures LinksResolve(db) ==> LinksResolve(RowsLoad(f, db, rows).value)
    ensures LinksResolveFrom(RowsLoad(f, db, rows).value, |db.links|)
    ensures Extends(db, RowsLoad(f, db, rows).value)
    decreases |rows|
  {
    if rows != [] {
      RowKeeps(f, db, rows[0]);
      var d := RowLoad(f, db, rows[0]).value;
      RowsKeep(f, d, rows[1..]);
      NewLinksStayResolved(db, d, RowsLoad(f, d, rows[1..]).value);
    }
  }

  lemma DirectoryKeeps(db: Db, e: Entry)
    requires WellFormed(db) && DirectoryLoad(db, e).Ok?
    ensures WellFormed(DirectoryLoad(db, e).value)
    ensures LinksResolve(db) ==> LinksResolve(DirectoryLoad(db, e).value)
    ensures LinksResolveFrom(DirectoryLoad(db, e).value, |db.links|)
    ensures Extends(db, DirectoryLoad(db, e).value)
  {
    if !Skipped(e) {
      RowsKeep(TaxonomyCsv, db, e.taxonomy.rows);
      var d1 := RowsLoad(TaxonomyCsv, db, e.taxonomy.rows).value;
      RowsKeep(HabitatsCsv, d1, e.habitats.rows);
      var d2 := RowsLoad(HabitatsCsv, d1, e.habitats.rows).value;
      RowsKeep(CommonNamesCsv, d2, e.commonNames.rows);
      NewLinksStayResolved(db, d1, d2);
      NewLinksStayResolved(db, d2, RowsLoad(CommonNamesCsv, d2, e.commonNames.rows).value);
    }
  }

  /** After any successful run the codes are still unique and non-NULL, rowids
      are distinct, every m2m row the run added names an existing habitat row
      (and so does every earlier one if it did before), and no earlier row has
      changed. */
  lemma {:induction false} RunKeeps(db: Db, es: seq<Entry>)
    requires WellFormed(db) && RunLoad(db, es).Ok?
    ensures WellFormed(RunLoad(db, es).value)
    ensures LinksResolve(db) ==> LinksResolve(RunLoad(db, es).value)
    ensures LinksResolveFrom(RunLoad(db, es).value, |db.links|)
    ensures Extends(db, RunLoad(db, es).value)
    decreases |es|
  {
    if es != [] {
      DirectoryKeeps(db, es[0]);
      var d := DirectoryLoad(db, es[0]).value;
      RunKeeps(d, es[1..]);
      NewLinksStayResolved(db, d, RunLoad(d, es[1..]).value);
    }
  }

  /** One habitats.csv row appends one m2m row linking its tuple[2] to the
      habitat row holding its code. */
  lemma HabitatRowLinks(db: Db, t: Tuple)
    requires WellFormed(db) && RowLoad(HabitatsCsv, db, t).Ok?
    ensures var d := RowLoad(HabitatsCsv, db, t).value;
      |d.links| == |db.links| + 1 && LinksTuple(d, d.links[|db.links|], t)
  {
    assert |t| == 9 by {
      assert |From(t, 4)| == HabitatColumns;
    }
    var d := RowLoad(HabitatsCsv, db, t).value;
    HabitatRowKeeps(db, t);
    if HasCode(db.habitat, t[4]) {
      var k :| 0 <= k < |db.habitat| && db.habitat[k].code == t[4];
      ExistingCodeResolves(db, t, k);
      LookupFindsOne(db.habitat, k);
    } else {
      NewCodeInserted(db, t);
      LookupFindsOne(d.habitat, |db.habitat|);
    }
  }

  /** A link that resolves keeps resolving once rows are only added. */
  lemma LinksTupleKept(a: Db, b: Db, l: Link, t: Tuple)
    requires LinksTuple(a, l, t) && a.habitat <= b.habitat && CodesUnique(b.habitat)
    ensures LinksTuple(b, l, t)
  {
    assert l.habitat in IdsWithCode(a.habitat, t[4]);
    var k :| 0 <= k < |a.habitat| && a.habitat[k].code == t[4] && a.habitat[k].id == l.habitat;
    assert b.habitat[k] == a.habitat[k];
    LookupFindsOne(b.habitat, k);
  }

  /** `ls` are the m2m rows of `rows`, one for one, in order. */
  predicate LinksMatch(d: Db, ls: seq<Link>, rows: seq<Tuple>)
    decreases |rows|
  {
    && |ls| == |rows|
    && (rows != [] ==> LinksTuple(d, ls[0], rows[0]) && LinksMatch(d, ls[1..], rows[1..]))
  }

  lemma {:induction false} LinksMatchAt(d: Db, ls: seq<Link>, rows: seq<Tuple>)
    requires LinksMatch(d, ls, rows)
    ensures |ls| == |rows| && forall i :: 0 <= i < |rows| ==> LinksTuple(d, ls[i], rows[i])
    decreases |rows|
  {
    if rows != [] {
      LinksMatchAt(d, ls[1..], rows[1..]);
      forall i | 1 <= i < |rows|
        ensures LinksTuple(d, ls[i], rows[i])
      {
        assert ls[1..][i - 1] == ls[i] && rows[1..][i - 1] == rows[i];
      }
    }
  }

  lemma {:induction false} LinksMatchKept(a: Db, b: Db, ls: seq<Link>, rows: seq<Tuple>)
    requires LinksMatch(a, ls, rows) && a.habitat <= b.habitat && CodesUnique(b.habitat)
    ensures LinksMatch(b, ls, rows)
    decreases |rows|
  {
    if rows != [] {
      LinksTupleKept(a, b, ls[0], rows[0]);
      LinksMatchKept(a, b, ls[1..], rows[1..]);
    }
  }

  lemma {:induction false} HabitatRowsLinkMatch(db: Db, rows: seq<Tuple>, d: Db)
    requires WellFormed(db) && RowsLoad(HabitatsCsv, db, rows) == Ok(d)
    ensures |db.links| <= |d.links| && LinksMatch(d, d.links[|db.links|..], rows)
    decreases |rows|
  {
    if rows != [] {
      RowsLoadStep(HabitatsCsv, db, rows);
      var d1 := RowLoad(HabitatsCsv, db, rows[0]).value;
      HabitatRowKeeps(db, rows[0]);
      HabitatRowLinks(db, rows[0]);
      RowsKeep(HabitatsCsv, d1, rows[1..]);
      HabitatRowsLinkMatch(d1, rows[1..], d);
      var ls := d.links[|db.links|..];
      assert ls[0] == d1.links[|db.links|];
      LinksTupleKept(d1, d, ls[0], rows[0]);
      assert ls[1..] == d.links[|d1.links|..];
    }
  }

  /** Each habitats.csv row appends exactly one m2m row, in order, linking
      its tuple[2] to the one habitat row holding its code; equal rows give
      equal, separate m2m rows. */
  lemma HabitatRowsLink(db: Db, rows: seq<Tuple>, d: Db)
    requires WellFormed(db) && RowsLoad(HabitatsCsv, db, rows) == Ok(d)
    ensures |d.links| == |db.links| + |rows|
    ensures forall i :: 0 <= i < |rows| ==> LinksTuple(d, d.links[|db.links| + i], rows[i])
  {
    HabitatRowsLinkMatch(db, rows, d);
    var ls := d.links[|db.links|..];
    LinksMatchAt(d, ls, rows);
    assert forall i :: 0 <= i < |rows| ==> ls[i] == d.links[|db.links| + i];
  }

  /** A habitats.csv row whose code the table lacks appends its own
      tuple[4:9] as the last habitat row; any other row leaves absent codes
      absent. */
  lemma HabitatRowCodes(db: Db, t: Tuple, c: Value)
    requires WellFormed(db) && RowLoad(HabitatsCsv, db, t).Ok? && !HasCode(db.habitat, c)
    ensures var d := RowLoad(HabitatsCsv, db, t).value;
      && |t| == 9
      && (t[4] == c ==> |d.habitat| == |db.habitat| + 1 && HabitatFields(d.habitat[|db.habitat|]) == t[4..])
      && (t[4] != c ==> !HasCode(d.habitat, c))
  {
    assert |From(t, 4)| == HabitatColumns && From(t, 4)[0] == t[4];
    if HasCode(db.habitat, t[4]) {
      var m :| 0 <= m < |db.habitat| && db.habitat[m].code == t[4];
      ExistingCodeResolves(db, t, m);
    } else {
      NewCodeInserted(db, t);
    }
  }

  /** The first row of habitats.csv with a code the table lacks decides the
      habitat row of that code: its name, majorImportance, season and
      suitability are that row's tuple[5:9]. */
  lemma {:induction false} FirstOccurrenceWins(db: Db, rows: seq<Tuple>, k: nat, d: Db)
    requires WellFormed(db) && RowsLoad(HabitatsCsv, db, rows) == Ok(d)
    requires k < |rows| && |rows[k]| == 9 && !HasCode(db.habitat, rows[k][4])
    requires forall j :: 0 <= j < k ==> |rows[j]| == 9 && rows[j][4] != rows[k][4]
    ensures exists i :: 0 <= i < |d.habitat| && HabitatFields(d.habitat[i]) == rows[k][4..]
    decreases |rows|
  {
    RowsLoadStep(HabitatsCsv, db, rows);
    var c := rows[k][4];
    var d1 := RowLoad(HabitatsCsv, db, rows[0]).value;
    HabitatRowKeeps(db, rows[0]);
    HabitatRowCodes(db, rows[0], c);
    if k == 0 {
      RowsKeep(HabitatsCsv, d1, rows[1..]);
      var i := |db.habitat|;
      assert d.habitat[i] == d1.habitat[i];
    } else {
      forall j | 0 <= j < k - 1
        ensures |rows[1..][j]| == 9 && rows[1..][j][4] != rows[1..][k - 1][4]
      {
        assert rows[1..][j] == rows[j + 1];
      }
      FirstOccurrenceWins(d1, rows[1..], k - 1, d);
    }
  }

  /** A run where every entry is skipped leaves all four tables as they are. */
  lemma {:induction false} SkippedEntriesChangeNothing(db: Db, es: seq<Entry>)
    requires forall i :: 0 <= i < |es| ==> Skipped(es[i])
    ensures RunLoad(db, es) == Ok(db)
    decreases |es|
  {
    if es != [] {
      SkippedEntriesChangeNothing(db, es[1..]);
    }
  }

  /** After a successful taxonomy loop every row's id is a key, holding that row. */
  lemma {:induction false} TaxonomyRowsStored(db: Db, rows: seq<Tuple>)
    requires WellFormed(db) && RowsLoad(TaxonomyCsv, db, rows).Ok?
    ensures var d := RowsLoad(TaxonomyCsv, db, rows).value;
      forall i :: 0 <= i < |rows| ==>
        |rows[i]| == 16 && rows[i][1].Int? && rows[i][1].i in d.taxonomy && d.taxonomy[rows[i][1].i] == rows[i][1..]
    decreases |rows|
  {
    if rows != [] {
      TaxonomyRowEffect(db, rows[0]);
      var d1 := RowLoad(TaxonomyCsv, db, rows[0]).value;
      RowKeeps(TaxonomyCsv, db, rows[0]);
      RowsKeep(TaxonomyCsv, d1, rows[1..]);
      TaxonomyRowsStored(d1, rows[1..]);
      forall i | 1 <= i < |rows|
        ensures |rows[i]| == 16 && rows[i][1].Int? && rows[i][1].i in RowsLoad(TaxonomyCsv, db, rows).value.taxonomy
        ensures RowsLoad(TaxonomyCsv, db, rows).value.taxonomy[rows[i][1].i] == rows[i][1..]
      {
        assert rows[1..][i - 1] == rows[i];
      }
    }
  }

  /** After a successful run the first taxonomy row of every directory read
      has its id stored. */
  lemma {:induction false} RunStoresFirstIds(db: Db, es: seq<Entry>)
    requires WellFormed(db) && RunLoad(db, es).Ok?
    ensures var d := RunLoad(db, es).value;
      forall j :: 0 <= j < |es| && LoadsTaxonomy(es[j]) ==>
        var t := es[j].taxonomy.rows[0];
        |t| == 16 && t[1].Int? && t[1].i in d.taxonomy
    decreases |es|
  {
    if es != [] {
      var d1 := DirectoryLoad(db, es[0]).value;
      DirectoryKeeps(db, es[0]);
      RunKeeps(d1, es[1..]);
      RunStoresFirstIds(d1, es[1..]);
      if LoadsTaxonomy(es[0]) {
        TaxonomyRowsStored(db, es[0].taxonomy.rows);
        var d0 := RowsLoad(TaxonomyCsv, db, es[0].taxonomy.rows).value;
        RowsKeep(TaxonomyCsv, db, es[0].taxonomy.rows);
        DirectoryKeeps(db, es[0]);
        assert Extends(d0, d1) by {
          var d2 := RowsLoad(HabitatsCsv, d0, es[0].habitats.rows).value;
          RowsKeep(HabitatsCsv, d0, es[0].habitats.rows);
          RowsKeep(CommonNamesCsv, d2, es[0].commonNames.rows);
        }
      }
      forall j | 1 <= j < |es| && LoadsTaxonomy(es[j])
        ensures var t := es[j].taxonomy.rows[0];
          |t| == 16 && t[1].Int? && t[1].i in RunLoad(db, es).value.taxonomy
      {
        assert es[1..][j - 1] == es[j];
      }
    }
  }

  /** A run that reaches a directory whose first taxonomy id is already
      stored aborts. */
  lemma {:induction false} StoredIdAborts(db: Db, es: seq<Entry>, j: nat)
    requires WellFormed(db)
    requires j < |es| && LoadsTaxonomy(es[j])
    requires var t := es[j].taxonomy.rows[0]; |t| == 16 && t[1].Int? && t[1].i in db.taxonomy
    ensures RunLoad(db, es).Err?
    decreases |es|
  {
    if j == 0 {
      TaxonomyRowEffect(db, es[0].taxonomy.rows[0]);
    } else if DirectoryLoad(db, es[0]).Ok? {
      DirectoryKeeps(db, es[0]);
      assert es[1..][j - 1] == es[j];
      StoredIdAborts(DirectoryLoad(db, es[0]).value, es[1..], j - 1);
    }
  }

  /** Loading the same directories a second time into the database the first
      run produced aborts, once any directory has a taxonomy row. */
  lemma RunTwiceAborts(db: Db, es: seq<Entry>, j: nat)
    requires WellFormed(db) && RunLoad(db, es).Ok?
    requires j < |es| && LoadsTaxonomy(es[j])
    ensures RunLoad(RunLoad(db, es).value, es).Err?
  {
    RunKeeps(db, es);
    RunStoresFirstIds(db, es);
    StoredIdAborts(RunLoad(db, es).value, es, j);
  }
}
