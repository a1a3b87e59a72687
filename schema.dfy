/**
 The four tables of the SQLite database that iucn2sqlite.py fills, as values:
 taxonomy, habitat, taxonomy_habitat_m2m and common_names, together with the
 constraints their DDL declares (a unique taxonomy id, a unique and non-NULL
 habitat code, SQLite-assigned rowids for habitat and common_names).
 */
module Schema {

  /** A value bound to an SQL parameter: what a parsed CSV cell becomes. */
  datatype Value = Int(i: int) | Text(s: string) | Null

  /** One tuple of DataFrame.itertuples(): position 0 holds the row index,
      position k >= 1 holds CSV column k - 1. */
  type Tuple = seq<Value>

  const TaxonomyColumns: nat := 15
  const HabitatColumns: nat := 5
  const CommonNameColumns: nat := 4

  /** Python's t[lo:hi] for non-negative bounds: bounds past the end are clipped. */
  function Slice(t: Tuple, lo: nat, hi: nat): (s: seq<Value>)
    ensures |s| == if lo <= hi && lo <= |t| then (if hi <= |t| then hi else |t|) - lo else 0
    ensures forall k :: 0 <= k < |s| ==> s[k] == t[lo + k]
  {
    var h := if hi <= |t| then hi else |t|;
    if lo <= h then t[lo..h] else []
  }

  /** Python's t[lo:]. */
  function From(t: Tuple, lo: nat): (s: seq<Value>)
    ensures |s| == if lo <= |t| then |t| - lo else 0
    ensures forall k :: 0 <= k < |s| ==> s[k] == t[lo + k]
  {
    Slice(t, lo, |t|)
  }

  /** A row of table habitat; majorImportance, season and suitability live here. */
  datatype Habitat = Habitat(id: int, code: Value, name: Value,
                             majorImportance: Value, season: Value, suitability: Value)

  /** A row of table taxonomy_habitat_m2m: two columns, no key. */
  datatype Link = Link(taxonomy: Value, habitat: int)

  /** A row of table common_names. */
  datatype CommonName = CommonName(id: int, taxonomy: Value, name: Value, language: Value, main: Value)

  /** The whole database: taxonomy is keyed by its INTEGER PRIMARY KEY and
      holds the fifteen inserted values; the other tables in rowid order. */
  datatype Db = Db(taxonomy: map<int, seq<Value>>, habitat: seq<Habitat>,
                   links: seq<Link>, commonNames: seq<CommonName>)

  /** The five values HABITAT_INSERT binds for a row. */
  function HabitatFields(h: Habitat): seq<Value>
  {
    [h.code, h.name, h.majorImportance, h.season, h.suitability]
  }

  function HabitatIds(hs: seq<Habitat>): seq<int>
  {
    seq(|hs|, k requires 0 <= k < |hs| => hs[k].id)
  }

  function CommonNameIds(cs: seq<CommonName>): seq<int>
  {
    seq(|cs|, k requires 0 <= k < |cs| => cs[k].id)
  }

  /** The largest rowid of a non-empty table. */
  function MaxRowid(ids: seq<int>): (m: int)
    requires ids != []
    ensures m in ids
    ensures forall k :: 0 <= k < |ids| ==> ids[k] <= m
  {
    if |ids| == 1 then ids[0]
    else
      var front := ids[..|ids| - 1];
      var m := MaxRowid(front);
      var last := ids[|ids| - 1];
      assert forall k :: 0 <= k < |ids| - 1 ==> front[k] == ids[k];
      if last > m then last else m
  }

  /** The rowid SQLite gives a new row of a table without AUTOINCREMENT: one
      more than the largest rowid in use, 1 in an empty table. */
  function NewRowid(ids: seq<int>): (r: int)
    ensures r !in ids
    ensures ids == [] ==> r == 1
    ensures ids != [] ==> r - 1 in ids && forall k :: 0 <= k < |ids| ==> ids[k] < r
  {
    if ids == [] then 1 else MaxRowid(ids) + 1
  }

  predicate HasCode(hs: seq<Habitat>, code: Value)
  {
    exists k :: 0 <= k < |hs| && hs[k].code == code
  }

  /** `select id from habitat where code==?`: the ids of the rows holding
      `code`, in table order. */
  function IdsWithCode(hs: seq<Habitat>, code: Value): (ids: seq<int>)
    ensures |ids| <= |hs|
    ensures forall id :: id in ids <==> exists k :: 0 <= k < |hs| && hs[k].code == code && hs[k].id == id
  {
    if hs == [] then []
    else
      var rest := IdsWithCode(hs[..|hs| - 1], code);
      var last := hs[|hs| - 1];
      assert forall k :: 0 <= k < |hs| - 1 ==> hs[..|hs| - 1][k] == hs[k];
      if last.code == code then rest + [last.id] else rest
  }

  predicate Distinct(ids: seq<int>)
  {
    forall i, j :: 0 <= i < j < |ids| ==> ids[i] != ids[j]
  }

  /** Constraint `code VARCHAR(16) UNIQUE` of table habitat. */
  predicate CodesUnique(hs: seq<Habitat>)
  {
    forall i, j :: 0 <= i < j < |hs| ==> hs[i].code != hs[j].code
  }

  /** Everything the schema and the rowid rules guarantee about a database. */
  predicate WellFormed(db: Db)
  {
    && (forall id :: id in db.taxonomy ==>
          |db.taxonomy[id]| == TaxonomyColumns && db.taxonomy[id][0] == Int(id))
    && CodesUnique(db.habitat)
    && (forall k :: 0 <= k < |db.habitat| ==> db.habitat[k].code != Null)
    && Distinct(HabitatIds(db.habitat))
    && Distinct(CommonNameIds(db.commonNames))
  }

  /** `b` only adds rows to `a`: every row of `a` is still in `b`, unchanged. */
  predicate Extends(a: Db, b: Db)
  {
    && (forall id :: id in a.taxonomy ==> id in b.taxonomy && b.taxonomy[id] == a.taxonomy[id])
    && a.habitat <= b.habitat
    && a.links <= b.links
    && a.commonNames <= b.commonNames
  }

  /** The m2m rows from position `lo` on name ids of existing habitat rows. */
  predicate LinksResolveFrom(db: Db, lo: nat)
  {
    forall k :: lo <= k < |db.links| ==> db.links[k].habitat in HabitatIds(db.habitat)
  }

  /** Every m2m row names the id of an existing habitat row. */
  predicate LinksResolve(db: Db)
  {
    forall k :: 0 <= k < |db.links| ==> db.links[k].habitat in HabitatIds(db.habitat)
  }

  /** With unique codes the lookup by an existing code finds exactly that row. */
  lemma {:induction false} LookupFindsOne(hs: seq<Habitat>, k: nat)
    requires CodesUnique(hs) && k < |hs|
    ensures IdsWithCode(hs, hs[k].code) == [hs[k].id]
  {
    var front := hs[..|hs| - 1];
    assert CodesUnique(front);
    if k == |hs| - 1 {
      assert !HasCode(front, hs[k].code);
      LookupFindsNone(front, hs[k].code);
    } else {
      assert front[k] == hs[k];
      LookupFindsOne(front, k);
    }
  }

  /** The lookup by a code no row holds finds nothing. */
  lemma LookupFindsNone(hs: seq<Habitat>, code: Value)
    requires !HasCode(hs, code)
    ensures IdsWithCode(hs, code) == []
  {
  }
}
