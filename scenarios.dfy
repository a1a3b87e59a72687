/**
 Concrete runs of the loading loop on small directories: one directory with
 one row per file, and a habitats.csv that names the same code twice.
 */
module Scenarios {
  import opened Schema
  import opened Ingest
  import opened Properties

  const EmptyDb := Db(map[], [], [], [])

  /** A taxonomy.csv tuple for id `id`: the index, then fifteen columns. */
  function TaxonRow(id: int): Tuple
  {
    [Int(0), Int(id), Text("Panthera leo"), Text("ANIMALIA"), Text("CHORDATA"), Text("CARNIVORA"),
     Text("MAMMALIA"), Text("FELIDAE"), Text("Panthera"), Text("leo"), Null, Null, Null, Null,
     Text("(Linnaeus, 1758)"), Null]
  }

  /** A habitats.csv tuple: index, an ignored column, taxon id, another
      ignored column, then code, name, majorImportance, season, suitability. */
  function HabitatRow(taxon: int, code: string, name: string, season: string): Tuple
  {
    [Int(0), Int(15951), Int(taxon), Text("Global"), Text(code), Text(name), Text("Yes"), Text(season), Text("garbage")]
  }

  /** A common_names.csv tuple: index, taxon id, an ignored column, name, language, main. */
  function NameRow(taxon: int): Tuple
  {
    [Int(0), Int(taxon), Int(15951), Text("Lion"), Text("English"), Int(1)]
  }

  /** The habitat row that the first "FOR" row of the examples below leaves. */
  const ForestRow := Habitat(1, Text("FOR"), Text("Forest"), Text("Yes"), Text("breeding"), Text("garbage"))

  /** The tables after the taxonomy loop of OneDirectory. */
  const AfterTaxon := Db(map[1 := TaxonRow(1)[1..]], [], [], [])

  /** The tables after the habitats loop of OneDirectory. */
  const AfterHabitats := AfterTaxon.(habitat := [ForestRow], links := [Link(Int(1), 1)])

  /** The habitats loop of OneDirectory: one habitat row holding "Yes",
      "breeding" and "garbage" verbatim, and a two-column m2m row. */
  lemma OneDirectoryHabitats()
    ensures RowsLoad(HabitatsCsv, AfterTaxon, [HabitatRow(1, "FOR", "Forest", "breeding")]) == Ok(AfterHabitats)
  {
    var d1 := AfterTaxon;
    var t := HabitatRow(1, "FOR", "Forest", "breeding");
    assert HabitatIds(d1.habitat) == [];
    assert t[2] == Int(1) && t[4] == Text("FOR") && t[5] == Text("Forest");
    assert t[6] == Text("Yes") && t[7] == Text("breeding") && t[8] == Text("garbage");
    NewCodeInserted(d1, t);
    assert d1.habitat + [ForestRow] == [ForestRow] && d1.links + [Link(Int(1), 1)] == [Link(Int(1), 1)];
    assert RowLoad(HabitatsCsv, d1, t) == Ok(AfterHabitats);
  }

  /** The common names loop of OneDirectory: the row drops tuple[2]. */
  lemma OneDirectoryNames()
    ensures RowsLoad(CommonNamesCsv, AfterHabitats, [NameRow(1)])
            == Ok(AfterHabitats.(commonNames := [CommonName(1, Int(1), Text("Lion"), Text("English"), Int(1))]))
  {
    var d2 := AfterHabitats;
    assert CommonNameIds(d2.commonNames) == [];
    CommonNameRowEffect(d2, NameRow(1));
    var c := CommonName(1, Int(1), Text("Lion"), Text("English"), Int(1));
    assert NameRow(1)[1] == Int(1) && NameRow(1)[3] == Text("Lion");
    assert NameRow(1)[4] == Text("English") && NameRow(1)[5] == Int(1);
    assert d2.commonNames + [c] == [c];
    assert RowLoad(CommonNamesCsv, d2, NameRow(1)) == Ok(d2.(commonNames := [c]));
  }

  /** One directory with one row in each file: one row per table; the
      habitat row keeps "Yes", "breeding" and "garbage" verbatim and the m2m
      row has only the taxon and the habitat id. */
  lemma OneDirectory()
    ensures RunLoad(EmptyDb, [Entry(true, Present([TaxonRow(1)]),
                                    Present([HabitatRow(1, "FOR", "Forest", "breeding")]),
                                    Present([NameRow(1)]))])
            == Ok(Db(map[1 := TaxonRow(1)[1..]], [ForestRow], [Link(Int(1), 1)],
                     [CommonName(1, Int(1), Text("Lion"), Text("English"), Int(1))]))
  {
    var e := Entry(true, Present([TaxonRow(1)]), Present([HabitatRow(1, "FOR", "Forest", "breeding")]),
                   Present([NameRow(1)]));
    TaxonomyRowEffect(EmptyDb, TaxonRow(1));
    assert RowsLoad(TaxonomyCsv, EmptyDb, e.taxonomy.rows) == Ok(AfterTaxon);
    OneDirectoryHabitats();
    OneDirectoryNames();
    assert DirectoryLoad(EmptyDb, e) == RunLoad(EmptyDb, [e]);
  }

  /** A second row with a code already present adds only an m2m row, pointing at the existing id. */
  lemma SecondRowLinksOnly()
    ensures RowsLoad(HabitatsCsv, Db(map[], [ForestRow], [Link(Int(1), 1)], []),
                     [HabitatRow(2, "FOR", "Woodland", "passage")])
            == Ok(Db(map[], [ForestRow], [Link(Int(1), 1), Link(Int(2), 1)], []))
  {
    var d1 := Db(map[], [ForestRow], [Link(Int(1), 1)], []);
    var t2 := HabitatRow(2, "FOR", "Woodland", "passage");
    assert t2[2] == Int(2) && t2[4] == Text("FOR");
    assert WellFormed(d1);
    ExistingCodeResolves(d1, t2, 0);
    var d2 := Db(map[], [ForestRow], [Link(Int(1), 1), Link(Int(2), 1)], []);
    assert d1.links + [Link(Int(2), 1)] == d2.links;
    assert RowLoad(HabitatsCsv, d1, t2) == Ok(d2);
  }

  /** Two habitats.csv rows with code "FOR": one habitat row, named after the
      first, and two m2m rows with the same habitat id; the second row's name
      and season are stored nowhere. */
  lemma SameCodeTwice()
    ensures RowsLoad(HabitatsCsv, EmptyDb, [HabitatRow(1, "FOR", "Forest", "breeding"),
                                            HabitatRow(2, "FOR", "Woodland", "passage")])
            == Ok(Db(map[], [ForestRow], [Link(Int(1), 1), Link(Int(2), 1)], []))
  {
    var t1 := HabitatRow(1, "FOR", "Forest", "breeding");
    var t2 := HabitatRow(2, "FOR", "Woodland", "passage");
    assert HabitatIds(EmptyDb.habitat) == [];
    assert t1[2] == Int(1) && t1[4] == Text("FOR") && t1[5] == Text("Forest");
    assert t1[6] == Text("Yes") && t1[7] == Text("breeding") && t1[8] == Text("garbage");
    NewCodeInserted(EmptyDb, t1);
    assert EmptyDb.habitat + [ForestRow] == [ForestRow];
    assert EmptyDb.links + [Link(Int(1), 1)] == [Link(Int(1), 1)];
    var d1 := Db(map[], [ForestRow], [Link(Int(1), 1)], []);
    assert RowLoad(HabitatsCsv, EmptyDb, t1) == Ok(d1);
    SecondRowLinksOnly();
    assert [t1, t2][1..] == [t2];
  }
}
