/** The category table: creation, and the seed script that merges the retired
    "Araba" (car) category into "Araç" and then makes sure every default
    category exists without overwriting one that is already there. */
module Catalog {
  import opened Common
  import opened Ledger

  /** Categories in insertion order and the next id the table hands out. */
  datatype Catalog = Catalog(cats: seq<Category>, nextId: nat)

  /** Names are unique (the schema's unique index); ids are unique and
      below `nextId`. */
  predicate ValidCatalog(c: Catalog)
  {
    && (forall i, j :: 0 <= i < j < |c.cats| ==> c.cats[i].name != c.cats[j].name)
    && (forall i, j :: 0 <= i < j < |c.cats| ==> c.cats[i].id != c.cats[j].id)
    && (forall i :: 0 <= i < |c.cats| ==> c.cats[i].id < c.nextId)
  }

  predicate HasName(cats: seq<Category>, name: string)
  {
    exists i :: 0 <= i < |cats| && cats[i].name == name
  }

  /** `findUnique({ where: { name } })`: the position of the category with
      that name, or -1. */
  function NameIndex(cats: seq<Category>, name: string): (r: int)
    ensures -1 <= r < |cats|
    ensures r == -1 <==> !HasName(cats, name)
    ensures r >= 0 ==> cats[r].name == name && forall i :: 0 <= i < r ==> cats[i].name != name
  {
    if cats == [] then -1
    else if cats[0].name == name then 0
    else
      var r := NameIndex(cats[1..], name);
      assert forall i :: 0 < i < |cats| ==> cats[i] == cats[1..][i - 1];
      if r == -1 then -1 else r + 1
  }

  /** `upsert({ where: { name }, update: {}, create })`: an existing category
      is returned untouched; otherwise one is created. */
  function UpsertByName(c: Catalog, name: string, color: string): (res: (Catalog, nat))
    ensures ValidCatalog(c) ==> ValidCatalog(res.0)
    ensures HasName(res.0.cats, name)
    ensures HasName(c.cats, name) ==> res == (c, c.cats[NameIndex(c.cats, name)].id)
    ensures !HasName(c.cats, name) ==>
      res.0 == Catalog(c.cats + [Category(c.nextId, name, Some(color))], c.nextId + 1) && res.1 == c.nextId
  {
    var i := NameIndex(c.cats, name);
    if i >= 0 then (c, c.cats[i].id)
    else
      var c' := Catalog(c.cats + [Category(c.nextId, name, Some(color))], c.nextId + 1);
      assert c'.cats[|c.cats|].name == name;
      (c', c.nextId)
  }

  /** `POST /api/categories`: create a category. A missing name or one
      already taken makes the create fail; the table is then unchanged. */
  function CreateCategory(c: Catalog, name: Option<string>, color: Option<string>): (res: (Catalog, Result<Category>))
    ensures ValidCatalog(c) ==> ValidCatalog(res.0)
    ensures res.1.Ok? <==> name.Some? && !HasName(c.cats, name.value)
    ensures res.1.Ok? ==> res.0.cats == c.cats + [res.1.value] && res.1.value == Category(c.nextId, name.value, color)
    ensures res.1.Err? ==> res.0 == c
  {
    if name.None? || NameIndex(c.cats, name.value) >= 0 then (c, Err("Failed to create category"))
    else
      var created := Category(c.nextId, name.value, color);
      (Catalog(c.cats + [created], c.nextId + 1), Ok(created))
  }

  // ------------------------------------------------------------- seeding

  datatype Default = Default(name: string, color: string)

  const MergedName := "Araba"
  const CarName := "Ara\U{E7}"
  const CarColor := "#96CEB4"

  /** The default categories, in the order the seed script upserts them. */
  const Defaults: seq<Default> := [
    Default("Yemek", "#FF6B6B"),
    Default("Market", "#4ECDC4"),
    Default("Giyim", "#45B7D1"),
    Default(CarName, CarColor),
    Default("Abonelik", "#FFEAA7"),
    Default("E\U{11F}lence", "#DDA0DD"),
    Default("Elektronik", "#98D8C8"),
    Default("Ula\U{15F}\U{131}m", "#F7DC6F"),
    Default("Di\U{11F}er", "#BB8FCE"),
    Default("Faiz", "#AED6F1")
  ]

  predicate IsDefaultName(name: string)
  {
    exists k :: 0 <= k < |Defaults| && Defaults[k].name == name
  }

  /** The upsert loop over `defaults`. */
  function SeedDefaults(c: Catalog, defaults: seq<Default>): Catalog
  {
    if defaults == [] then c
    else
      var d := defaults[|defaults| - 1];
      UpsertByName(SeedDefaults(c, defaults[..|defaults| - 1]), d.name, d.color).0
  }

  /** `updateMany({ where: { categoryId: from }, data: { categoryId: to } })`. */
  function Repoint(rows: seq<Expense>, from: nat, to: nat): (rows': seq<Expense>)
    ensures |rows'| == |rows|
    ensures forall j :: 0 <= j < |rows| ==>
      rows'[j] == if rows[j].categoryId == Some(from) then rows[j].(categoryId := Some(to)) else rows[j]
  {
    seq(|rows|, j requires 0 <= j < |rows| =>
      if rows[j].categoryId == Some(from) then rows[j].(categoryId := Some(to)) else rows[j])
  }

  /** The first half of the seed script: if "Araba" exists, "Araç" is
      upserted, every expense of "Araba" is repointed to it and "Araba" is
      deleted. */
  function Retire(c: Catalog, rows: seq<Expense>): (Catalog, seq<Expense>)
  {
    var i := NameIndex(c.cats, MergedName);
    if i < 0 then (c, rows)
    else (Merged(c, i), Repoint(rows, c.cats[i].id, UpsertByName(c, CarName, CarColor).1))
  }

  /** The seed script: the retirement of "Araba", then every default is
      upserted. */
  function Seed(c: Catalog, rows: seq<Expense>): (Catalog, seq<Expense>)
  {
    var r := Retire(c, rows);
    (SeedDefaults(r.0, Defaults), r.1)
  }

  // ============================================================== lemmas

  /** The upsert loop keeps every category there was, unchanged and in
      place. */
  lemma {:induction false} SeedDefaultsPrefix(c: Catalog, defaults: seq<Default>)
    ensures var c' := SeedDefaults(c, defaults);
      |c.cats| <= |c'.cats| && c'.cats[..|c.cats|] == c.cats && c.nextId <= c'.nextId
    decreases |defaults|
  {
    if defaults == [] {
      assert c.cats[..|c.cats|] == c.cats;
    } else {
      var init := defaults[..|defaults| - 1];
      SeedDefaultsPrefix(c, init);
      var c1 := SeedDefaults(c, init);
      var c2 := SeedDefaults(c, defaults);
      assert c2.cats[..|c1.cats|] == c1.cats;
      assert c2.cats[..|c.cats|] == c2.cats[..|c1.cats|][..|c.cats|];
    }
  }

  lemma {:induction false} SeedDefaultsValid(c: Catalog, defaults: seq<Default>)
    requires ValidCatalog(c)
    ensures ValidCatalog(SeedDefaults(c, defaults))
    decreases |defaults|
  {
    if defaults != [] {
      SeedDefaultsValid(c, defaults[..|defaults| - 1]);
    }
  }

  /** After the upsert loop every default name is present. */
  lemma {:induction false} SeedDefaultsCovers(c: Catalog, defaults: seq<Default>)
    ensures forall k :: 0 <= k < |defaults| ==> HasName(SeedDefaults(c, defaults).cats, defaults[k].name)
    decreases |defaults|
  {
    if defaults != [] {
      var init := defaults[..|defaults| - 1];
      SeedDefaultsCovers(c, init);
      var c1 := SeedDefaults(c, init);
      var c2 := SeedDefaults(c, defaults);
      var d := defaults[|defaults| - 1];
      assert c2 == UpsertByName(c1, d.name, d.color).0;
      assert c2.cats[..|c1.cats|] == c1.cats;
      forall k | 0 <= k < |init| ensures HasName(c2.cats, defaults[k].name) {
        assert init[k] == defaults[k];
        var i :| 0 <= i < |c1.cats| && c1.cats[i].name == defaults[k].name;
        assert c2.cats[i] == c1.cats[i];
      }
    }
  }

  /** `e` is one of `defaults`, with its default color. */
  predicate IsDefaultIn(e: Category, defaults: seq<Default>)
  {
    exists k :: 0 <= k < |defaults| && e.name == defaults[k].name && e.color == Some(defaults[k].color)
  }

  /** Every category the upsert loop adds carries a default's name and that
      default's color. */
  lemma {:induction false} SeedDefaultsAdds(c: Catalog, defaults: seq<Default>)
    ensures forall j :: |c.cats| <= j < |SeedDefaults(c, defaults).cats| ==>
      IsDefaultIn(SeedDefaults(c, defaults).cats[j], defaults)
    decreases |defaults|
  {
    if defaults != [] {
      var init := defaults[..|defaults| - 1];
      var last := |defaults| - 1;
      SeedDefaultsAdds(c, init);
      var c1 := SeedDefaults(c, init);
      var c2 := SeedDefaults(c, defaults);
      assert c2 == UpsertByName(c1, defaults[last].name, defaults[last].color).0;
      forall j | |c.cats| <= j < |c2.cats| ensures IsDefaultIn(c2.cats[j], defaults) {
        if j < |c1.cats| {
          assert IsDefaultIn(c1.cats[j], init);
          var k :| 0 <= k < |init| && c1.cats[j].name == init[k].name && c1.cats[j].color == Some(init[k].color);
          assert c2.cats[j] == c1.cats[j] && init[k] == defaults[k];
        } else {
          assert c2.cats[j].name == defaults[last].name && c2.cats[j].color == Some(defaults[last].color);
        }
      }
    }
  }

  /** Once every default name is present, the upsert loop changes nothing. */
  lemma {:induction false} SeedDefaultsNoOp(c: Catalog, defaults: seq<Default>)
    requires forall k :: 0 <= k < |defaults| ==> HasName(c.cats, defaults[k].name)
    ensures SeedDefaults(c, defaults) == c
    decreases |defaults|
  {
    if defaults != [] {
      var init := defaults[..|defaults| - 1];
      assert forall k :: 0 <= k < |init| ==> init[k] == defaults[k];
      SeedDefaultsNoOp(c, init);
    }
  }

  lemma MergedNameNotDefault()
    ensures !IsDefaultName(MergedName)
  {
    forall k | 0 <= k < |Defaults| ensures Defaults[k].name != MergedName {
      assert Defaults[k].name[0] != 'A' || Defaults[k].name[1] != 'r' || |Defaults[k].name| != 5;
    }
  }

  /** The merge step: "Araç" is upserted and "Araba" (at position `i`)
      deleted. */
  function Merged(c: Catalog, i: nat): (c2: Catalog)
    requires i < |c.cats|
  {
    var c1 := UpsertByName(c, CarName, CarColor).0;
    Catalog(c1.cats[..i] + c1.cats[i + 1..], c1.nextId)
  }

  /** The id a category name resolves to, if any. */
  function IdOfName(cats: seq<Category>, name: string): Option<nat>
  {
    var i := NameIndex(cats, name);
    if i < 0 then None else Some(cats[i].id)
  }

  /** Position `a` of the merged table holds position `a` or `a + 1` of the
      table after the "Araç" upsert. */
  lemma MergedIndex(c: Catalog, i: nat)
    requires i < |c.cats|
    ensures var c1 := UpsertByName(c, CarName, CarColor).0;
      && |Merged(c, i).cats| + 1 == |c1.cats|
      && c1.cats[..|c.cats|] == c.cats
      && forall a :: 0 <= a < |Merged(c, i).cats| ==>
           Merged(c, i).cats[a] == if a < i then c1.cats[a] else c1.cats[a + 1]
  {
  }

  lemma MergedValid(c: Catalog, i: nat)
    requires ValidCatalog(c) && i < |c.cats|
    ensures ValidCatalog(Merged(c, i))
  {
    MergedIndex(c, i);
    RemoveAtValid(UpsertByName(c, CarName, CarColor).0, i);
  }

  /** Removing one category keeps the table valid. */
  lemma RemoveAtValid(c: Catalog, i: nat)
    requires ValidCatalog(c) && i < |c.cats|
    ensures ValidCatalog(Catalog(c.cats[..i] + c.cats[i + 1..], c.nextId))
  {
    var cats := c.cats[..i] + c.cats[i + 1..];
    assert forall a :: 0 <= a < |cats| ==> cats[a] == if a < i then c.cats[a] else c.cats[a + 1];
    forall a, b | 0 <= a < b < |cats|
      ensures cats[a].name != cats[b].name && cats[a].id != cats[b].id
    {
      var a' := if a < i then a else a + 1;
      var b' := if b < i then b else b + 1;
      assert cats[a] == c.cats[a'] && cats[b] == c.cats[b'] && a' < b';
    }
  }

  lemma MergedDropsRetired(c: Catalog, i: nat)
    requires ValidCatalog(c) && i < |c.cats| && c.cats[i].name == MergedName
    ensures !HasName(Merged(c, i).cats, MergedName)
  {
    MergedIndex(c, i);
    var c1 := UpsertByName(c, CarName, CarColor).0;
    var c2 := Merged(c, i);
    forall a | 0 <= a < |c2.cats| ensures c2.cats[a].name != MergedName {
      var b := if a < i then a else a + 1;
      assert c2.cats[a] == c1.cats[b];
      if b < |c.cats| { assert c1.cats[b] == c.cats[b] && b != i; }
    }
  }

  lemma MergedKeeps(c: Catalog, i: nat)
    requires i < |c.cats|
    ensures forall a :: 0 <= a < |c.cats| && a != i ==> c.cats[a] in Merged(c, i).cats
    ensures forall e :: e in Merged(c, i).cats && e !in c.cats ==> e == Category(c.nextId, CarName, Some(CarColor))
  {
    MergedIndex(c, i);
    var c1 := UpsertByName(c, CarName, CarColor).0;
    var c2 := Merged(c, i);
    forall a | 0 <= a < |c.cats| && a != i ensures c.cats[a] in c2.cats {
      if a < i { assert c2.cats[a] == c1.cats[a] == c.cats[a]; }
      else { assert c2.cats[a - 1] == c1.cats[a] == c.cats[a]; }
    }
    forall e | e in c2.cats && e !in c.cats ensures e == Category(c.nextId, CarName, Some(CarColor)) {
      var a :| 0 <= a < |c2.cats| && c2.cats[a] == e;
      var b := if a < i then a else a + 1;
      assert c2.cats[a] == c1.cats[b];
    }
  }

  /** The merged table holds "Araç" with the id the repointed expenses
      receive. */
  lemma MergedCarId(c: Catalog, i: nat)
    requires ValidCatalog(c)
    requires i < |c.cats| && c.cats[i].name == MergedName
    ensures exists p :: (0 <= p < |Merged(c, i).cats| && Merged(c, i).cats[p].name == CarName
                         && Merged(c, i).cats[p].id == UpsertByName(c, CarName, CarColor).1)
  {
    MergedIndex(c, i);
    var (c1, carId) := UpsertByName(c, CarName, CarColor);
    var c2 := Merged(c, i);
    var q := NameIndex(c1.cats, CarName);
    assert c1.cats[q].id == carId;
    if q < |c.cats| { assert c1.cats[q] == c.cats[q]; }
    assert q != i;
    var p := if q < i then q else q - 1;
    assert c2.cats[p] == c1.cats[q];
  }

  // --------------------------------------------------------- foreign keys

  /** Some category carries the id. */
  predicate HasId(cats: seq<Category>, id: nat)
  {
    exists k :: 0 <= k < |cats| && cats[k].id == id
  }

  /** The expenses' foreign key: every category an expense carries exists. */
  predicate RowsRefer(rows: seq<Expense>, cats: seq<Category>)
  {
    forall j :: 0 <= j < |rows| && rows[j].categoryId.Some? ==> HasId(cats, rows[j].categoryId.value)
  }

  /** The merchant mappings' foreign key: every mapped id is a category's. */
  predicate MappingsRefer(mappings: map<string, nat>, cats: seq<Category>)
  {
    forall d :: d in mappings ==> HasId(cats, mappings[d])
  }

  /** A table that keeps every category in place keeps both keys. */
  lemma RefersGrow(rows: seq<Expense>, mappings: map<string, nat>, cats: seq<Category>, cats': seq<Category>)
    requires |cats| <= |cats'| && cats'[..|cats|] == cats
    ensures RowsRefer(rows, cats) ==> RowsRefer(rows, cats')
    ensures MappingsRefer(mappings, cats) ==> MappingsRefer(mappings, cats')
  {
    forall id | HasId(cats, id) ensures HasId(cats', id) {
      var k :| 0 <= k < |cats| && cats[k].id == id;
      assert cats'[k] == cats'[..|cats|][k];
    }
  }

  /** Every category id other than the one of "Araba" survives the merge. */
  lemma MergedKeepsIds(c: Catalog, i: nat)
    requires i < |c.cats|
    ensures forall id :: HasId(c.cats, id) && id != c.cats[i].id ==> HasId(Merged(c, i).cats, id)
  {
    MergedKeeps(c, i);
    forall id | HasId(c.cats, id) && id != c.cats[i].id ensures HasId(Merged(c, i).cats, id) {
      var a :| 0 <= a < |c.cats| && c.cats[a].id == id;
      assert c.cats[a] in Merged(c, i).cats;
    }
  }

  /** No category of the merged table carries the id "Araba" had. */
  lemma MergedDropsId(c: Catalog, i: nat)
    requires ValidCatalog(c) && i < |c.cats| && c.cats[i].name == MergedName
    ensures !HasId(Merged(c, i).cats, c.cats[i].id)
  {
    var c2 := Merged(c, i);
    MergedKeeps(c, i);
    MergedDropsRetired(c, i);
    forall b | 0 <= b < |c2.cats| ensures c2.cats[b].id != c.cats[i].id {
      var e := c2.cats[b];
      assert e.name != MergedName;
      if e in c.cats {
        var a :| 0 <= a < |c.cats| && c.cats[a] == e;
        assert a != i;
      }
    }
  }

  /** The merge repoints the expenses of "Araba" before deleting it, so the
      expenses' foreign key survives it. */
  lemma RetireRows(c: Catalog, rows: seq<Expense>)
    requires ValidCatalog(c) && RowsRefer(rows, c.cats)
    ensures RowsRefer(Retire(c, rows).1, Retire(c, rows).0.cats)
  {
    var i := NameIndex(c.cats, MergedName);
    if i >= 0 {
      var (c2, rows') := Retire(c, rows);
      MergedKeepsIds(c, i);
      MergedCarId(c, i);
      forall j | 0 <= j < |rows'| && rows'[j].categoryId.Some?
        ensures HasId(c2.cats, rows'[j].categoryId.value)
      {
        if rows[j].categoryId != Some(c.cats[i].id) {
          assert rows'[j] == rows[j];
        }
      }
    }
  }

  /** The merge deletes "Araba" and leaves the mappings as they are, so the
      mappings stay valid exactly when none of them points at "Araba". */
  lemma RetireMappings(c: Catalog, rows: seq<Expense>, mappings: map<string, nat>)
    requires ValidCatalog(c) && MappingsRefer(mappings, c.cats)
    ensures MappingsRefer(mappings, Retire(c, rows).0.cats) <==>
      forall d :: d in mappings ==> IdOfName(c.cats, MergedName) != Some(mappings[d])
  {
    var i := NameIndex(c.cats, MergedName);
    if i >= 0 {
      MergedKeepsIds(c, i);
      MergedDropsId(c, i);
    }
  }

  /** What the seed script guarantees for a table with unique names:
      no category is named "Araba" afterwards, every default exists, names
      and ids stay unique, every category other than "Araba" is kept with
      its id, name and color (the upserts never overwrite), and every
      category added carries a default's name and color. */
  lemma SeedCategories(c: Catalog, rows: seq<Expense>)
    requires ValidCatalog(c)
    ensures var c' := Seed(c, rows).0;
      && ValidCatalog(c')
      && !HasName(c'.cats, MergedName)
      && (forall k :: 0 <= k < |Defaults| ==> HasName(c'.cats, Defaults[k].name))
      && (forall a :: 0 <= a < |c.cats| && c.cats[a].name != MergedName ==> c.cats[a] in c'.cats)
      && (forall e :: e in c'.cats && e !in c.cats ==> IsDefaultIn(e, Defaults))
  {
    var i := NameIndex(c.cats, MergedName);
    var c2 := if i < 0 then c else Merged(c, i);
    SeedFromMerged(c, c2, rows);
    if i >= 0 {
      MergedValid(c, i);
      MergedDropsRetired(c, i);
      MergedKeeps(c, i);
      CarIsDefault();
    }
    SeedAfterMerge(c, c2);
  }

  lemma SeedFromMerged(c: Catalog, c2: Catalog, rows: seq<Expense>)
    requires c2 == if NameIndex(c.cats, MergedName) < 0 then c else Merged(c, NameIndex(c.cats, MergedName))
    ensures Seed(c, rows).0 == SeedDefaults(c2, Defaults)
  {
  }

  lemma CarIsDefault()
    ensures forall id :: IsDefaultIn(Category(id, CarName, Some(CarColor)), Defaults)
  {
    assert Defaults[3].name == CarName && Defaults[3].color == CarColor;
  }

  /** The upsert loop after the merge (or directly, with no "Araba"). */
  lemma SeedAfterMerge(c: Catalog, c2: Catalog)
    requires ValidCatalog(c2) && !HasName(c2.cats, MergedName)
    requires forall a :: 0 <= a < |c.cats| && c.cats[a].name != MergedName ==> c.cats[a] in c2.cats
    requires forall e :: e in c2.cats && e !in c.cats ==> IsDefaultIn(e, Defaults)
    ensures var c' := SeedDefaults(c2, Defaults);
      && ValidCatalog(c')
      && !HasName(c'.cats, MergedName)
      && (forall k :: 0 <= k < |Defaults| ==> HasName(c'.cats, Defaults[k].name))
      && (forall a :: 0 <= a < |c.cats| && c.cats[a].name != MergedName ==> c.cats[a] in c'.cats)
      && (forall e :: e in c'.cats && e !in c.cats ==> IsDefaultIn(e, Defaults))
  {
    var c' := SeedDefaults(c2, Defaults);
    SeedDefaultsPrefix(c2, Defaults);
    SeedDefaultsValid(c2, Defaults);
    SeedDefaultsCovers(c2, Defaults);
    SeedDefaultsAdds(c2, Defaults);
    MergedNameNotDefault();
    forall a | 0 <= a < |c'.cats| ensures c'.cats[a].name != MergedName {
      if a < |c2.cats| { assert c'.cats[a] == c2.cats[a]; }
      else { assert IsDefaultIn(c'.cats[a], Defaults); }
    }
    forall a | 0 <= a < |c.cats| && c.cats[a].name != MergedName ensures c.cats[a] in c'.cats {
      var p :| 0 <= p < |c2.cats| && c2.cats[p] == c.cats[a];
      assert c'.cats[p] == c2.cats[p];
    }
    forall e | e in c'.cats && e !in c.cats ensures IsDefaultIn(e, Defaults) {
      var p :| 0 <= p < |c'.cats| && c'.cats[p] == e;
      if p < |c2.cats| { assert c2.cats[p] == e; }
    }
  }

  /** In a table with unique names, the category found by name is the one
      carrying it. */
  lemma NameIndexOf(cats: seq<Category>, p: int)
    requires forall a, b :: 0 <= a < b < |cats| ==> cats[a].name != cats[b].name
    requires 0 <= p < |cats|
    ensures NameIndex(cats, cats[p].name) == p
  {
  }

  /** The seed script keeps every expense row; a row that pointed at
      "Araba" now points at "Araç", and no other row changes. */
  lemma SeedRepoints(c: Catalog, rows: seq<Expense>)
    requires ValidCatalog(c)
    ensures var (c', rows') := Seed(c, rows);
      && |rows'| == |rows|
      && forall j :: 0 <= j < |rows| ==>
           if IdOfName(c.cats, MergedName).Some? && rows[j].categoryId == IdOfName(c.cats, MergedName)
           then rows'[j] == rows[j].(categoryId := IdOfName(c'.cats, CarName))
           else rows'[j] == rows[j]
  {
    var (c', rows') := Seed(c, rows);
    var i := NameIndex(c.cats, MergedName);
    if i >= 0 {
      var c2 := Merged(c, i);
      SeedFromMerged(c, c2, rows);
      MergedValid(c, i);
      MergedCarId(c, i);
      SeedDefaultsPrefix(c2, Defaults);
      SeedDefaultsValid(c2, Defaults);
      var p :| 0 <= p < |c2.cats| && c2.cats[p].name == CarName && c2.cats[p].id == UpsertByName(c, CarName, CarColor).1;
      assert c'.cats[p] == c2.cats[p];
      NameIndexOf(c'.cats, p);
    }
  }

  /** Running the seed script twice is the same as running it once. */
  lemma SeedIdempotent(c: Catalog, rows: seq<Expense>)
    requires ValidCatalog(c)
    ensures var (c', rows') := Seed(c, rows); Seed(c', rows') == (c', rows')
  {
    var (c', rows') := Seed(c, rows);
    SeedCategories(c, rows);
    SeedDefaultsNoOp(c', Defaults);
  }
}
