/** The schema manager: the seven tables of the star schema, their foreign
    key references, and the destructive rebuild script (drop everything in
    reverse dependency order, then create everything in dependency order). */
module Schema {
  import opened Wrappers
  import opened Store

  datatype TableName =
    | DimGenres | DimAuthors | DimDemographics | DimSerializations
    | DimMangaInfo | FactManga | SecondaryGenres

  const AllTables: set<TableName> :=
    {DimGenres, DimAuthors, DimDemographics, DimSerializations, DimMangaInfo, FactManga, SecondaryGenres}

  /** The tables named by a table's FOREIGN KEY clauses. */
  function References(t: TableName): set<TableName> {
    match t
    case FactManga => {DimMangaInfo, DimGenres, DimAuthors, DimDemographics, DimSerializations}
    case SecondaryGenres => {DimMangaInfo, DimGenres}
    case _ => {}
  }

  datatype Ddl = DropIfExists(table: TableName) | CreateIfNotExists(table: TableName)

  datatype DdlError =
    | StillReferenced(table: TableName)     // DROP of a table another table's FK points at
    | MissingParent(table: TableName)       // CREATE with an FK to a table that does not exist

  /** The tables that exist, and the contents of the store. */
  datatype Catalog = Catalog(present: set<TableName>, db: Db)

  /** The contents of `t` as a freshly created (empty) table. */
  function Emptied(db: Db, t: TableName): (r: Db)
  {
    match t
    case DimGenres => db.(dims := db.dims.Set(Genre, EmptyDim))
    case DimAuthors => db.(dims := db.dims.Set(Author, EmptyDim))
    case DimDemographics => db.(dims := db.dims.Set(Demographic, EmptyDim))
    case DimSerializations => db.(dims := db.dims.Set(Serialization, EmptyDim))
    case DimMangaInfo => db.(info := EmptyInfo)
    case FactManga => db.(facts := EmptyFacts)
    case SecondaryGenres => db.(bridge := [])
  }

  /** One DDL statement. DROP ... IF EXISTS skips an absent table and is
      refused while an existing table still references it; CREATE ... IF
      NOT EXISTS leaves an existing table (and its rows) alone and is refused
      when a referenced table does not exist. */
  function Exec(c: Catalog, s: Ddl): (r: Result<Catalog, DdlError>)
    ensures r.Success? && s.DropIfExists? ==> r.value.present == c.present - {s.table}
    ensures r.Success? && s.CreateIfNotExists? ==> r.value.present == c.present + {s.table}
    ensures r.Failure? && s.DropIfExists? <==>
      s.DropIfExists? && s.table in c.present &&
      exists u :: u in c.present && s.table in References(u)
    ensures r.Failure? && s.CreateIfNotExists? <==>
      s.CreateIfNotExists? && s.table !in c.present && !(References(s.table) <= c.present)
  {
    match s
    case DropIfExists(t) =>
      if t !in c.present then Success(c)
      else if exists u :: u in c.present && t in References(u) then Failure(StillReferenced(t))
      else Success(Catalog(c.present - {t}, c.db))
    case CreateIfNotExists(t) =>
      if t in c.present then Success(c)
      else if !(References(t) <= c.present) then Failure(MissingParent(t))
      else Success(Catalog(c.present + {t}, Emptied(c.db, t)))
  }

  /** Statements run in order; the first error aborts the rest. */
  function Run(c: Catalog, script: seq<Ddl>): Result<Catalog, DdlError>
    decreases |script|
  {
    if script == [] then Success(c)
    else
      var c1 :- Exec(c, script[0]);
      Run(c1, script[1..])
  }

  const DropScript: seq<Ddl> := [
    DropIfExists(SecondaryGenres), DropIfExists(FactManga),
    DropIfExists(DimGenres), DropIfExists(DimAuthors),
    DropIfExists(DimDemographics), DropIfExists(DimSerializations),
    DropIfExists(DimMangaInfo)]

  const CreateScript: seq<Ddl> := [
    CreateIfNotExists(DimGenres), CreateIfNotExists(DimAuthors),
    CreateIfNotExists(DimDemographics), CreateIfNotExists(DimSerializations),
    CreateIfNotExists(DimMangaInfo), CreateIfNotExists(FactManga),
    CreateIfNotExists(SecondaryGenres)]

  /** `create_star_schema`. */
  function CreateStarSchema(c: Catalog): Result<Catalog, DdlError> {
    Run(c, DropScript + CreateScript)
  }

  /** Table `u` is dropped at some position before `j`. */
  predicate DroppedBefore(script: seq<Ddl>, j: int, u: TableName) {
    exists i :: 0 <= i < j && i < |script| && script[i] == DropIfExists(u)
  }

  /** Table `u` is created at some position before `j`. */
  predicate CreatedBefore(script: seq<Ddl>, j: int, u: TableName) {
    exists i :: 0 <= i < j && i < |script| && script[i] == CreateIfNotExists(u)
  }

  /** No table is dropped while a table referencing it may still exist. */
  predicate DropsInSafeOrder(script: seq<Ddl>) {
    forall j, u :: 0 <= j < |script| && script[j].DropIfExists? && script[j].table in References(u) ==>
      DroppedBefore(script, j, u)
  }

  /** Every referenced table is created before the table referencing it. */
  predicate CreatesInSafeOrder(script: seq<Ddl>) {
    forall j, u :: 0 <= j < |script| && script[j].CreateIfNotExists? && u in References(script[j].table) ==>
      CreatedBefore(script, j, u)
  }

  lemma ResetScriptOrder()
    ensures DropsInSafeOrder(DropScript)
    ensures CreatesInSafeOrder(CreateScript)
    ensures forall t :: t in AllTables ==> DropIfExists(t) in DropScript && CreateIfNotExists(t) in CreateScript
  {
    assert DropScript[0] == DropIfExists(SecondaryGenres);
    assert DropScript[1] == DropIfExists(FactManga);
    assert CreateScript[0] == CreateIfNotExists(DimGenres);
    assert CreateScript[1] == CreateIfNotExists(DimAuthors);
    assert CreateScript[2] == CreateIfNotExists(DimDemographics);
    assert CreateScript[3] == CreateIfNotExists(DimSerializations);
    assert CreateScript[4] == CreateIfNotExists(DimMangaInfo);
  }

  /** Whatever tables exist beforehand, the drops all succeed and leave no
      table behind. */
  lemma {:induction false} DropScriptClears(c: Catalog)
    ensures Run(c, DropScript).Success?
    ensures Run(c, DropScript).value.present == {}
  {
    var p := c.present;
    var c1 := Catalog(p - {SecondaryGenres}, c.db);
    assert Exec(c, DropScript[0]) == Success(c1) || p == c1.present;
    var rest := DropScript[1..];
    assert Run(c, DropScript) == Run(Exec(c, DropScript[0]).value, rest);
    assert Exec(c, DropScript[0]).value.present == p - {SecondaryGenres};
    DropTail(Exec(c, DropScript[0]).value);
  }

  lemma {:induction false} DropTail(c: Catalog)
    requires SecondaryGenres !in c.present
    ensures Run(c, DropScript[1..]).Success?
    ensures Run(c, DropScript[1..]).value.present == {}
  {
    var s := DropScript[1..];
    var c1 := Exec(c, s[0]).value;
    assert c1.present == c.present - {FactManga};
    var c2 := Exec(c1, s[1]).value;
    assert c2.present == c.present - {FactManga, DimGenres};
    var c3 := Exec(c2, s[2]).value;
    assert c3.present == c.present - {FactManga, DimGenres, DimAuthors};
    var c4 := Exec(c3, s[3]).value;
    assert c4.present == c.present - {FactManga, DimGenres, DimAuthors, DimDemographics};
    var c5 := Exec(c4, s[4]).value;
    assert c5.present <= {DimMangaInfo} by {
      forall x | x in c5.present ensures x == DimMangaInfo {
        assert x in c.present - {FactManga, DimGenres, DimAuthors, DimDemographics, DimSerializations};
        match x
        case DimMangaInfo =>
        case _ =>
      }
    }
    var c6 := Exec(c5, s[5]).value;
    assert c6.present == {};
    assert Run(c5, s[5..]) == Success(c6);
    assert Run(c4, s[4..]) == Run(c5, s[5..]);
    assert Run(c3, s[3..]) == Run(c4, s[4..]);
    assert Run(c2, s[2..]) == Run(c3, s[3..]);
    assert Run(c1, s[1..]) == Run(c2, s[2..]);
    assert Run(c, s) == Run(c1, s[1..]);
  }

  lemma {:induction false} RunAppend(c: Catalog, a: seq<Ddl>, b: seq<Ddl>)
    requires Run(c, a).Success?
    ensures Run(c, a + b) == Run(Run(c, a).value, b)
    decreases |a|
  {
    if a != [] {
      assert (a + b)[0] == a[0];
      assert (a + b)[1..] == a[1..] + b;
      RunAppend(Exec(c, a[0]).value, a[1..], b);
    } else {
      assert a + b == b;
    }
  }

  /** On an empty catalog every CREATE succeeds, in this order, and the
      result holds all seven tables, all empty. */
  lemma {:induction false} CreateScriptBuilds(db: Db)
    ensures Run(Catalog({}, db), CreateScript) == Success(Catalog(AllTables, EmptyDb))
  {
    var s := CreateScript;
    CreateDimensions(db);
    assert s[..4] + s[4..] == s;
    RunAppend(Catalog({}, db), s[..4], s[4..]);
    CreateRest(Run(Catalog({}, db), s[..4]).value);
  }

  /** The first four CREATEs make the dimension tables, empty. */
  lemma {:induction false} CreateDimensions(db: Db)
    ensures Run(Catalog({}, db), CreateScript[..4]) ==
            Success(Catalog({DimGenres, DimAuthors, DimDemographics, DimSerializations}, db.(dims := EmptyDims)))
  {
    var s := CreateScript[..4];
    var c0 := Catalog({}, db);
    var c1 := Catalog({DimGenres}, Emptied(db, DimGenres));
    var c2 := Catalog({DimGenres, DimAuthors}, Emptied(c1.db, DimAuthors));
    var c3 := Catalog({DimGenres, DimAuthors, DimDemographics}, Emptied(c2.db, DimDemographics));
    var c4 := Catalog({DimGenres, DimAuthors, DimDemographics, DimSerializations}, Emptied(c3.db, DimSerializations));
    assert c4.db == db.(dims := EmptyDims);
    assert s[0] == CreateIfNotExists(DimGenres) && s[1] == CreateIfNotExists(DimAuthors);
    assert s[2] == CreateIfNotExists(DimDemographics) && s[3] == CreateIfNotExists(DimSerializations);
    assert c1.present == c0.present + {DimGenres};
    assert References(DimGenres) == {};
    assert Exec(c0, s[0]) == Success(c1);
    assert c2.present == c1.present + {DimAuthors} && References(DimAuthors) == {};
    assert Exec(c1, s[1]) == Success(c2);
    assert c3.present == c2.present + {DimDemographics} && References(DimDemographics) == {};
    assert Exec(c2, s[2]) == Success(c3);
    assert c4.present == c3.present + {DimSerializations} && References(DimSerializations) == {};
    assert Exec(c3, s[3]) == Success(c4);
    assert s[1..][1..][1..][1..] == [];
    assert Run(c3, s[1..][1..][1..]) == Run(c4, []);
    assert Run(c2, s[1..][1..]) == Run(c3, s[1..][1..][1..]);
    assert Run(c1, s[1..]) == Run(c2, s[1..][1..]);
    assert Run(c0, s) == Run(c1, s[1..]);
  }

  /** With the dimensions in place, the last three CREATEs make the entity,
      fact and bridge tables, empty. */
  lemma {:induction false} CreateRest(c: Catalog)
    requires c.present == {DimGenres, DimAuthors, DimDemographics, DimSerializations}
    ensures Run(c, CreateScript[4..]) ==
            Success(Catalog(AllTables, c.db.(info := EmptyInfo, facts := EmptyFacts, bridge := [])))
  {
    var s := CreateScript[4..];
    var c5 := Catalog(c.present + {DimMangaInfo}, Emptied(c.db, DimMangaInfo));
    var c6 := Catalog(c5.present + {FactManga}, Emptied(c5.db, FactManga));
    var c7 := Catalog(AllTables, Emptied(c6.db, SecondaryGenres));
    assert s[0] == CreateIfNotExists(DimMangaInfo) && s[1] == CreateIfNotExists(FactManga);
    assert s[2] == CreateIfNotExists(SecondaryGenres);
    assert Exec(c, s[0]) == Success(c5);
    assert FactManga !in c5.present && References(FactManga) <= c5.present;
    assert Exec(c5, s[1]) == Success(c6);
    assert SecondaryGenres !in c6.present && References(SecondaryGenres) <= c6.present;
    assert c6.present + {SecondaryGenres} == AllTables;
    assert Exec(c6, s[2]) == Success(c7);
    assert s[1..][1..][1..] == [];
    assert Run(c6, s[1..][1..]) == Run(c7, []);
    assert Run(c5, s[1..]) == Run(c6, s[1..][1..]);
    assert Run(c, s) == Run(c5, s[1..]);
  }

  /** After `create_star_schema` all seven tables exist and are empty,
      whatever tables and rows existed before. */
  lemma {:induction false} CreateStarSchemaResets(c: Catalog)
    ensures CreateStarSchema(c) == Success(Catalog(AllTables, EmptyDb))
    ensures Integrity(CreateStarSchema(c).value.db)
  {
    DropScriptClears(c);
    RunAppend(c, DropScript, CreateScript);
    CreateScriptBuilds(Run(c, DropScript).value.db);
    EmptyDbIntegrity();
  }

  /** The rebuild is structurally idempotent: running it again on its own
      result gives the same catalog. */
  lemma CreateStarSchemaIdempotent(c: Catalog)
    ensures CreateStarSchema(c).Success?
    ensures CreateStarSchema(CreateStarSchema(c).value) == CreateStarSchema(c)
  {
    CreateStarSchemaResets(c);
    CreateStarSchemaResets(CreateStarSchema(c).value);
  }

  /** The order matters: with the full schema in place, dropping a dimension
      before the fact table is refused. */
  lemma DimensionFirstDropRefused(db: Db)
    ensures Exec(Catalog(AllTables, db), DropIfExists(DimGenres)) == Failure(StillReferenced(DimGenres))
  {
    assert FactManga in AllTables && DimGenres in References(FactManga);
  }

  /** ... and creating the fact table before its dimensions is refused too. */
  lemma FactFirstCreateRefused(db: Db)
    ensures Exec(Catalog({}, db), CreateIfNotExists(FactManga)) == Failure(MissingParent(FactManga))
  {
    assert DimMangaInfo in References(FactManga);
  }
}
