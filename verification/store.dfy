/** The relational store of the star schema, as immutable values: each table
    is its rows in insertion order plus its AUTO_INCREMENT counter, and the
    table's UNIQUE / PRIMARY KEY constraints are well-formedness predicates
    that every operation preserves. */
module Store {
  import opened Wrappers
  import opened Values
  import opened Normalizer

  datatype Category = Genre | Author | Demographic | Serialization

  // -----------------------------------------------------------------------
  // Categorical dimensions: dim_genres, dim_authors, dim_demographics,
  // dim_serializations (id INT AUTO_INCREMENT PRIMARY KEY, name UNIQUE)
  // -----------------------------------------------------------------------

  /** A dimension table, held as its two indexes: the UNIQUE name index
      (name -> id) and the primary key index (id -> name), plus the
      AUTO_INCREMENT counter. */
  datatype DimTable = DimTable(byName: map<Scalar, nat>, byId: map<nat, Scalar>, next: nat)

  /** A freshly created dimension: no rows, counter at 1. */
  const EmptyDim := DimTable(map[], map[], 1)

  /** The two indexes describe the same rows, and every id was drawn from
      the counter. */
  predicate DimWf(t: DimTable) {
    && t.next >= 1
    && (forall n :: n in t.byName ==> 1 <= t.byName[n] < t.next)
    && (forall n :: n in t.byName ==> t.byName[n] in t.byId && t.byId[t.byName[n]] == n)
    && (forall k :: k in t.byId ==> t.byId[k] in t.byName && t.byName[t.byId[k]] == k)
  }

  function DimNames(t: DimTable): set<Scalar> {
    t.byName.Keys
  }

  function DimIds(t: DimTable): set<nat> {
    t.byId.Keys
  }

  /** `SELECT id, name FROM dim_*` read back as the name -> id lookup map:
      it covers exactly the stored names and is injective. */
  function ReadBack(t: DimTable): (m: map<Scalar, nat>)
    requires DimWf(t)
    ensures m.Keys == DimNames(t)
    ensures forall n :: n in m ==> m[n] in DimIds(t)
    ensures forall a, b :: a in m && b in m && a != b ==> m[a] != m[b]
  {
    t.byName
  }

  /** The id -> name direction, which a LEFT JOIN on the id follows. */
  function NameById(t: DimTable): (m: map<nat, Scalar>)
    requires DimWf(t)
    ensures m.Keys == DimIds(t)
    ensures forall k :: k in m ==> m[k] in DimNames(t)
  {
    t.byId
  }

  /** Joining back on the id returned by the lookup map gives the name. */
  lemma NameByIdInvertsReadBack(t: DimTable, n: Scalar)
    requires DimWf(t)
    requires n in DimNames(t)
    ensures ReadBack(t)[n] in NameById(t)
    ensures NameById(t)[ReadBack(t)[n]] == n
  {
  }

  /** `INSERT IGNORE INTO dim_* (name) VALUES (n)`: first writer wins. */
  function InsertIgnore(t: DimTable, n: Scalar): (r: DimTable)
    requires DimWf(t)
    ensures DimWf(r)
    ensures DimNames(r) == DimNames(t) + {n}
    ensures DimIds(t) <= DimIds(r)
    ensures forall m :: m in DimNames(t) ==> ReadBack(r)[m] == ReadBack(t)[m]
    ensures n !in DimNames(t) ==> ReadBack(r)[n] !in DimIds(t)
  {
    if n in t.byName then t
    else
      assert t.next !in t.byId;
      DimTable(t.byName[n := t.next], t.byId[t.next := n], t.next + 1)
  }

  /** The insert loop over one batch's distinct names, in order. */
  function Populate(t: DimTable, names: seq<Scalar>): (r: DimTable)
    requires DimWf(t)
    ensures DimWf(r)
    decreases |names|
  {
    if names == [] then t
    else Populate(InsertIgnore(t, names[0]), names[1..])
  }

  /** After population the dimension holds exactly its previous names plus
      the offered ones; no stored name changes its id (first writer wins),
      so the re-read lookup map resolves every old and every new name. */
  lemma {:induction false} PopulateContents(t: DimTable, names: seq<Scalar>)
    requires DimWf(t)
    ensures forall x :: x in DimNames(Populate(t, names)) <==> x in DimNames(t) || x in names
    ensures DimIds(t) <= DimIds(Populate(t, names))
    ensures forall m :: m in DimNames(t) ==> ReadBack(Populate(t, names))[m] == ReadBack(t)[m]
    decreases |names|
  {
    if names != [] {
      var t1 := InsertIgnore(t, names[0]);
      var r := Populate(t1, names[1..]);
      assert Populate(t, names) == r;
      PopulateContents(t1, names[1..]);
      assert forall x :: x in names <==> x == names[0] || x in names[1..];
    }
  }

  /** Offering only names already stored changes nothing. */
  lemma {:induction false} PopulateKnownNames(t: DimTable, names: seq<Scalar>)
    requires DimWf(t)
    requires forall x :: x in names ==> x in DimNames(t)
    ensures Populate(t, names) == t
    decreases |names|
  {
    if names != [] {
      PopulateKnownNames(t, names[1..]);
    }
  }

  /** Dimension population is idempotent: a second run over the same names
      leaves the table (and so its read-back map) unchanged. */
  lemma {:induction false} PopulateIdempotent(t: DimTable, names: seq<Scalar>)
    requires DimWf(t)
    ensures Populate(Populate(t, names), names) == Populate(t, names)
    ensures ReadBack(Populate(Populate(t, names), names)) == ReadBack(Populate(t, names))
  {
    PopulateContents(t, names);
    PopulateKnownNames(Populate(t, names), names);
  }

  // -----------------------------------------------------------------------
  // dim_manga_info (manga_info_id AUTO_INCREMENT PRIMARY KEY, mal_id UNIQUE)
  // -----------------------------------------------------------------------

  datatype InfoAttrs = InfoAttrs(
    title: Option<string>,
    titleEnglish: Option<string>,
    titleJapanese: Option<string>,
    titleSynonyms: Option<string>,
    synopsis: Option<string>,
    background: Option<string>,
    status: Option<string>,
    kind: Option<string>,
    publishing: bool,
    publishedFrom: Option<string>,
    publishedTo: Option<string>,
    approved: bool,
    url: Option<string>,
    images: Option<string>)

  datatype InfoRow = InfoRow(id: nat, malId: int, attrs: InfoAttrs)

  /** The entity dimension, held as its UNIQUE mal_id index and its primary
      key index (manga_info_id -> mal_id), plus the AUTO_INCREMENT counter. */
  datatype InfoTable = InfoTable(byMal: map<int, InfoRow>, malById: map<nat, int>, next: nat)

  const EmptyInfo := InfoTable(map[], map[], 1)

  predicate InfoWf(t: InfoTable) {
    && t.next >= 1
    && (forall m :: m in t.byMal ==> t.byMal[m].malId == m && 1 <= t.byMal[m].id < t.next)
    && (forall m :: m in t.byMal ==> t.byMal[m].id in t.malById && t.malById[t.byMal[m].id] == m)
    && (forall k :: k in t.malById ==> t.malById[k] in t.byMal && t.byMal[t.malById[k]].id == k)
  }

  function MalIds(t: InfoTable): set<int> {
    t.byMal.Keys
  }

  function InfoIds(t: InfoTable): set<nat> {
    t.malById.Keys
  }

  /** `SELECT mal_id, manga_info_id FROM dim_manga_info` as a map. */
  function InfoIdMap(t: InfoTable): (m: map<int, nat>)
    requires InfoWf(t)
    ensures m.Keys == MalIds(t)
    ensures forall k :: k in m ==> m[k] in InfoIds(t)
    ensures forall a, b :: a in m && b in m && a != b ==> m[a] != m[b]
  {
    map k | k in t.byMal :: t.byMal[k].id
  }

  /** The row whose primary key is `id`, if any (the inner join's match). */
  function InfoRowById(t: InfoTable, id: nat): (r: Option<InfoRow>)
    requires InfoWf(t)
    ensures r.Some? <==> id in InfoIds(t)
    ensures r.Some? ==> r.value.id == id && r.value.malId in MalIds(t) && t.byMal[r.value.malId] == r.value
  {
    if id in t.malById then
      var m := t.malById[id];
      assert t.byMal[m].malId == m;
      Some(t.byMal[m])
    else None
  }

  /** `INSERT ... ON DUPLICATE KEY UPDATE` keyed on mal_id: a known mal_id has
      all its non-key columns overwritten and keeps its id; a new one gets a
      fresh id; no other row changes. */
  function Upsert(t: InfoTable, malId: int, attrs: InfoAttrs): (r: InfoTable)
    requires InfoWf(t)
    ensures InfoWf(r)
    ensures MalIds(r) == MalIds(t) + {malId}
    ensures r.byMal[malId].attrs == attrs
    ensures forall m :: m in MalIds(t) && m != malId ==> r.byMal[m] == t.byMal[m]
    ensures malId in MalIds(t) ==> r.byMal[malId].id == t.byMal[malId].id
    ensures malId !in MalIds(t) ==> r.byMal[malId].id !in InfoIds(t)
    ensures InfoIds(r) == InfoIds(t) + {r.byMal[malId].id}
  {
    if malId in t.byMal then
      var row := t.byMal[malId];
      InfoTable(t.byMal[malId := InfoRow(row.id, malId, attrs)], t.malById, t.next)
    else
      assert t.next !in t.malById by {
        forall k | k in t.malById ensures k != t.next {
          var m := t.malById[k];
          assert m in t.byMal && t.byMal[m].id == k;
          assert t.byMal[m].id < t.next;
        }
      }
      InfoTable(t.byMal[malId := InfoRow(t.next, malId, attrs)], t.malById[t.next := malId], t.next + 1)
  }

  /** Re-ingesting a mal_id never adds a second row. */
  lemma UpsertKnownKeepsSize(t: InfoTable, malId: int, attrs: InfoAttrs)
    requires InfoWf(t)
    requires malId in MalIds(t)
    ensures |Upsert(t, malId, attrs).byMal| == |t.byMal|
  {
    assert Upsert(t, malId, attrs).byMal.Keys == t.byMal.Keys;
  }

  // -----------------------------------------------------------------------
  // fact_manga and manga_secondary_genres
  // -----------------------------------------------------------------------

  datatype Measures = Measures(
    score: Option<real>,
    scoredBy: Option<int>,
    rankVal: Option<int>,
    popularity: Option<int>,
    members: Option<int>,
    favorites: Option<int>,
    volumes: Option<int>,
    chapters: Option<int>)

  /** `DECIMAL(3,2)` keeps a value as a whole number of hundredths: the
      server rounds to the nearest hundredth, a tie away from zero. */
  function Cents(x: real): (c: int)
    ensures (c as real) - 0.5 <= 100.0 * x <= (c as real) + 0.5
    ensures x >= 0.0 ==> 100.0 * x < (c as real) + 0.5
    ensures x < 0.0 ==> (c as real) - 0.5 < 100.0 * x
  {
    if x >= 0.0 then (100.0 * x + 0.5).Floor else -((0.5 - 100.0 * x).Floor)
  }

  /** `DECIMAL(3,2)` holds three digits, two after the point. */
  const DecimalCentsMax: int := 999

  /** The signed 32-bit range of an `INT` column. */
  const IntMin: int := -0x8000_0000
  const IntMax: int := 0x7FFF_FFFF

  predicate ScoreFits(v: Option<real>) {
    v.None? || -DecimalCentsMax <= Cents(v.value) <= DecimalCentsMax
  }

  predicate IntFits(v: Option<int>) {
    v.None? || IntMin <= v.value <= IntMax
  }

  /** In strict mode the server refuses a row with a value outside its
      column's range; for the score the range is checked after rounding. */
  predicate MeasuresFit(m: Measures) {
    && ScoreFits(m.score)
    && IntFits(m.scoredBy) && IntFits(m.rankVal) && IntFits(m.popularity)
    && IntFits(m.members) && IntFits(m.favorites) && IntFits(m.volumes) && IntFits(m.chapters)
  }

  /** The measures as the fact table holds them: the score in hundredths,
      the counts as sent. */
  function StoredMeasures(m: Measures): Measures {
    m.(score := if m.score.None? then None else Some((Cents(m.score.value) as real) / 100.0))
  }

  /** A score given in whole hundredths is stored unchanged, and so is every
      count. */
  lemma StoredExactInHundredths(m: Measures, k: int)
    requires m.score == Some((k as real) / 100.0)
    ensures StoredMeasures(m) == m
  {
    assert Cents((k as real) / 100.0) == k;
  }

  /** The stored score is within half a hundredth of the sent one. */
  lemma StoredScoreClose(m: Measures)
    requires m.score.Some?
    ensures StoredMeasures(m).score.Some?
    ensures -0.005 <= StoredMeasures(m).score.value - m.score.value <= 0.005
    ensures StoredMeasures(m).(score := m.score) == m
  {
  }

  /** Ten, the validator's upper bound, does not fit: neither does anything
      that rounds to it. */
  lemma ScoreTenDoesNotFit(x: real)
    requires x >= 9.995
    ensures !ScoreFits(Some(x))
  {
  }

  /** The four nullable primary foreign keys of a fact row. */
  datatype Primaries = Primaries(genre: Option<nat>, author: Option<nat>,
                                 demographic: Option<nat>, serialization: Option<nat>)
  {
    function Get(c: Category): Option<nat> {
      match c
      case Genre => genre
      case Author => author
      case Demographic => demographic
      case Serialization => serialization
    }
  }

  datatype FactRow = FactRow(id: nat, infoId: Option<nat>, measures: Measures, primary: Primaries)
  datatype FactTable = FactTable(rows: seq<FactRow>, next: nat)

  const EmptyFacts := FactTable([], 1)

  /** A plain `INSERT` (there is no unique key besides fact_id): always one
      more row, the existing rows untouched. */
  function InsertFact(t: FactTable, infoId: Option<nat>, m: Measures, p: Primaries): (r: FactTable)
    ensures |r.rows| == |t.rows| + 1
    ensures r.rows[..|t.rows|] == t.rows
    ensures r.rows[|t.rows|].infoId == infoId && r.rows[|t.rows|].measures == m
    ensures r.rows[|t.rows|].primary == p
  {
    FactTable(t.rows + [FactRow(t.next, infoId, m, p)], t.next + 1)
  }

  /** A row of manga_secondary_genres: PRIMARY KEY (manga_info_id, genre_id). */
  datatype BridgeRow = BridgeRow(infoId: nat, genreId: nat)

  /** `INSERT IGNORE` on the composite key. */
  function InsertPair(b: seq<BridgeRow>, p: BridgeRow): (r: seq<BridgeRow>)
    ensures NoDup(b) ==> NoDup(r)
    ensures forall x :: x in r <==> x in b || x == p
  {
    if p in b then b else b + [p]
  }

  // -----------------------------------------------------------------------
  // The whole store
  // -----------------------------------------------------------------------

  datatype Dims = Dims(genres: DimTable, authors: DimTable,
                       demographics: DimTable, serializations: DimTable)
  {
    function Get(c: Category): DimTable {
      match c
      case Genre => genres
      case Author => authors
      case Demographic => demographics
      case Serialization => serializations
    }

    function Set(c: Category, t: DimTable): (r: Dims)
      ensures r.Get(c) == t
      ensures forall d :: d != c ==> r.Get(d) == Get(d)
    {
      match c
      case Genre => this.(genres := t)
      case Author => this.(authors := t)
      case Demographic => this.(demographics := t)
      case Serialization => this.(serializations := t)
    }
  }

  const EmptyDims := Dims(EmptyDim, EmptyDim, EmptyDim, EmptyDim)

  datatype Db = Db(dims: Dims, info: InfoTable, facts: FactTable, bridge: seq<BridgeRow>)

  const EmptyDb := Db(EmptyDims, EmptyInfo, EmptyFacts, [])

  predicate DimsWf(d: Dims) {
    forall c: Category :: DimWf(d.Get(c))
  }

  /** Every constraint of the schema: keys unique, and every foreign key that
      is not NULL names an existing row of the referenced table. */
  predicate Integrity(db: Db) {
    && DimsWf(db.dims)
    && InfoWf(db.info)
    && (forall f :: f in db.facts.rows && f.infoId.Some? ==> f.infoId.value in InfoIds(db.info))
    && (forall f, c: Category :: f in db.facts.rows && f.primary.Get(c).Some? ==>
          f.primary.Get(c).value in DimIds(db.dims.Get(c)))
    && NoDup(db.bridge)
    && (forall p :: p in db.bridge ==> p.infoId in InfoIds(db.info) && p.genreId in DimIds(db.dims.genres))
  }

  lemma EmptyDbIntegrity()
    ensures Integrity(EmptyDb)
  {
    assert forall c: Category :: EmptyDims.Get(c) == EmptyDim;
  }
}
