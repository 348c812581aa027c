/** `preprocess_data`: read the star schema back through one query (facts
    inner-joined to their entity row, left-joined to the four primary
    dimension names), drop repeated mal_ids keeping the first, and drop rows
    without a score. The parquet write is left out. */
module Preprocessing {
  import opened Wrappers
  import opened Values
  import opened Normalizer
  import opened Store
  import opened Ingestion

  /** The four `primary_*` name columns of the query. */
  datatype Labels = Labels(genre: Option<Scalar>, author: Option<Scalar>,
                           demographic: Option<Scalar>, serialization: Option<Scalar>)
  {
    function Get(c: Category): Option<Scalar> {
      match c
      case Genre => genre
      case Author => author
      case Demographic => demographic
      case Serialization => serialization
    }
  }

  /** One row of the query: `mi.*`, the fact measures, the primary names. */
  datatype JoinedRow = JoinedRow(info: InfoRow, measures: Measures, primary: Labels)

  function MalOf(x: JoinedRow): int {
    x.info.malId
  }

  /** The LEFT JOIN of one foreign key onto a dimension: the name stored
      under the id, or NULL when the key is NULL or matches no row. */
  function NameOf(t: DimTable, k: Option<nat>): (r: Option<Scalar>)
    requires DimWf(t)
    ensures r.Some? <==> k.Some? && k.value in DimIds(t)
    ensures r.Some? ==> r.value in DimNames(t) && ReadBack(t)[r.value] == k.value
  {
    if k.Some? && k.value in NameById(t) then Some(NameById(t)[k.value]) else None
  }

  /** The inner join condition: the fact names an existing entity row. */
  predicate Linked(info: InfoTable, f: FactRow) {
    f.infoId.Some? && f.infoId.value in InfoIds(info)
  }

  function Joined(info: InfoTable, dims: Dims, f: FactRow): (x: JoinedRow)
    requires InfoWf(info) && DimsWf(dims) && Linked(info, f)
    ensures x.info.id == f.infoId.value && x.info.malId in MalIds(info) && info.byMal[x.info.malId] == x.info
    ensures x.measures == f.measures
    ensures forall c: Category :: x.primary.Get(c).Some? <==>
              f.primary.Get(c).Some? && f.primary.Get(c).value in DimIds(dims.Get(c))
    ensures forall c: Category :: x.primary.Get(c).Some? ==>
              x.primary.Get(c).value in DimNames(dims.Get(c)) &&
              ReadBack(dims.Get(c))[x.primary.Get(c).value] == f.primary.Get(c).value
  {
    assert DimWf(dims.Get(Genre)) && DimWf(dims.Get(Author));
    assert DimWf(dims.Get(Demographic)) && DimWf(dims.Get(Serialization));
    var labels := Labels(NameOf(dims.genres, f.primary.genre), NameOf(dims.authors, f.primary.author),
                         NameOf(dims.demographics, f.primary.demographic),
                         NameOf(dims.serializations, f.primary.serialization));
    assert forall c: Category :: labels.Get(c) == NameOf(dims.Get(c), f.primary.Get(c)) by {
      forall c: Category ensures labels.Get(c) == NameOf(dims.Get(c), f.primary.Get(c)) {
        if c.Genre? {} else if c.Author? {} else if c.Demographic? {} else { assert c.Serialization?; }
      }
    }
    JoinedRow(InfoRowById(info, f.infoId.value).value, f.measures, labels)
  }

  /** The query over the fact rows, in fact order: one joined row per fact
      that names an existing entity row, and none for the others. */
  function Join(info: InfoTable, dims: Dims, facts: seq<FactRow>): (r: seq<JoinedRow>)
    requires InfoWf(info) && DimsWf(dims)
    ensures |r| <= |facts|
  {
    if facts == [] then []
    else
      var rest := Join(info, dims, facts[1..]);
      if Linked(info, facts[0]) then [Joined(info, dims, facts[0])] + rest else rest
  }

  /** The query's rows are exactly the joined rows of the linked facts. */
  lemma {:induction false} JoinContents(info: InfoTable, dims: Dims, facts: seq<FactRow>)
    requires InfoWf(info) && DimsWf(dims)
    ensures forall x :: x in Join(info, dims, facts) ==>
              exists i :: 0 <= i < |facts| && Linked(info, facts[i]) && x == Joined(info, dims, facts[i])
    ensures forall i :: 0 <= i < |facts| && Linked(info, facts[i]) ==> Joined(info, dims, facts[i]) in Join(info, dims, facts)
    decreases |facts|
  {
    if facts != [] {
      JoinContents(info, dims, facts[1..]);
      assert forall i :: 1 <= i < |facts| ==> facts[i] == facts[1..][i - 1];
    }
  }

  /** Under the schema's constraints the inner join loses no fact that has
      an entity id. */
  lemma JoinKeepsLinkedFacts(db: Db)
    requires Integrity(db)
    ensures forall f :: f in db.facts.rows && f.infoId.Some? ==> Linked(db.info, f)
  {
  }

  predicate HasMal(rows: seq<JoinedRow>, m: int) {
    exists i :: 0 <= i < |rows| && MalOf(rows[i]) == m
  }

  predicate UniqueMals(rows: seq<JoinedRow>) {
    forall i, j :: 0 <= i < j < |rows| ==> MalOf(rows[i]) != MalOf(rows[j])
  }

  /** The first row carrying mal_id `m`. */
  function FirstWith(rows: seq<JoinedRow>, m: int): (x: JoinedRow)
    requires HasMal(rows, m)
    ensures MalOf(x) == m
    ensures exists i :: 0 <= i < |rows| && rows[i] == x && forall j :: 0 <= j < i ==> MalOf(rows[j]) != m
  {
    if MalOf(rows[0]) == m then rows[0]
    else
      var k :| 0 <= k < |rows| && MalOf(rows[k]) == m;
      assert MalOf(rows[1..][k - 1]) == m;
      var x := FirstWith(rows[1..], m);
      var i :| 0 <= i < |rows[1..]| && rows[1..][i] == x && forall j :: 0 <= j < i ==> MalOf(rows[1..][j]) != m;
      assert rows[i + 1] == x;
      assert forall j :: 1 <= j < i + 1 ==> rows[j] == rows[1..][j - 1];
      x
  }

  /** `drop_duplicates(subset=['mal_id'])` after the mal_ids in `seen`
      have already been taken. */
  function KeepFirst(rows: seq<JoinedRow>, seen: set<int>): (r: seq<JoinedRow>)
    ensures |r| <= |rows|
    ensures forall x :: x in r ==> x in rows && MalOf(x) !in seen
  {
    if rows == [] then []
    else
      var m := MalOf(rows[0]);
      if m in seen then KeepFirst(rows[1..], seen)
      else [rows[0]] + KeepFirst(rows[1..], seen + {m})
  }

  lemma HasMalSplit(rows: seq<JoinedRow>, k: int)
    requires rows != []
    ensures HasMal(rows, k) <==> MalOf(rows[0]) == k || HasMal(rows[1..], k)
  {
    if HasMal(rows, k) && MalOf(rows[0]) != k {
      var i :| 0 <= i < |rows| && MalOf(rows[i]) == k;
      assert MalOf(rows[1..][i - 1]) == k;
    }
    if HasMal(rows[1..], k) {
      var i :| 0 <= i < |rows[1..]| && MalOf(rows[1..][i]) == k;
      assert MalOf(rows[i + 1]) == k;
    }
  }

  /** The kept rows carry exactly the mal_ids of the input not already
      taken. */
  lemma {:induction false} KeepFirstMals(rows: seq<JoinedRow>, seen: set<int>)
    ensures forall m :: HasMal(KeepFirst(rows, seen), m) <==> m !in seen && HasMal(rows, m)
    decreases |rows|
  {
    if rows != [] {
      var m := MalOf(rows[0]);
      var seen' := if m in seen then seen else seen + {m};
      KeepFirstMals(rows[1..], seen');
      var r := KeepFirst(rows, seen);
      forall k ensures HasMal(r, k) <==> k !in seen && HasMal(rows, k) {
        HasMalSplit(rows, k);
        if m !in seen {
          HasMalSplit(r, k);
          assert r[1..] == KeepFirst(rows[1..], seen');
        }
      }
    }
  }

  /** The kept rows carry pairwise distinct mal_ids. */
  lemma {:induction false} KeepFirstUnique(rows: seq<JoinedRow>, seen: set<int>)
    ensures UniqueMals(KeepFirst(rows, seen))
    decreases |rows|
  {
    if rows != [] {
      var m := MalOf(rows[0]);
      if m !in seen {
        KeepFirstUnique(rows[1..], seen + {m});
        var rest := KeepFirst(rows[1..], seen + {m});
        var r := KeepFirst(rows, seen);
        assert r == [rows[0]] + rest;
        forall i, j | 0 <= i < j < |r| ensures MalOf(r[i]) != MalOf(r[j]) {
          assert r[j] == rest[j - 1] && r[j] in rest;
          if i > 0 { assert r[i] == rest[i - 1]; }
        }
      } else {
        KeepFirstUnique(rows[1..], seen);
      }
    }
  }

  function DropDuplicateMals(rows: seq<JoinedRow>): (r: seq<JoinedRow>)
    ensures |r| <= |rows|
    ensures UniqueMals(r)
    ensures forall m :: HasMal(r, m) <==> HasMal(rows, m)
  {
    KeepFirstMals(rows, {});
    KeepFirstUnique(rows, {});
    KeepFirst(rows, {})
  }

  /** The row kept for each mal_id is its first row. */
  lemma {:induction false} KeepFirstKeepsFirst(rows: seq<JoinedRow>, seen: set<int>)
    ensures forall x :: x in KeepFirst(rows, seen) ==> HasMal(rows, MalOf(x)) && x == FirstWith(rows, MalOf(x))
    decreases |rows|
  {
    if rows != [] {
      var m := MalOf(rows[0]);
      assert forall i :: 1 <= i < |rows| ==> rows[i] == rows[1..][i - 1];
      KeepFirstKeepsFirst(rows[1..], if m in seen then seen else seen + {m});
      forall x | x in KeepFirst(rows, seen) ensures HasMal(rows, MalOf(x)) && x == FirstWith(rows, MalOf(x)) {
        assert MalOf(rows[0]) == m;
        if x != rows[0] || m in seen {
          assert x in KeepFirst(rows[1..], if m in seen then seen else seen + {m});
          var k := MalOf(x);
          var i :| 0 <= i < |rows[1..]| && MalOf(rows[1..][i]) == k;
          assert MalOf(rows[i + 1]) == k;
        }
      }
    }
  }

  /** `to_numeric(score)` then `dropna(subset=['score'])`. The score column
      of the query is DECIMAL, so the coercion keeps every value. */
  function DropMissingScores(rows: seq<JoinedRow>): (r: seq<JoinedRow>)
    ensures |r| <= |rows|
    ensures forall x :: x in r ==> x in rows && x.measures.score.Some?
    ensures forall x :: x in rows && x.measures.score.Some? ==> x in r
  {
    if rows == [] then []
    else
      var rest := DropMissingScores(rows[1..]);
      assert forall i :: 1 <= i < |rows| ==> rows[i] == rows[1..][i - 1];
      if rows[0].measures.score.Some? then [rows[0]] + rest else rest
  }

  /** Dropping rows keeps the `mal_id`s unique. */
  lemma {:induction false} DropMissingScoresUnique(rows: seq<JoinedRow>)
    requires UniqueMals(rows)
    ensures UniqueMals(DropMissingScores(rows))
  {
    if rows != [] {
      var rest := DropMissingScores(rows[1..]);
      assert UniqueMals(rows[1..]) by {
        forall i, j | 0 <= i < j < |rows[1..]| ensures MalOf(rows[1..][i]) != MalOf(rows[1..][j]) {
          assert rows[1..][i] == rows[i + 1] && rows[1..][j] == rows[j + 1];
        }
      }
      DropMissingScoresUnique(rows[1..]);
      if rows[0].measures.score.Some? {
        var r := [rows[0]] + rest;
        assert forall i :: 1 <= i < |r| ==> r[i] == rest[i - 1];
        forall j | 0 <= j < |rest| ensures MalOf(rest[j]) != MalOf(rows[0]) {
          assert rest[j] in rest;
          var i :| 0 <= i < |rows[1..]| && rows[1..][i] == rest[j];
          assert rows[i + 1] == rest[j];
        }
        assert DropMissingScores(rows) == r;
      }
    }
  }

  /** The whole pass over a store. */
  function Preprocess(db: Db): (r: seq<JoinedRow>)
    requires Integrity(db)
    ensures |r| <= |db.facts.rows|
    ensures UniqueMals(r)
    ensures forall x :: x in r ==> x.measures.score.Some? && x in Join(db.info, db.dims, db.facts.rows)
  {
    var joined := Join(db.info, db.dims, db.facts.rows);
    var d := DropDuplicateMals(joined);
    assert forall x :: x in d ==> x in joined;
    DropMissingScoresUnique(d);
    DropMissingScores(d)
  }

  /** Every mal_id that reaches the query output with a scored first row
      survives preprocessing, carried by that first row. */
  lemma PreprocessKeepsScoredFirstRows(db: Db, m: int)
    requires Integrity(db)
    requires HasMal(Join(db.info, db.dims, db.facts.rows), m)
    requires FirstWith(Join(db.info, db.dims, db.facts.rows), m).measures.score.Some?
    ensures FirstWith(Join(db.info, db.dims, db.facts.rows), m) in Preprocess(db)
  {
    var joined := Join(db.info, db.dims, db.facts.rows);
    var d := DropDuplicateMals(joined);
    KeepFirstKeepsFirst(joined, {});
    assert HasMal(d, m);
    var i :| 0 <= i < |d| && MalOf(d[i]) == m;
    assert d[i] in d;
  }

  /** The query row of a fact reads back what the fact recorded about its
      batch row. */
  lemma JoinedFact(info: InfoTable, dims: Dims, b: Batch, loads: Loads, r: MangaRecord, f: FactRow)
    requires InfoWf(info) && DimsWf(dims)
    requires FactOf(info, dims, b, loads, r, f)
    requires r.malId in MalIds(info)
    ensures Linked(info, f)
    ensures MalOf(Joined(info, dims, f)) == r.malId
    ensures Joined(info, dims, f).measures == StoredMeasures(MeasuresOf(b, r))
    ensures forall c: Category :: Joined(info, dims, f).primary.Get(c) == PrimaryName(SafeJsonLoads(Cell(r, c), loads))
  {
    var x := Joined(info, dims, f);
    assert info.byMal[MalOf(x)].id == f.infoId.value;
    forall c: Category ensures x.primary.Get(c) == PrimaryName(SafeJsonLoads(Cell(r, c), loads)) {
      assert PrimaryRule(dims.Get(c), SafeJsonLoads(Cell(r, c), loads), f.primary.Get(c));
      match PrimaryName(SafeJsonLoads(Cell(r, c), loads))
      case None =>
      case Some(n) =>
        var v := x.primary.Get(c).value;
        assert ReadBack(dims.Get(c))[v] == ReadBack(dims.Get(c))[n];
    }
  }

  /** Schema round trip: after a completed load, the query row of a batch
      row's fact gives back the row's entity, its measures and, for each
      category, exactly the name the row's list starts with (NULL when it
      does not start with a named dict). */
  lemma {:induction false} PrimaryNamesRoundTrip(db: Db, b: Batch, loads: Loads, s: Db, j: int)
    requires Integrity(db)
    requires Ingest(db, b, loads) == Done(s)
    requires 0 <= j < |b.rows|
    requires b.rows[j].malId in MalIds(s.info)
    ensures Integrity(s) && |s.facts.rows| == |db.facts.rows| + |b.rows|
    ensures Linked(s.info, s.facts.rows[|db.facts.rows| + j])
    ensures Joined(s.info, s.dims, s.facts.rows[|db.facts.rows| + j]) in Join(s.info, s.dims, s.facts.rows)
    ensures MalOf(Joined(s.info, s.dims, s.facts.rows[|db.facts.rows| + j])) == b.rows[j].malId
    ensures MeasuresFit(MeasuresOf(b, b.rows[j]))
    ensures Joined(s.info, s.dims, s.facts.rows[|db.facts.rows| + j]).measures == StoredMeasures(MeasuresOf(b, b.rows[j]))
    ensures forall c: Category :: Joined(s.info, s.dims, s.facts.rows[|db.facts.rows| + j]).primary.Get(c) ==
              PrimaryName(SafeJsonLoads(Cell(b.rows[j], c), loads))
  {
    IngestFacts(db, b, loads, s);
    var f := s.facts.rows[|db.facts.rows| + j];
    assert FactOf(s.info, s.dims, b, loads, b.rows[j], f);
    JoinedFact(s.info, s.dims, b, loads, b.rows[j], f);
    JoinContents(s.info, s.dims, s.facts.rows);
  }
}
