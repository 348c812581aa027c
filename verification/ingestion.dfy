/** The star-schema load: one batch of denormalised manga rows is written into
    the entity dimension (upsert on mal_id), the four categorical dimensions
    (insert-if-absent, then re-read), the fact table (one plain insert per
    row, primary foreign keys from the first list element) and the
    secondary-genre bridge (insert-if-absent on the composite key). */
module Ingestion {
  import opened Wrappers
  import opened Values
  import opened Normalizer
  import opened Store

  /** One row of the input batch. Dates are already coerced to text or
      `None`; `approved` and `images` are only read when the batch has those
      columns, and `rank` / `popularity` likewise. */
  datatype MangaRecord = MangaRecord(
    malId: int,
    title: Option<string>,
    titleEnglish: Option<string>,
    titleJapanese: Option<string>,
    titleSynonyms: Option<string>,
    synopsis: Option<string>,
    background: Option<string>,
    status: Option<string>,
    publishedFrom: Option<string>,
    publishedTo: Option<string>,
    url: Option<string>,
    kind: Option<string>,
    approved: Option<bool>,
    images: Option<string>,
    genres: RawCell,
    authors: RawCell,
    demographics: RawCell,
    serializations: RawCell,
    score: Option<real>,
    scoredBy: Option<int>,
    rank: Option<int>,
    popularity: Option<int>,
    members: Option<int>,
    favorites: Option<int>,
    volumes: Option<int>,
    chapters: Option<int>)

  /** The batch and which optional columns it carries. */
  datatype Batch = Batch(rows: seq<MangaRecord>, hasApproved: bool, hasImages: bool,
                         hasRank: bool, hasPopularity: bool)

  /** Why a load stops part-way: a dict element without `name` while
      collecting a dimension's names, a primary / secondary name that the
      re-read dimension map does not contain, or a fact row with a measure
      outside its column's range. */
  datatype IngestError =
    | NamelessElement(category: Category)
    | UnresolvedName(category: Category, name: Scalar)
    | MeasureOutOfRange(malId: int)

  /** The state reached by a phase, and the error that stopped it, if any.
      Writes made before an error stay in the store. */
  datatype Partial<T> = Done(val: T) | Halted(val: T, error: IngestError)

  // -----------------------------------------------------------------------
  // Entity dimension
  // -----------------------------------------------------------------------

  /** The entity columns derived from one record. */
  function InfoAttrsOf(b: Batch, r: MangaRecord): (a: InfoAttrs)
    ensures a.publishing <==> r.status == Some("Publishing")
    ensures !b.hasApproved ==> !a.approved
    ensures b.hasApproved && r.approved.None? ==> a.approved
    ensures b.hasApproved && r.approved.Some? ==> a.approved == r.approved.value
    ensures !b.hasImages ==> a.images.None?
    ensures b.hasImages ==> a.images == r.images
    ensures a.title == r.title && a.status == r.status && a.url == r.url && a.kind == r.kind
    ensures a.titleEnglish == r.titleEnglish && a.titleJapanese == r.titleJapanese
    ensures a.titleSynonyms == r.titleSynonyms
    ensures a.synopsis == r.synopsis && a.background == r.background
    ensures a.publishedFrom == r.publishedFrom && a.publishedTo == r.publishedTo
  {
    InfoAttrs(
      title := r.title,
      titleEnglish := r.titleEnglish,
      titleJapanese := r.titleJapanese,
      titleSynonyms := r.titleSynonyms,
      synopsis := r.synopsis,
      background := r.background,
      status := r.status,
      kind := r.kind,
      publishing := r.status == Some("Publishing"),
      publishedFrom := r.publishedFrom,
      publishedTo := r.publishedTo,
      // astype(bool): a missing cell is NaN, and NaN is truthy
      approved := if b.hasApproved then r.approved.GetOr(true) else false,
      url := r.url,
      images := if b.hasImages then r.images else None)
  }

  const TitleWidth: nat := 512
  const LabelWidth: nat := 255
  const UrlWidth: nat := 1024

  predicate FitsVarchar(v: Option<string>, width: nat) {
    v.None? || |v.value| <= width
  }

  /** The store accepts the row: every VARCHAR value fits its declared width. */
  predicate Storable(a: InfoAttrs) {
    && FitsVarchar(a.title, TitleWidth)
    && FitsVarchar(a.titleEnglish, TitleWidth)
    && FitsVarchar(a.titleJapanese, TitleWidth)
    && FitsVarchar(a.status, LabelWidth)
    && FitsVarchar(a.kind, LabelWidth)
    && FitsVarchar(a.url, UrlWidth)
  }

  predicate Accepted(b: Batch, r: MangaRecord) {
    Storable(InfoAttrsOf(b, r))
  }

  /** One iteration of the upsert loop: a rejected row is logged and skipped. */
  function UpsertRecord(t: InfoTable, b: Batch, r: MangaRecord): (u: InfoTable)
    requires InfoWf(t)
    ensures InfoWf(u)
  {
    if Accepted(b, r) then Upsert(t, r.malId, InfoAttrsOf(b, r)) else t
  }

  /** The upsert loop over `rows`, first row first. */
  function LoadInfo(t: InfoTable, b: Batch, rows: seq<MangaRecord>): (u: InfoTable)
    requires InfoWf(t)
    ensures InfoWf(u)
    decreases |rows|
  {
    if rows == [] then t
    else UpsertRecord(LoadInfo(t, b, rows[..|rows| - 1]), b, rows[|rows| - 1])
  }

  /** Row `i` is accepted and carries `m`. */
  predicate WritesMal(b: Batch, rows: seq<MangaRecord>, i: int, m: int) {
    0 <= i < |rows| && Accepted(b, rows[i]) && rows[i].malId == m
  }

  /** The index of the last accepted row carrying mal_id `m`. */
  function LastIndex(b: Batch, rows: seq<MangaRecord>, m: int): (r: Option<nat>)
    ensures r.Some? <==> exists i :: WritesMal(b, rows, i, m)
    ensures r.Some? ==> WritesMal(b, rows, r.value, m) && forall j :: r.value < j < |rows| ==> !WritesMal(b, rows, j, m)
    decreases |rows|
  {
    if rows == [] then None
    else
      var n := |rows| - 1;
      if WritesMal(b, rows, n, m) then Some(n)
      else
        var r := LastIndex(b, rows[..n], m);
        assert forall i :: WritesMal(b, rows[..n], i, m) <==> i < n && WritesMal(b, rows, i, m) by {
          forall i ensures WritesMal(b, rows[..n], i, m) <==> i < n && WritesMal(b, rows, i, m) {
            if 0 <= i < n { assert rows[..n][i] == rows[i]; }
          }
        }
        r
  }

  /** The attributes of the last accepted row carrying mal_id `m`. */
  function LastWrite(b: Batch, rows: seq<MangaRecord>, m: int): (r: Option<InfoAttrs>)
    ensures r.Some? <==> exists i :: WritesMal(b, rows, i, m)
    ensures r.Some? ==> exists i :: WritesMal(b, rows, i, m) && r.value == InfoAttrsOf(b, rows[i]) &&
                                  forall j :: i < j < |rows| ==> !WritesMal(b, rows, j, m)
  {
    match LastIndex(b, rows, m)
    case None => None
    case Some(i) => Some(InfoAttrsOf(b, rows[i]))
  }

  /** The last write over `rows` is the last row's, if it writes `m`, and
      otherwise the last write over the rows before it. */
  lemma LastWriteStep(b: Batch, rows: seq<MangaRecord>, m: int)
    requires rows != []
    ensures LastWrite(b, rows, m) ==
              if WritesMal(b, rows, |rows| - 1, m) then Some(InfoAttrsOf(b, rows[|rows| - 1]))
              else LastWrite(b, rows[..|rows| - 1], m)
  {
    var n := |rows| - 1;
    if !WritesMal(b, rows, n, m) {
      assert LastIndex(b, rows, m) == LastIndex(b, rows[..n], m);
      if LastIndex(b, rows, m).Some? {
        assert rows[..n][LastIndex(b, rows, m).value] == rows[LastIndex(b, rows, m).value];
      }
    }
  }

  /** The entity load: the mal_ids present afterwards are the old ones plus
      those of accepted rows; each such mal_id holds the attributes of its
      LAST accepted row (last write wins); untouched rows are unchanged and
      no existing row changes its id. */
  lemma {:induction false} LoadInfoContents(t: InfoTable, b: Batch, rows: seq<MangaRecord>)
    requires InfoWf(t)
    ensures forall m :: m in MalIds(LoadInfo(t, b, rows)) <==> m in MalIds(t) || LastWrite(b, rows, m).Some?
    ensures forall m :: LastWrite(b, rows, m).Some? ==>
              LoadInfo(t, b, rows).byMal[m].attrs == LastWrite(b, rows, m).value
    ensures forall m :: m in MalIds(t) && LastWrite(b, rows, m).None? ==>
              LoadInfo(t, b, rows).byMal[m] == t.byMal[m]
    ensures forall m :: m in MalIds(t) ==> LoadInfo(t, b, rows).byMal[m].id == t.byMal[m].id
    ensures InfoIds(t) <= InfoIds(LoadInfo(t, b, rows))
    decreases |rows|
  {
    forall m
      ensures m in MalIds(LoadInfo(t, b, rows)) <==> m in MalIds(t) || LastWrite(b, rows, m).Some?
      ensures LastWrite(b, rows, m).Some? ==> LoadInfo(t, b, rows).byMal[m].attrs == LastWrite(b, rows, m).value
      ensures m in MalIds(t) && LastWrite(b, rows, m).None? ==> LoadInfo(t, b, rows).byMal[m] == t.byMal[m]
      ensures m in MalIds(t) ==> LoadInfo(t, b, rows).byMal[m].id == t.byMal[m].id {
      LoadInfoAt(t, b, rows, m);
    }
    LoadInfoIds(t, b, rows);
  }

  /** `LoadInfoContents` for one mal_id. */
  lemma {:induction false} LoadInfoAt(t: InfoTable, b: Batch, rows: seq<MangaRecord>, m: int)
    requires InfoWf(t)
    ensures m in MalIds(LoadInfo(t, b, rows)) <==> m in MalIds(t) || LastWrite(b, rows, m).Some?
    ensures LastWrite(b, rows, m).Some? ==> LoadInfo(t, b, rows).byMal[m].attrs == LastWrite(b, rows, m).value
    ensures m in MalIds(t) && LastWrite(b, rows, m).None? ==> LoadInfo(t, b, rows).byMal[m] == t.byMal[m]
    ensures m in MalIds(t) ==> LoadInfo(t, b, rows).byMal[m].id == t.byMal[m].id
    decreases |rows|
  {
    if rows != [] {
      var n := |rows| - 1;
      var front := rows[..n];
      LoadInfoAt(t, b, front, m);
      LastWriteStep(b, rows, m);
      assert LoadInfo(t, b, rows) == UpsertRecord(LoadInfo(t, b, front), b, rows[n]);
    }
  }

  lemma {:induction false} LoadInfoIds(t: InfoTable, b: Batch, rows: seq<MangaRecord>)
    requires InfoWf(t)
    ensures InfoIds(t) <= InfoIds(LoadInfo(t, b, rows))
    decreases |rows|
  {
    if rows != [] {
      LoadInfoIds(t, b, rows[..|rows| - 1]);
    }
  }

  /** Re-ingesting a mal_id that is already stored never adds a row. */
  lemma {:induction false} LoadInfoNoNewRowForKnownMal(t: InfoTable, b: Batch, rows: seq<MangaRecord>)
    requires InfoWf(t)
    requires forall i :: 0 <= i < |rows| ==> rows[i].malId in MalIds(t)
    ensures MalIds(LoadInfo(t, b, rows)) == MalIds(t)
    ensures |LoadInfo(t, b, rows).byMal| == |t.byMal|
  {
    LoadInfoContents(t, b, rows);
    assert MalIds(LoadInfo(t, b, rows)) == MalIds(t) by {
      forall m | m in MalIds(LoadInfo(t, b, rows)) ensures m in MalIds(t) {
        if LastWrite(b, rows, m).Some? {
          var i :| WritesMal(b, rows, i, m);
          assert rows[i].malId in MalIds(t);
        }
      }
      forall m | m in MalIds(t) ensures m in MalIds(LoadInfo(t, b, rows)) {
      }
    }
  }

  // -----------------------------------------------------------------------
  // Categorical dimensions
  // -----------------------------------------------------------------------

  function Cell(r: MangaRecord, c: Category): RawCell {
    match c
    case Genre => r.genres
    case Author => r.authors
    case Demographic => r.demographics
    case Serialization => r.serializations
  }

  function Column(rows: seq<MangaRecord>, c: Category): (col: seq<RawCell>)
    ensures |col| == |rows|
    ensures forall i :: 0 <= i < |rows| ==> col[i] == Cell(rows[i], c)
  {
    seq(|rows|, i requires 0 <= i < |rows| => Cell(rows[i], c))
  }

  /** Table `t1` holds exactly the names of `t0` plus the truthy names the
      column cites in any position. */
  ghost predicate GainsCitedNames(t0: DimTable, t1: DimTable, col: seq<RawCell>, loads: Loads) {
    forall x :: x in DimNames(t1) <==> x in DimNames(t0) || (Truthy(x) && Cites(col, loads, x))
  }

  /** Every name `t1` has beyond those of `t0` is truthy. */
  ghost predicate OnlyTruthyAdded(t0: DimTable, t1: DimTable) {
    forall x :: x in DimNames(t1) ==> x in DimNames(t0) || Truthy(x)
  }

  /** One dimension: collect the distinct truthy names of the column, insert
      each if absent, and leave the other dimensions alone. The dimension
      then holds its old names, with their old ids, plus every truthy name
      the batch cites in any position. */
  function ResolveDimension(d: Dims, rows: seq<MangaRecord>, c: Category, loads: Loads): (r: Result<Dims, IngestError>)
    requires DimsWf(d)
    ensures r.Success? ==> DimsWf(r.value)
    ensures r.Failure? <==> !ColumnWellNamed(Column(rows, c), loads)
    ensures r.Failure? ==> r.error == NamelessElement(c)
    ensures r.Success? ==> forall e :: e != c ==> r.value.Get(e) == d.Get(e)
    ensures r.Success? ==> GainsCitedNames(d.Get(c), r.value.Get(c), Column(rows, c), loads)
    ensures r.Success? ==> forall x :: x in DimNames(d.Get(c)) ==>
              ReadBack(r.value.Get(c))[x] == ReadBack(d.Get(c))[x]
    ensures r.Success? ==> DimIds(d.Get(c)) <= DimIds(r.value.Get(c))
  {
    match DimensionNames(Column(rows, c), loads)
    case Failure(_) => Failure(NamelessElement(c))
    case Success(names) =>
      var t := Populate(d.Get(c), names);
      PopulateContents(d.Get(c), names);
      var d' := d.Set(c, t);
      assert forall e: Category :: DimWf(d'.Get(e)) by {
        forall e: Category ensures DimWf(d'.Get(e)) {
          if e != c { assert DimWf(d.Get(e)); }
        }
      }
      Success(d')
  }

  const Categories: seq<Category> := [Genre, Author, Demographic, Serialization]

  /** The four dimension passes in order; a failing pass stops the load with
      the earlier passes' inserts in place. */
  function ResolveAll(d: Dims, rows: seq<MangaRecord>, loads: Loads, cats: seq<Category>): (r: Partial<Dims>)
    requires DimsWf(d)
    ensures DimsWf(r.val)
    decreases |cats|
  {
    if cats == [] then Done(d)
    else
      match ResolveDimension(d, rows, cats[0], loads)
      case Failure(e) => Halted(d, e)
      case Success(d1) => ResolveAll(d1, rows, loads, cats[1..])
  }

  /** Whether or not the passes complete, every dimension keeps its names
      and ids, gains only truthy names, and a category not in `cats` is
      untouched. */
  lemma {:induction false} ResolveAllKeeps(d: Dims, rows: seq<MangaRecord>, loads: Loads, cats: seq<Category>)
    requires DimsWf(d)
    ensures forall c: Category :: KeepsIds(d.Get(c), ResolveAll(d, rows, loads, cats).val.Get(c))
    ensures forall c: Category :: DimIds(d.Get(c)) <= DimIds(ResolveAll(d, rows, loads, cats).val.Get(c))
    ensures forall c: Category :: OnlyTruthyAdded(d.Get(c), ResolveAll(d, rows, loads, cats).val.Get(c))
    ensures forall c: Category :: c !in cats ==> ResolveAll(d, rows, loads, cats).val.Get(c) == d.Get(c)
    decreases |cats|
  {
    if cats != [] {
      var r0 := ResolveDimension(d, rows, cats[0], loads);
      if r0.Success? {
        var d1 := r0.value;
        var r := ResolveAll(d1, rows, loads, cats[1..]);
        ResolveAllKeeps(d1, rows, loads, cats[1..]);
        assert ResolveAll(d, rows, loads, cats) == r;
        forall c: Category
          ensures KeepsIds(d.Get(c), r.val.Get(c))
          ensures DimIds(d.Get(c)) <= DimIds(r.val.Get(c))
          ensures OnlyTruthyAdded(d.Get(c), r.val.Get(c))
          ensures c !in cats ==> r.val.Get(c) == d.Get(c) {
          assert KeepsIds(d1.Get(c), r.val.Get(c)) && OnlyTruthyAdded(d1.Get(c), r.val.Get(c));
          if c == cats[0] {
            assert GainsCitedNames(d.Get(c), d1.Get(c), Column(rows, c), loads);
          } else {
            assert d1.Get(c) == d.Get(c);
            assert c in cats ==> c in cats[1..];
          }
        }
      }
    }
  }

  lemma NoDupTail<T>(xs: seq<T>)
    requires xs != [] && NoDup(xs)
    ensures NoDup(xs[1..]) && xs[0] !in xs[1..]
  {
    forall i, j | 0 <= i < j < |xs[1..]| ensures xs[1..][i] != xs[1..][j] {
      assert xs[1..][i] == xs[i + 1] && xs[1..][j] == xs[j + 1];
    }
    forall j | 0 <= j < |xs[1..]| ensures xs[1..][j] != xs[0] {
      assert xs[1..][j] == xs[j + 1];
    }
  }

  /** The passes complete iff every listed column is well named, and then
      each listed dimension holds exactly its old names plus the truthy
      names its column cites. */
  lemma {:induction false} ResolveAllOutcome(d: Dims, rows: seq<MangaRecord>, loads: Loads, cats: seq<Category>)
    requires DimsWf(d)
    requires NoDup(cats)
    ensures ResolveAll(d, rows, loads, cats).Done? <==> forall c :: c in cats ==> ColumnWellNamed(Column(rows, c), loads)
    ensures ResolveAll(d, rows, loads, cats).Done? ==>
              forall c: Category :: c in cats ==> GainsCitedNames(d.Get(c), ResolveAll(d, rows, loads, cats).val.Get(c), Column(rows, c), loads)
    decreases |cats|
  {
    if cats != [] {
      var r0 := ResolveDimension(d, rows, cats[0], loads);
      assert forall c :: c in cats <==> c == cats[0] || c in cats[1..];
      if r0.Success? {
        var d1 := r0.value;
        var r := ResolveAll(d1, rows, loads, cats[1..]);
        NoDupTail(cats);
        ResolveAllOutcome(d1, rows, loads, cats[1..]);
        ResolveAllKeeps(d1, rows, loads, cats[1..]);
        assert ResolveAll(d, rows, loads, cats) == r;
        if r.Done? {
          forall c: Category | c in cats
            ensures GainsCitedNames(d.Get(c), r.val.Get(c), Column(rows, c), loads) {
            if c == cats[0] {
              assert r.val.Get(c) == d1.Get(c);
            } else {
              assert d1.Get(c) == d.Get(c);
            }
          }
        }
      }
    }
  }

  // -----------------------------------------------------------------------
  // Fact table
  // -----------------------------------------------------------------------

  /** The four name -> id maps re-read after the dimension passes. */
  datatype Lookups = Lookups(genres: map<Scalar, nat>, authors: map<Scalar, nat>,
                             demographics: map<Scalar, nat>, serializations: map<Scalar, nat>)
  {
    function Get(c: Category): map<Scalar, nat> {
      match c
      case Genre => genres
      case Author => authors
      case Demographic => demographics
      case Serialization => serializations
    }
  }

  function ReadAll(d: Dims): Lookups
    requires DimsWf(d)
  {
    assert DimWf(d.Get(Genre)) && DimWf(d.Get(Author));
    assert DimWf(d.Get(Demographic)) && DimWf(d.Get(Serialization));
    Lookups(ReadBack(d.genres), ReadBack(d.authors), ReadBack(d.demographics), ReadBack(d.serializations))
  }

  /** The re-read maps are the stored dimensions, category by category. */
  lemma ReadAllReads(d: Dims)
    requires DimsWf(d)
    ensures forall c: Category :: ReadAll(d).Get(c) == ReadBack(d.Get(c))
  {
    forall c: Category ensures ReadAll(d).Get(c) == ReadBack(d.Get(c)) {
      match c
      case Genre =>
      case Author =>
      case Demographic =>
      case Serialization =>
    }
  }

  /** What the fact and bridge passes read: the batch, the mal_id -> id map
      merged onto it, the re-read dimension maps, and the JSON decoder. */
  datatype Ctx = Ctx(b: Batch, infoIds: map<int, nat>, maps: Lookups, loads: Loads)

  function Items(ctx: Ctx, r: MangaRecord, c: Category): seq<Elem> {
    SafeJsonLoads(Cell(r, c), ctx.loads)
  }

  /** The left merge on mal_id: NULL when the entity load skipped the row. */
  function InfoIdOf(ctx: Ctx, r: MangaRecord): Option<nat> {
    if r.malId in ctx.infoIds then Some(ctx.infoIds[r.malId]) else None
  }

  /** The primary foreign key: NULL unless the list starts with a dict that
      has `name`; then that name's id, and a name missing from the map stops
      the load. */
  function PrimaryId(items: seq<Elem>, c: Category, m: map<Scalar, nat>): (r: Result<Option<nat>, IngestError>)
    ensures r.Failure? <==> PrimaryName(items).Some? && PrimaryName(items).value !in m
    ensures r.Failure? ==> r.error == UnresolvedName(c, PrimaryName(items).value)
    ensures r.Success? ==> (r.value.Some? <==> |items| > 0 && NamedObj(items[0]))
    ensures r.Success? && r.value.Some? ==> r.value.value == m[items[0].fields["name"]]
  {
    match PrimaryName(items)
    case None => Success(None)
    case Some(n) => if n in m then Success(Some(m[n])) else Failure(UnresolvedName(c, n))
  }

  /** The measures of a fact row; `rank` and `popularity` are read with
      `.get`, so they are NULL when the batch lacks the column. */
  function MeasuresOf(b: Batch, r: MangaRecord): (m: Measures)
    ensures !b.hasRank ==> m.rankVal.None?
    ensures !b.hasPopularity ==> m.popularity.None?
    ensures b.hasRank ==> m.rankVal == r.rank
    ensures b.hasPopularity ==> m.popularity == r.popularity
    ensures m.score == r.score && m.scoredBy == r.scoredBy && m.members == r.members
    ensures m.favorites == r.favorites && m.volumes == r.volumes && m.chapters == r.chapters
  {
    Measures(
      score := r.score,
      scoredBy := r.scoredBy,
      rankVal := if b.hasRank then r.rank else None,
      popularity := if b.hasPopularity then r.popularity else None,
      members := r.members,
      favorites := r.favorites,
      volumes := r.volumes,
      chapters := r.chapters)
  }

  datatype FactValues = FactValues(infoId: Option<nat>, measures: Measures, primary: Primaries)

  function ValuesOf(f: FactRow): FactValues {
    FactValues(f.infoId, f.measures, f.primary)
  }

  predicate PrimariesResolve(ctx: Ctx, r: MangaRecord) {
    forall c: Category :: PrimaryId(Items(ctx, r, c), c, ctx.maps.Get(c)).Success?
  }

  /** The values one batch row contributes to the fact table, or the error of
      its first unresolved primary name (genre, author, demographic,
      serialization, in that order), or, once those resolve, the server's
      refusal of a measure outside its column's range. */
  function FactFor(ctx: Ctx, r: MangaRecord): (v: Result<FactValues, IngestError>)
    ensures v.Success? <==> PrimariesResolve(ctx, r) && MeasuresFit(MeasuresOf(ctx.b, r))
    ensures PrimariesResolve(ctx, r) && !MeasuresFit(MeasuresOf(ctx.b, r)) ==>
              v == Failure(MeasureOutOfRange(r.malId))
    ensures v.Success? ==> v.value.infoId == InfoIdOf(ctx, r)
    ensures v.Success? ==> v.value.measures == StoredMeasures(MeasuresOf(ctx.b, r))
    ensures v.Success? ==> forall c: Category ::
              PrimaryId(Items(ctx, r, c), c, ctx.maps.Get(c)) == Success(v.value.primary.Get(c))
  {
    var g := PrimaryId(Items(ctx, r, Genre), Genre, ctx.maps.genres);
    var a := PrimaryId(Items(ctx, r, Author), Author, ctx.maps.authors);
    var d := PrimaryId(Items(ctx, r, Demographic), Demographic, ctx.maps.demographics);
    var s := PrimaryId(Items(ctx, r, Serialization), Serialization, ctx.maps.serializations);
    if g.Failure? then Failure(g.error)
    else if a.Failure? then Failure(a.error)
    else if d.Failure? then Failure(d.error)
    else if s.Failure? then Failure(s.error)
    else
      var p := Primaries(g.value, a.value, d.value, s.value);
      assert forall c: Category :: PrimaryId(Items(ctx, r, c), c, ctx.maps.Get(c)) == Success(p.Get(c)) by {
        forall c: Category ensures PrimaryId(Items(ctx, r, c), c, ctx.maps.Get(c)) == Success(p.Get(c)) {
          if c.Genre? {} else if c.Author? {} else if c.Demographic? {} else { assert c.Serialization?; }
        }
      }
      var m := MeasuresOf(ctx.b, r);
      if !MeasuresFit(m) then Failure(MeasureOutOfRange(r.malId))
      else Success(FactValues(InfoIdOf(ctx, r), StoredMeasures(m), p))
  }

  /** Plain INSERTs of precomputed row values, in order, stopping at the
      first row whose values could not be computed. */
  function InsertAll(t: FactTable, vs: seq<Result<FactValues, IngestError>>): (p: Partial<FactTable>)
    ensures |t.rows| <= |p.val.rows| <= |t.rows| + |vs|
    ensures p.val.rows[..|t.rows|] == t.rows
    decreases |vs|
  {
    if vs == [] then Done(t)
    else
      match vs[0]
      case Failure(e) => Halted(t, e)
      case Success(v) =>
        var t1 := InsertFact(t, v.infoId, v.measures, v.primary);
        var p := InsertAll(t1, vs[1..]);
        assert p.val.rows[..|t1.rows|][..|t.rows|] == t1.rows[..|t.rows|];
        p
  }

  /** Every inserted row holds the values at its offset; the inserts all
      happen iff every value is present, and a halt reports the error of
      some row. */
  lemma {:induction false} InsertAllRows(t: FactTable, vs: seq<Result<FactValues, IngestError>>)
    ensures forall i :: |t.rows| <= i < |InsertAll(t, vs).val.rows| ==>
              vs[i - |t.rows|] == Success(ValuesOf(InsertAll(t, vs).val.rows[i]))
    ensures InsertAll(t, vs).Done? <==> forall i :: 0 <= i < |vs| ==> vs[i].Success?
    ensures InsertAll(t, vs).Done? ==> |InsertAll(t, vs).val.rows| == |t.rows| + |vs|
    ensures InsertAll(t, vs).Halted? ==> exists i :: 0 <= i < |vs| && vs[i] == Failure(InsertAll(t, vs).error)
    decreases |vs|
  {
    if vs != [] && vs[0].Success? {
      var v := vs[0].value;
      var t1 := InsertFact(t, v.infoId, v.measures, v.primary);
      InsertAllRows(t1, vs[1..]);
      var p := InsertAll(t1, vs[1..]);
      assert InsertAll(t, vs) == p;
      assert p.val.rows[|t.rows|] == t1.rows[|t.rows|] by {
        assert p.val.rows[..|t1.rows|][|t.rows|] == t1.rows[|t.rows|];
      }
      forall i | |t.rows| <= i < |p.val.rows|
        ensures vs[i - |t.rows|] == Success(ValuesOf(p.val.rows[i])) {
        if i > |t.rows| {
          assert vs[i - |t.rows|] == vs[1..][i - |t1.rows|];
        }
      }
      if forall i :: 0 <= i < |vs[1..]| ==> vs[1..][i].Success? {
        forall i | 0 <= i < |vs| ensures vs[i].Success? {
          if i > 0 { assert vs[i] == vs[1..][i - 1]; }
        }
      }
      if p.Halted? {
        var i :| 0 <= i < |vs[1..]| && vs[1..][i] == Failure(p.error);
        assert vs[i + 1] == Failure(p.error);
      }
    }
  }

  function RowValues(ctx: Ctx, rows: seq<MangaRecord>): (vs: seq<Result<FactValues, IngestError>>)
    ensures |vs| == |rows|
    ensures forall i :: 0 <= i < |rows| ==> vs[i] == FactFor(ctx, rows[i])
  {
    seq(|rows|, i requires 0 <= i < |rows| => FactFor(ctx, rows[i]))
  }

  /** The fact pass: one plain INSERT per row, in batch order, stopping at the
      first row with an unresolved primary name. */
  function LoadFacts(t: FactTable, ctx: Ctx, rows: seq<MangaRecord>): (p: Partial<FactTable>)
    ensures |t.rows| <= |p.val.rows| <= |t.rows| + |rows|
    ensures p.val.rows[..|t.rows|] == t.rows
  {
    InsertAll(t, RowValues(ctx, rows))
  }

  /** Every row the fact pass inserts is the fact of the batch row at the
      same offset; the pass completes iff every row's primary names resolve,
      and then it has inserted exactly one row per batch row; a halted pass
      reports the error of some batch row. */
  lemma LoadFactsRows(t: FactTable, ctx: Ctx, rows: seq<MangaRecord>)
    ensures forall i :: |t.rows| <= i < |LoadFacts(t, ctx, rows).val.rows| ==>
              FactFor(ctx, rows[i - |t.rows|]) == Success(ValuesOf(LoadFacts(t, ctx, rows).val.rows[i]))
    ensures LoadFacts(t, ctx, rows).Done? <==> forall i :: 0 <= i < |rows| ==> FactFor(ctx, rows[i]).Success?
    ensures LoadFacts(t, ctx, rows).Done? ==> |LoadFacts(t, ctx, rows).val.rows| == |t.rows| + |rows|
    ensures LoadFacts(t, ctx, rows).Halted? ==>
              exists i :: 0 <= i < |rows| && FactFor(ctx, rows[i]) == Failure(LoadFacts(t, ctx, rows).error)
  {
    InsertAllRows(t, RowValues(ctx, rows));
  }

  // -----------------------------------------------------------------------
  // Secondary-genre bridge
  // -----------------------------------------------------------------------

  /** The row's secondary genres: dict-with-`name` elements at index >= 1. */
  function Secondaries(ctx: Ctx, r: MangaRecord): seq<Scalar> {
    SecondaryNames(Items(ctx, r, Genre))
  }

  /** `q` links entity `k` to the id of one of `names`. */
  predicate PairFrom(k: Option<nat>, names: seq<Scalar>, m: map<Scalar, nat>, q: BridgeRow) {
    k == Some(q.infoId) && exists x :: x in names && x in m && m[x] == q.genreId
  }

  /** The inner loop for one row: look each secondary name up (an unknown
      name stops the load) and insert the pair if absent. A row whose entity
      id is NULL contributes no pair. */
  function InsertSecondaries(bridge: seq<BridgeRow>, k: Option<nat>, names: seq<Scalar>,
                             m: map<Scalar, nat>): (p: Partial<seq<BridgeRow>>)
    requires NoDup(bridge)
    ensures NoDup(p.val)
    ensures forall q :: q in bridge ==> q in p.val
    ensures forall q :: q in p.val ==> q in bridge || PairFrom(k, names, m, q)
    ensures p.Done? <==> forall x :: x in names ==> x in m
    ensures p.Done? ==> forall q :: PairFrom(k, names, m, q) ==> q in p.val
    ensures p.Halted? ==> exists x :: x in names && x !in m && p.error == UnresolvedName(Genre, x)
    decreases |names|
  {
    if names == [] then Done(bridge)
    else if names[0] !in m then Halted(bridge, UnresolvedName(Genre, names[0]))
    else
      var b1 := if k.Some? then InsertPair(bridge, BridgeRow(k.value, m[names[0]])) else bridge;
      var p := InsertSecondaries(b1, k, names[1..], m);
      assert forall x :: x in names <==> x == names[0] || x in names[1..];
      assert forall q :: PairFrom(k, names, m, q) <==>
        (k.Some? && q == BridgeRow(k.value, m[names[0]])) || PairFrom(k, names[1..], m, q);
      p
  }

  predicate RowPair(ctx: Ctx, r: MangaRecord, q: BridgeRow) {
    PairFrom(InfoIdOf(ctx, r), Secondaries(ctx, r), ctx.maps.genres, q)
  }

  predicate SecondariesResolve(ctx: Ctx, r: MangaRecord) {
    forall x :: x in Secondaries(ctx, r) ==> x in ctx.maps.genres
  }

  /** Some batch row yields the pair `q`. */
  predicate BatchPair(ctx: Ctx, rows: seq<MangaRecord>, q: BridgeRow) {
    exists i :: 0 <= i < |rows| && RowPair(ctx, rows[i], q)
  }

  /** The bridge pass over the batch: pairs are never duplicated, none is
      lost, every new pair comes from a secondary genre of some row, and a
      completed pass holds every such pair. */
  function LoadBridge(bridge: seq<BridgeRow>, ctx: Ctx, rows: seq<MangaRecord>): (p: Partial<seq<BridgeRow>>)
    requires NoDup(bridge)
    ensures NoDup(p.val)
    decreases |rows|
  {
    if rows == [] then Done(bridge)
    else
      var here := InsertSecondaries(bridge, InfoIdOf(ctx, rows[0]), Secondaries(ctx, rows[0]), ctx.maps.genres);
      if here.Halted? then Halted(here.val, here.error)
      else LoadBridge(here.val, ctx, rows[1..])
  }

  /** What the bridge pass adds: only pairs the batch cites, all of them when no row halts. */
  lemma {:induction false} LoadBridgeContents(bridge: seq<BridgeRow>, ctx: Ctx, rows: seq<MangaRecord>)
    requires NoDup(bridge)
    ensures forall q :: q in bridge ==> q in LoadBridge(bridge, ctx, rows).val
    ensures forall q :: q in LoadBridge(bridge, ctx, rows).val ==> q in bridge || BatchPair(ctx, rows, q)
    ensures LoadBridge(bridge, ctx, rows).Done? ==> forall q :: BatchPair(ctx, rows, q) ==> q in LoadBridge(bridge, ctx, rows).val
    decreases |rows|
  {
    if rows != [] {
      var here := InsertSecondaries(bridge, InfoIdOf(ctx, rows[0]), Secondaries(ctx, rows[0]), ctx.maps.genres);
      BatchPairStep(ctx, rows);
      if here.Done? {
        LoadBridgeContents(here.val, ctx, rows[1..]);
      }
    }
  }

  /** A batch pair comes from the first row or from the rest. */
  lemma BatchPairStep(ctx: Ctx, rows: seq<MangaRecord>)
    requires rows != []
    ensures forall q :: BatchPair(ctx, rows, q) <==> RowPair(ctx, rows[0], q) || BatchPair(ctx, rows[1..], q)
  {
    forall q ensures BatchPair(ctx, rows, q) <==> RowPair(ctx, rows[0], q) || BatchPair(ctx, rows[1..], q) {
      if BatchPair(ctx, rows[1..], q) {
        var i :| 0 <= i < |rows[1..]| && RowPair(ctx, rows[1..][i], q);
        assert RowPair(ctx, rows[i + 1], q);
      }
      if BatchPair(ctx, rows, q) && !RowPair(ctx, rows[0], q) {
        var i :| 0 <= i < |rows| && RowPair(ctx, rows[i], q);
        assert RowPair(ctx, rows[1..][i - 1], q);
      }
    }
  }

  /** The bridge pass completes exactly when every row's secondary genres resolve. */
  lemma {:induction false} LoadBridgeDone(bridge: seq<BridgeRow>, ctx: Ctx, rows: seq<MangaRecord>)
    requires NoDup(bridge)
    ensures LoadBridge(bridge, ctx, rows).Done? <==> forall i :: 0 <= i < |rows| ==> SecondariesResolve(ctx, rows[i])
    decreases |rows|
  {
    if rows != [] {
      var here := InsertSecondaries(bridge, InfoIdOf(ctx, rows[0]), Secondaries(ctx, rows[0]), ctx.maps.genres);
      if here.Halted? {
        assert !SecondariesResolve(ctx, rows[0]);
      } else {
        LoadBridgeDone(here.val, ctx, rows[1..]);
        assert (forall i :: 0 <= i < |rows| ==> SecondariesResolve(ctx, rows[i])) <==>
               (forall i :: 0 <= i < |rows[1..]| ==> SecondariesResolve(ctx, rows[1..][i])) by {
          if forall i :: 0 <= i < |rows[1..]| ==> SecondariesResolve(ctx, rows[1..][i]) {
            forall i | 0 <= i < |rows| ensures SecondariesResolve(ctx, rows[i]) {
              if i > 0 { assert rows[i] == rows[1..][i - 1]; }
            }
          }
        }
      }
    }
  }

  // -----------------------------------------------------------------------
  // The whole load
  // -----------------------------------------------------------------------

  function InfoAfter(db: Db, b: Batch): InfoTable
    requires Integrity(db)
  {
    LoadInfo(db.info, b, b.rows)
  }

  lemma CategoriesDistinct()
    ensures NoDup(Categories)
    ensures forall c: Category :: c in Categories
  {
    forall c: Category ensures c in Categories {
      if c.Genre? { assert Categories[0] == c; }
      else if c.Author? { assert Categories[1] == c; }
      else if c.Demographic? { assert Categories[2] == c; }
      else { assert Categories[3] == c; }
    }
  }

  function DimsAfter(db: Db, b: Batch, loads: Loads): Partial<Dims>
    requires Integrity(db)
  {
    ResolveAll(db.dims, b.rows, loads, Categories)
  }

  function CtxAfter(db: Db, b: Batch, loads: Loads): Ctx
    requires Integrity(db)
  {
    Ctx(b, InfoIdMap(InfoAfter(db, b)), ReadAll(DimsAfter(db, b, loads).val), loads)
  }

  /** The store after the entity and dimension passes. */
  function Stage1(db: Db, b: Batch, loads: Loads): Db
    requires Integrity(db)
  {
    db.(info := InfoAfter(db, b), dims := DimsAfter(db, b, loads).val)
  }

  function FactsAfter(db: Db, b: Batch, loads: Loads): Partial<FactTable>
    requires Integrity(db)
  {
    LoadFacts(db.facts, CtxAfter(db, b, loads), b.rows)
  }

  function BridgeAfter(db: Db, b: Batch, loads: Loads): Partial<seq<BridgeRow>>
    requires Integrity(db)
  {
    LoadBridge(db.bridge, CtxAfter(db, b, loads), b.rows)
  }

  /** `ingest_data` on a store: entity upsert, the merge of the new ids onto
      the batch, the four dimension passes, the fact pass and the bridge
      pass, stopping at the first error with earlier writes kept. */
  function Ingest(db: Db, b: Batch, loads: Loads): Partial<Db>
    requires Integrity(db)
  {
    var dims := DimsAfter(db, b, loads);
    var db1 := Stage1(db, b, loads);
    if dims.Halted? then Halted(db1, dims.error)
    else
      var facts := FactsAfter(db, b, loads);
      var db2 := db1.(facts := facts.val);
      if facts.Halted? then Halted(db2, facts.error)
      else
        var bridge := BridgeAfter(db, b, loads);
        var db3 := db2.(bridge := bridge.val);
        if bridge.Halted? then Halted(db3, bridge.error) else Done(db3)
  }

  /** The ids the fact and bridge passes read are ids of stored rows. */
  lemma {:induction false} CtxIdsStored(db: Db, b: Batch, loads: Loads)
    requires Integrity(db)
    ensures forall m :: m in CtxAfter(db, b, loads).infoIds ==>
              CtxAfter(db, b, loads).infoIds[m] in InfoIds(InfoAfter(db, b))
    ensures forall c: Category, n :: n in CtxAfter(db, b, loads).maps.Get(c) ==>
              CtxAfter(db, b, loads).maps.Get(c)[n] in DimIds(DimsAfter(db, b, loads).val.Get(c))
  {
    var d := DimsAfter(db, b, loads).val;
    var ctx := CtxAfter(db, b, loads);
    CtxAfterReads(db, b, loads);
    forall c: Category, n | n in ctx.maps.Get(c)
      ensures ctx.maps.Get(c)[n] in DimIds(d.Get(c)) {
      assert DimWf(d.Get(c));
      assert ctx.maps.Get(c) == ReadBack(d.Get(c));
    }
  }

  lemma {:induction false} Stage1Integrity(db: Db, b: Batch, loads: Loads)
    requires Integrity(db)
    ensures Integrity(Stage1(db, b, loads))
  {
    LoadInfoContents(db.info, b, b.rows);
    ResolveAllKeeps(db.dims, b.rows, loads, Categories);
    var d := DimsAfter(db, b, loads).val;
    forall f, c: Category | f in db.facts.rows && f.primary.Get(c).Some?
      ensures f.primary.Get(c).value in DimIds(d.Get(c)) {
      assert DimIds(db.dims.Get(c)) <= DimIds(d.Get(c));
    }
  }

  /** The ids a fact row carries are in the given entity and dimension ids. */
  predicate RefsWithin(infoId: Option<nat>, p: Primaries, infoIds: set<nat>, dims: Dims) {
    && (infoId.Some? ==> infoId.value in infoIds)
    && (forall c: Category :: p.Get(c).Some? ==> p.Get(c).value in DimIds(dims.Get(c)))
  }

  predicate CtxWithin(ctx: Ctx, infoIds: set<nat>, dims: Dims) {
    && (forall m :: m in ctx.infoIds ==> ctx.infoIds[m] in infoIds)
    && (forall c: Category, n :: n in ctx.maps.Get(c) ==> ctx.maps.Get(c)[n] in DimIds(dims.Get(c)))
  }

  lemma FactForWithin(ctx: Ctx, r: MangaRecord, infoIds: set<nat>, dims: Dims)
    requires CtxWithin(ctx, infoIds, dims)
    requires FactFor(ctx, r).Success?
    ensures RefsWithin(FactFor(ctx, r).value.infoId, FactFor(ctx, r).value.primary, infoIds, dims)
  {
    var v := FactFor(ctx, r).value;
    forall c: Category | v.primary.Get(c).Some?
      ensures v.primary.Get(c).value in DimIds(dims.Get(c)) {
      assert PrimaryId(Items(ctx, r, c), c, ctx.maps.Get(c)) == Success(v.primary.Get(c));
    }
  }

  lemma {:induction false} LoadFactsWithin(t: FactTable, ctx: Ctx, rows: seq<MangaRecord>, infoIds: set<nat>, dims: Dims)
    requires CtxWithin(ctx, infoIds, dims)
    ensures forall i :: |t.rows| <= i < |LoadFacts(t, ctx, rows).val.rows| ==>
              RefsWithin(LoadFacts(t, ctx, rows).val.rows[i].infoId, LoadFacts(t, ctx, rows).val.rows[i].primary, infoIds, dims)
  {
    LoadFactsRows(t, ctx, rows);
    var p := LoadFacts(t, ctx, rows);
    forall i | |t.rows| <= i < |p.val.rows|
      ensures RefsWithin(p.val.rows[i].infoId, p.val.rows[i].primary, infoIds, dims) {
      var r := rows[i - |t.rows|];
      var f := p.val.rows[i];
      assert FactFor(ctx, r) == Success(ValuesOf(f));
      FactForWithin(ctx, r, infoIds, dims);
      assert FactFor(ctx, r).value.infoId == f.infoId;
      assert FactFor(ctx, r).value.primary == f.primary;
    }
  }

  lemma {:induction false} Stage2Integrity(db: Db, b: Batch, loads: Loads)
    requires Integrity(db)
    ensures Integrity(Stage1(db, b, loads).(facts := FactsAfter(db, b, loads).val))
  {
    Stage1Integrity(db, b, loads);
    var db1 := Stage1(db, b, loads);
    var ctx := CtxAfter(db, b, loads);
    CtxIdsStored(db, b, loads);
    assert CtxWithin(ctx, InfoIds(db1.info), db1.dims);
    var facts := FactsAfter(db, b, loads);
    LoadFactsWithin(db.facts, ctx, b.rows, InfoIds(db1.info), db1.dims);
    var n := |db.facts.rows|;
    forall f | f in facts.val.rows
      ensures RefsWithin(f.infoId, f.primary, InfoIds(db1.info), db1.dims) {
      var i :| 0 <= i < |facts.val.rows| && facts.val.rows[i] == f;
      if i < n {
        assert f == facts.val.rows[..n][i];
        assert f in db1.facts.rows;
      }
    }
  }

  /** Pairs written by the bridge pass use only ids the context can read. */
  lemma LoadBridgeWithin(bridge: seq<BridgeRow>, ctx: Ctx, rows: seq<MangaRecord>, infoIds: set<nat>, genreIds: set<nat>)
    requires NoDup(bridge)
    requires forall m :: m in ctx.infoIds ==> ctx.infoIds[m] in infoIds
    requires forall n :: n in ctx.maps.genres ==> ctx.maps.genres[n] in genreIds
    requires forall q :: q in bridge ==> q.infoId in infoIds && q.genreId in genreIds
    ensures forall q :: q in LoadBridge(bridge, ctx, rows).val ==> q.infoId in infoIds && q.genreId in genreIds
  {
    LoadBridgeContents(bridge, ctx, rows);
    forall q | q in LoadBridge(bridge, ctx, rows).val ensures q.infoId in infoIds && q.genreId in genreIds {
      if q !in bridge {
        var i :| 0 <= i < |rows| && RowPair(ctx, rows[i], q);
        var x :| x in Secondaries(ctx, rows[i]) && x in ctx.maps.genres && ctx.maps.genres[x] == q.genreId;
      }
    }
  }

  lemma {:induction false} Stage3Integrity(db: Db, b: Batch, loads: Loads)
    requires Integrity(db)
    ensures Integrity(Stage1(db, b, loads).(facts := FactsAfter(db, b, loads).val,
                                            bridge := BridgeAfter(db, b, loads).val))
  {
    Stage2Integrity(db, b, loads);
    var db1 := Stage1(db, b, loads);
    var ctx := CtxAfter(db, b, loads);
    CtxIdsStored(db, b, loads);
    assert ctx.maps.Get(Genre) == ctx.maps.genres;
    assert db1.dims.Get(Genre) == db1.dims.genres;
    LoadBridgeWithin(db.bridge, ctx, b.rows, InfoIds(db1.info), DimIds(db1.dims.genres));
  }

  /** Whatever the batch, and whether the load completes or stops part-way,
      the store keeps every key and foreign-key constraint of the schema. */
  lemma {:induction false} IngestPreservesIntegrity(db: Db, b: Batch, loads: Loads)
    requires Integrity(db)
    ensures Integrity(Ingest(db, b, loads).val)
  {
    Stage1Integrity(db, b, loads);
    Stage2Integrity(db, b, loads);
    Stage3Integrity(db, b, loads);
  }

  // -----------------------------------------------------------------------
  // What a completed load has written
  // -----------------------------------------------------------------------

  /** The primary key rule for one category: NULL when the list does not
      start with a dict carrying `name`, otherwise the id the dimension
      stores under that name. */
  predicate PrimaryRule(d: DimTable, items: seq<Elem>, k: Option<nat>)
    requires DimWf(d)
  {
    match PrimaryName(items)
    case None => k.None?
    case Some(n) => n in DimNames(d) && k == Some(ReadBack(d)[n])
  }

  /** Fact row `f` is the fact of batch row `r` against the entity table
      `info` and the dimensions `dims`. */
  predicate FactOf(info: InfoTable, dims: Dims, b: Batch, loads: Loads, r: MangaRecord, f: FactRow)
    requires InfoWf(info) && DimsWf(dims)
  {
    && f.infoId == (if r.malId in MalIds(info) then Some(InfoIdMap(info)[r.malId]) else None)
    && MeasuresFit(MeasuresOf(b, r))
    && f.measures == StoredMeasures(MeasuresOf(b, r))
    && forall c: Category :: PrimaryRule(dims.Get(c), SafeJsonLoads(Cell(r, c), loads), f.primary.Get(c))
  }

  /** Pair `q` links the entity of row `r` to one of its secondary genres. */
  predicate SecondaryPair(info: InfoTable, genres: DimTable, loads: Loads, r: MangaRecord, q: BridgeRow)
    requires InfoWf(info) && DimWf(genres)
  {
    && r.malId in MalIds(info)
    && q.infoId == InfoIdMap(info)[r.malId]
    && exists x :: x in SecondaryNames(SafeJsonLoads(r.genres, loads)) && x in DimNames(genres) &&
                   q.genreId == ReadBack(genres)[x]
  }

  /** Table `t1` still holds every name of `t0`, under the same id. */
  ghost predicate KeepsIds(t0: DimTable, t1: DimTable)
    requires DimWf(t0) && DimWf(t1)
  {
    forall x :: x in DimNames(t0) ==> x in DimNames(t1) && ReadBack(t1)[x] == ReadBack(t0)[x]
  }

  lemma {:induction false} DimsPhase(db: Db, b: Batch, loads: Loads)
    requires Integrity(db)
    requires DimsAfter(db, b, loads).Done?
    ensures DimsWf(DimsAfter(db, b, loads).val)
    ensures forall c: Category :: GainsCitedNames(db.dims.Get(c), DimsAfter(db, b, loads).val.Get(c), Column(b.rows, c), loads)
    ensures forall c: Category :: KeepsIds(db.dims.Get(c), DimsAfter(db, b, loads).val.Get(c))
  {
    CategoriesDistinct();
    ResolveAllKeeps(db.dims, b.rows, loads, Categories);
    ResolveAllOutcome(db.dims, b.rows, loads, Categories);
  }

  /** The context reads exactly the entity table `info` and the dimensions
      `dims`. */
  predicate CtxReads(ctx: Ctx, info: InfoTable, dims: Dims)
    requires InfoWf(info) && DimsWf(dims)
  {
    ctx.infoIds == InfoIdMap(info) && forall c: Category :: ctx.maps.Get(c) == ReadBack(dims.Get(c))
  }

  lemma FactForMeaning(ctx: Ctx, info: InfoTable, dims: Dims, r: MangaRecord, f: FactRow)
    requires InfoWf(info) && DimsWf(dims) && CtxReads(ctx, info, dims)
    requires FactFor(ctx, r) == Success(ValuesOf(f))
    ensures FactOf(info, dims, ctx.b, ctx.loads, r, f)
  {
    forall c: Category ensures PrimaryRule(dims.Get(c), SafeJsonLoads(Cell(r, c), ctx.loads), f.primary.Get(c)) {
      assert PrimaryId(Items(ctx, r, c), c, ctx.maps.Get(c)) == Success(f.primary.Get(c));
    }
  }

  lemma {:induction false} CtxAfterReads(db: Db, b: Batch, loads: Loads)
    requires Integrity(db)
    ensures DimsWf(DimsAfter(db, b, loads).val)
    ensures CtxReads(CtxAfter(db, b, loads), InfoAfter(db, b), DimsAfter(db, b, loads).val)
    ensures CtxAfter(db, b, loads).b == b && CtxAfter(db, b, loads).loads == loads
  {
    ReadAllReads(DimsAfter(db, b, loads).val);
  }

  lemma {:induction false} LoadFactsMeaning(t: FactTable, ctx: Ctx, rows: seq<MangaRecord>, info: InfoTable, dims: Dims)
    requires InfoWf(info) && DimsWf(dims) && CtxReads(ctx, info, dims)
    requires LoadFacts(t, ctx, rows).Done?
    ensures |LoadFacts(t, ctx, rows).val.rows| == |t.rows| + |rows|
    ensures LoadFacts(t, ctx, rows).val.rows[..|t.rows|] == t.rows
    ensures forall i :: 0 <= i < |rows| ==>
              FactOf(info, dims, ctx.b, ctx.loads, rows[i], LoadFacts(t, ctx, rows).val.rows[|t.rows| + i])
  {
    var facts := LoadFacts(t, ctx, rows).val;
    LoadFactsRows(t, ctx, rows);
    forall i | 0 <= i < |rows| ensures FactOf(info, dims, ctx.b, ctx.loads, rows[i], facts.rows[|t.rows| + i]) {
      FactForMeaning(ctx, info, dims, rows[i], facts.rows[|t.rows| + i]);
    }
  }

  lemma {:induction false} FactsPhase(db: Db, b: Batch, loads: Loads)
    requires Integrity(db)
    requires FactsAfter(db, b, loads).Done?
    ensures DimsWf(DimsAfter(db, b, loads).val)
    ensures |FactsAfter(db, b, loads).val.rows| == |db.facts.rows| + |b.rows|
    ensures FactsAfter(db, b, loads).val.rows[..|db.facts.rows|] == db.facts.rows
    ensures forall i :: 0 <= i < |b.rows| ==>
              FactOf(InfoAfter(db, b), DimsAfter(db, b, loads).val, b, loads, b.rows[i],
                     FactsAfter(db, b, loads).val.rows[|db.facts.rows| + i])
  {
    CtxAfterReads(db, b, loads);
    LoadFactsMeaning(db.facts, CtxAfter(db, b, loads), b.rows, InfoAfter(db, b), DimsAfter(db, b, loads).val);
  }

  lemma RowPairMeaning(ctx: Ctx, info: InfoTable, dims: Dims, r: MangaRecord, q: BridgeRow)
    requires InfoWf(info) && DimsWf(dims) && DimWf(dims.genres) && CtxReads(ctx, info, dims)
    ensures RowPair(ctx, r, q) <==> SecondaryPair(info, dims.genres, ctx.loads, r, q)
  {
    assert dims.Get(Genre) == dims.genres;
    assert ctx.maps.Get(Genre) == ctx.maps.genres;
  }

  /** A completed bridge pass over a context that reads `info` and `dims`
      holds the old pairs plus exactly the secondary pairs of the rows. */
  lemma {:induction false} LoadBridgeMeaning(bridge: seq<BridgeRow>, ctx: Ctx, rows: seq<MangaRecord>,
                                             info: InfoTable, dims: Dims)
    requires InfoWf(info) && DimsWf(dims) && DimWf(dims.genres) && CtxReads(ctx, info, dims)
    requires NoDup(bridge)
    requires LoadBridge(bridge, ctx, rows).Done?
    ensures NoDup(LoadBridge(bridge, ctx, rows).val)
    ensures forall q :: q in LoadBridge(bridge, ctx, rows).val <==>
              (q in bridge || exists i :: 0 <= i < |rows| && SecondaryPair(info, dims.genres, ctx.loads, rows[i], q))
  {
    LoadBridgeContents(bridge, ctx, rows);
    forall q ensures BatchPair(ctx, rows, q) <==>
                     exists i :: 0 <= i < |rows| && SecondaryPair(info, dims.genres, ctx.loads, rows[i], q) {
      if BatchPair(ctx, rows, q) {
        var i :| 0 <= i < |rows| && RowPair(ctx, rows[i], q);
        RowPairMeaning(ctx, info, dims, rows[i], q);
      }
      if exists i :: 0 <= i < |rows| && SecondaryPair(info, dims.genres, ctx.loads, rows[i], q) {
        var i :| 0 <= i < |rows| && SecondaryPair(info, dims.genres, ctx.loads, rows[i], q);
        RowPairMeaning(ctx, info, dims, rows[i], q);
      }
    }
  }

  lemma {:induction false} BridgePhase(db: Db, b: Batch, loads: Loads)
    requires Integrity(db)
    requires BridgeAfter(db, b, loads).Done?
    ensures DimWf(DimsAfter(db, b, loads).val.genres)
    ensures NoDup(BridgeAfter(db, b, loads).val)
    ensures forall q :: q in BridgeAfter(db, b, loads).val <==>
              (q in db.bridge ||
               exists i :: 0 <= i < |b.rows| &&
                           SecondaryPair(InfoAfter(db, b), DimsAfter(db, b, loads).val.genres, loads, b.rows[i], q))
  {
    var dims := DimsAfter(db, b, loads).val;
    CtxAfterReads(db, b, loads);
    assert dims.Get(Genre) == dims.genres;
    LoadBridgeMeaning(db.bridge, CtxAfter(db, b, loads), b.rows, InfoAfter(db, b), dims);
  }

  /** The parts of a completed load's store, phase by phase. */
  lemma {:induction false} DoneParts(db: Db, b: Batch, loads: Loads, s: Db)
    requires Integrity(db)
    requires Ingest(db, b, loads) == Done(s)
    ensures Integrity(s)
    ensures DimsAfter(db, b, loads).Done? && FactsAfter(db, b, loads).Done? && BridgeAfter(db, b, loads).Done?
    ensures s.info == InfoAfter(db, b) && s.dims == DimsAfter(db, b, loads).val
    ensures s.facts == FactsAfter(db, b, loads).val && s.bridge == BridgeAfter(db, b, loads).val
  {
    IngestPreservesIntegrity(db, b, loads);
  }

  /** A completed load appends exactly one fact row per batch row, in batch
      order, leaves the earlier fact rows alone, and each new row carries
      the row's entity id (NULL if its entity was rejected), its measures
      and its four primary keys by the primary rule. */
  lemma {:induction false} IngestFacts(db: Db, b: Batch, loads: Loads, s: Db)
    requires Integrity(db)
    requires Ingest(db, b, loads) == Done(s)
    ensures Integrity(s)
    ensures |s.facts.rows| == |db.facts.rows| + |b.rows|
    ensures s.facts.rows[..|db.facts.rows|] == db.facts.rows
    ensures forall i :: 0 <= i < |b.rows| ==> FactOf(s.info, s.dims, b, loads, b.rows[i], s.facts.rows[|db.facts.rows| + i])
  {
    DoneParts(db, b, loads, s);
    FactsPhase(db, b, loads);
  }

  /** Deduplication: two rows whose lists start with the same name get the
      same primary key. */
  lemma {:induction false} SamePrimaryNameSameKey(db: Db, b: Batch, loads: Loads, s: Db, i: int, j: int, c: Category)
    requires Integrity(db)
    requires Ingest(db, b, loads) == Done(s)
    requires 0 <= i < |b.rows| && 0 <= j < |b.rows|
    requires PrimaryName(SafeJsonLoads(Cell(b.rows[i], c), loads)) == PrimaryName(SafeJsonLoads(Cell(b.rows[j], c), loads))
    ensures |s.facts.rows| == |db.facts.rows| + |b.rows|
    ensures s.facts.rows[|db.facts.rows| + i].primary.Get(c) == s.facts.rows[|db.facts.rows| + j].primary.Get(c)
  {
    IngestFacts(db, b, loads, s);
    assert FactOf(s.info, s.dims, b, loads, b.rows[i], s.facts.rows[|db.facts.rows| + i]);
    assert FactOf(s.info, s.dims, b, loads, b.rows[j], s.facts.rows[|db.facts.rows| + j]);
  }

  /** A completed load has given each dimension every truthy name the batch
      cites in any position, kept every name it already had under the same
      id, and added nothing else. */
  lemma {:induction false} IngestDimensions(db: Db, b: Batch, loads: Loads, s: Db)
    requires Integrity(db)
    requires Ingest(db, b, loads) == Done(s)
    ensures Integrity(s)
    ensures forall c: Category :: GainsCitedNames(db.dims.Get(c), s.dims.Get(c), Column(b.rows, c), loads)
    ensures forall c: Category :: KeepsIds(db.dims.Get(c), s.dims.Get(c))
  {
    DoneParts(db, b, loads, s);
    DimsPhase(db, b, loads);
  }

  /** A completed load's bridge holds exactly the earlier pairs plus, for
      every row whose entity is stored, one pair per secondary genre, each
      pair once. */
  lemma {:induction false} IngestBridge(db: Db, b: Batch, loads: Loads, s: Db)
    requires Integrity(db)
    requires Ingest(db, b, loads) == Done(s)
    ensures InfoWf(s.info) && DimWf(s.dims.genres)
    ensures NoDup(s.bridge)
    ensures forall q :: q in s.bridge <==>
              q in db.bridge || exists i :: 0 <= i < |b.rows| && SecondaryPair(s.info, s.dims.genres, loads, b.rows[i], q)
  {
    DoneParts(db, b, loads, s);
    BridgePhase(db, b, loads);
  }

  /** A genre named as the primary genre of one row and as a secondary genre
      of another gets one id: the bridge pair of the second row points at the
      same genre row as the first row's fact. */
  lemma {:induction false} SecondaryAndPrimaryShareId(db: Db, b: Batch, loads: Loads, s: Db, i: int, j: int, x: Scalar)
    requires Integrity(db)
    requires Ingest(db, b, loads) == Done(s)
    requires 0 <= i < |b.rows| && 0 <= j < |b.rows|
    requires b.rows[i].malId in MalIds(s.info)
    requires x in SecondaryNames(SafeJsonLoads(b.rows[i].genres, loads))
    requires PrimaryName(SafeJsonLoads(b.rows[j].genres, loads)) == Some(x)
    ensures Integrity(s) && |s.facts.rows| == |db.facts.rows| + |b.rows|
    ensures s.facts.rows[|db.facts.rows| + j].primary.genre.Some?
    ensures BridgeRow(InfoIdMap(s.info)[b.rows[i].malId], s.facts.rows[|db.facts.rows| + j].primary.genre.value) in s.bridge
  {
    IngestFacts(db, b, loads, s);
    IngestBridge(db, b, loads, s);
    var f := s.facts.rows[|db.facts.rows| + j];
    assert FactOf(s.info, s.dims, b, loads, b.rows[j], f);
    assert PrimaryRule(s.dims.Get(Genre), SafeJsonLoads(Cell(b.rows[j], Genre), loads), f.primary.Get(Genre));
    assert s.dims.Get(Genre) == s.dims.genres;
    var q := BridgeRow(InfoIdMap(s.info)[b.rows[i].malId], f.primary.genre.value);
    assert SecondaryPair(s.info, s.dims.genres, loads, b.rows[i], q);
  }

  // -----------------------------------------------------------------------
  // Loads that stop part-way
  // -----------------------------------------------------------------------

  /** A dict without `name` in any list of a category column stops the load
      in the dimension passes; the entity upserts stay committed. */
  lemma {:induction false} NamelessElementHalts(db: Db, b: Batch, loads: Loads, c: Category)
    requires Integrity(db)
    requires !ColumnWellNamed(Column(b.rows, c), loads)
    ensures Ingest(db, b, loads).Halted?
    ensures Ingest(db, b, loads).val.info == LoadInfo(db.info, b, b.rows)
    ensures Ingest(db, b, loads).val.facts == db.facts && Ingest(db, b, loads).val.bridge == db.bridge
  {
    CategoriesDistinct();
    ResolveAllOutcome(db.dims, b.rows, loads, Categories);
    assert DimsAfter(db, b, loads).Halted?;
  }

  /** Every name the dimensions hold is truthy. */
  ghost predicate NamesTruthy(d: Dims) {
    forall c: Category, x :: x in DimNames(d.Get(c)) ==> Truthy(x)
  }

  lemma EmptyDimsNamesTruthy()
    ensures NamesTruthy(EmptyDims)
  {
  }

  /** The dimension passes only ever insert truthy names, so a store built
      by loads alone never holds a falsy name. */
  lemma {:induction false} IngestKeepsNamesTruthy(db: Db, b: Batch, loads: Loads)
    requires Integrity(db)
    requires NamesTruthy(db.dims)
    ensures NamesTruthy(Ingest(db, b, loads).val.dims)
  {
    IngestDims(db, b, loads);
    DimsTruthy(db, b, loads);
  }

  lemma IngestDims(db: Db, b: Batch, loads: Loads)
    requires Integrity(db)
    ensures Ingest(db, b, loads).val.dims == DimsAfter(db, b, loads).val
  {
    var db1 := Stage1(db, b, loads);
    assert db1.dims == DimsAfter(db, b, loads).val;
    if DimsAfter(db, b, loads).Done? && FactsAfter(db, b, loads).Done? {
      assert Ingest(db, b, loads).val.dims == db1.dims;
    }
  }

  lemma {:induction false} DimsTruthy(db: Db, b: Batch, loads: Loads)
    requires Integrity(db)
    requires NamesTruthy(db.dims)
    ensures NamesTruthy(DimsAfter(db, b, loads).val)
  {
    ResolveAllKeeps(db.dims, b.rows, loads, Categories);
    var d := DimsAfter(db, b, loads).val;
    forall c: Category, x | x in DimNames(d.Get(c)) ensures Truthy(x) {
      assert OnlyTruthyAdded(db.dims.Get(c), d.Get(c));
    }
  }

  /** A row with a measure its fact column cannot hold (a score that rounds
      to 10.00 or beyond, a count outside the `INT` range) stops the load. */
  lemma {:induction false} OutOfRangeHalts(db: Db, b: Batch, loads: Loads, i: int)
    requires Integrity(db)
    requires 0 <= i < |b.rows|
    requires !MeasuresFit(MeasuresOf(b, b.rows[i]))
    ensures Ingest(db, b, loads).Halted?
  {
    var dims := DimsAfter(db, b, loads);
    if dims.Done? {
      CtxAfterReads(db, b, loads);
      var ctx := CtxAfter(db, b, loads);
      assert FactFor(ctx, b.rows[i]).Failure?;
      LoadFactsRows(db.facts, ctx, b.rows);
      assert FactsAfter(db, b, loads).Halted?;
    }
  }

  /** A row whose list starts with a dict named by a falsy value (an empty
      string, zero, false) stops the load: the dimension pass skipped the
      name, so the primary-key lookup for it finds nothing. */
  lemma {:induction false} FalsyPrimaryHalts(db: Db, b: Batch, loads: Loads, i: int, c: Category, x: Scalar)
    requires Integrity(db)
    requires NamesTruthy(db.dims)
    requires 0 <= i < |b.rows|
    requires PrimaryName(SafeJsonLoads(Cell(b.rows[i], c), loads)) == Some(x)
    requires !Truthy(x)
    ensures Ingest(db, b, loads).Halted?
  {
    var dims := DimsAfter(db, b, loads);
    if dims.Done? {
      DimsPhase(db, b, loads);
      CtxAfterReads(db, b, loads);
      var ctx := CtxAfter(db, b, loads);
      assert GainsCitedNames(db.dims.Get(c), dims.val.Get(c), Column(b.rows, c), loads);
      assert x !in DimNames(dims.val.Get(c));
      assert x !in ctx.maps.Get(c);
      assert PrimaryId(Items(ctx, b.rows[i], c), c, ctx.maps.Get(c)).Failure?;
      assert FactFor(ctx, b.rows[i]).Failure?;
      LoadFactsRows(db.facts, ctx, b.rows);
      assert FactsAfter(db, b, loads).Halted?;
    }
  }
}
