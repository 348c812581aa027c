# Manga star-schema load: a Dafny model

The manga pipeline keeps its catalogue in a MariaDB star schema with these tables:

- four categorical dimensions: genres, authors, demographics and serializations;
- an entity dimension `dim_manga_info`, keyed by the MyAnimeList id `mal_id`;
- a fact table `fact_manga`;
- a bridge `manga_secondary_genres` linking a manga to its non-primary genres.

This project models, as pure functions over immutable tables, the code that builds and reads that schema:

- **Schema reset** (`create_star_schema`). It drops all seven tables, children first, then recreates them, parents first, under the foreign-key rules. Module `Schema`.
- **Ingestion** (`ingest_data`):
  - the JSON-list normaliser `safe_json_loads` (module `Normalizer`);
  - the entity upsert with last-write-wins on `mal_id`;
  - the four dimension passes: collect distinct truthy names, `INSERT IGNORE`, re-read the name→id map;
  - the fact pass: one plain insert per row, with each primary key taken from the first list element;
  - the secondary-genre bridge pass.

  The store and its constraints are in module `Store`; the passes are in module `Ingestion`.
- **Validation** (`validate_data`). Six rule-based checks over the processed frame, the error messages, and the success / `ValueError` outcome. Module `Validation`.
- **Read-back** (`preprocess_data`). The fact ⋈ info ⟕ dimensions join, the `mal_id` de-duplication that keeps first occurrences, and the drop of rows without a numeric score. Module `Preprocessing`.
- **Flat CSV load** (`get_sql_type` and `ingest_data` in `ingest_data_to_mariadb.py`). The dtype→SQL type map, the column-definition and placeholder text, and the drop / create / `executemany` sequence. The server holds named tables with typed columns, refuses column lists MariaDB refuses, and converts each value to its column's type. Module `FlatLoad`.

Supporting modules:

- `Wrappers`: `Option` and `Result`.
- `Text`: joining strings and decimal rendering.
- `Values`: JSON scalars and their Python truthiness; frame cells and `pd.to_numeric(errors='coerce')`.

### Modelling choices

**Ingestion as one store transformation.** `Ingestion.Ingest` maps a store and a batch to a store. It returns `Partial<Db>`, so a run that stops part-way keeps every write made before the error, as the unguarded Python code does. The load stops in four cases:

- a dict element without `name` while collecting dimension names (`KeyError`);
- a primary name missing from the re-read dimension map (`IndexError` from `.iloc[0]`);
- a fact row with a measure its column cannot hold, which the server refuses in strict mode: a score that rounds beyond ±9.99 for `DECIMAL(3,2)`, or a count outside the signed 32-bit `INT` range;
- a secondary genre name missing from that map (the same `IndexError`).

Only the entity loop catches errors per row. There, a row the server would reject is skipped and the loop goes on. The model's rejection reason is a value too long for its `VARCHAR` width under strict mode.

**Fact measures as the columns hold them.** `score` is `DECIMAL(3,2)`: the server rounds it to hundredths, a tie away from zero (`Store.Cents`), and refuses it if the rounded value has three integer digits. The other measures are `INT`. A fact row records `Store.StoredMeasures` of the row's measures. The validator accepts scores up to 10, but 10 itself does not fit the column (`Store.ScoreTenDoesNotFit`), so such a row stops the load (`Ingestion.OutOfRangeHalts`).

**`json.loads` is a parameter.** It is a total oracle `string -> Decoded` that yields either `Parsed(list)` or `Failed`. Every property holds for every such oracle.

**Tables are maps.**

- A dimension table maps names to rows and keeps an auto-increment counter. `Store.DimWf` states that the name index and the id index describe the same rows, and that every id was drawn from the counter.
- `dim_manga_info` maps `mal_id` to rows.
- `Store.Integrity` holds the foreign keys of `fact_manga` and of the bridge, and states that the bridge has no duplicate pair.

**Validator sees coerced columns.** The duplicate-row check runs after `score` and the three count columns have been coerced to numbers, because the source overwrites those columns in place.

**Flat-load dtypes.** The flat CSV load takes each column's dtype as an input, read after the NaN→`None` replacement. That replacement can turn a float column with gaps into an object column, which then maps to `TEXT`. `FlatLoad.CsvWf` states which cells each dtype holds. An integer column is `int64`, or `uint64` when pandas reads non-negative integers beyond the `int64` range; both map to `BIGINT`.

**Flat-load server.** `CREATE TABLE` reads the column list the loader pastes together. A back-quoted identifier runs to the first back-quote that is not doubled, and a doubled back-quote stands for one. So a header with doubled back-quotes names a column with single ones, and a header with a single back-quote ends its identifier early: either the rest is not a type and the list does not parse, or the header injects further definitions. The server refuses an empty list; a name that is empty, longer than 64 characters, ends in a space, or holds a NUL or a character beyond the Basic Multilingual Plane; and two names equal up to letter case. `executemany` with no tuples sends nothing; otherwise it runs as one statement, and a refused value fails it as a whole, so the new table stays empty: DROP and CREATE are DDL and are not undone. Three server conversions are parameters of type `FlatLoad.Coercion`: single-precision rounding for `FLOAT`, the text of a double in a `TEXT` column, and the byte length of a string in the table's character set.

**Falsy primary names stop the load.** A dimension pass skips falsy names (line 101), but the fact pass still looks up a falsy primary name. `Ingestion.FalsyPrimaryHalts` states what follows: the load stops. The model follows the code here.

## Model

| member | source | states |
|---|---|---|
| Schema.Exec | final_project/src/database_utils.py:33-122 | `DROP IF EXISTS` removes the table unless a present table still references it; `CREATE IF NOT EXISTS` adds it unless a referenced parent is absent; each refusal happens exactly in that situation |
| Schema.ResetScriptOrder | final_project/src/database_utils.py:33-122 | every table is dropped only after every table that references it, and created only after every table it references; each of the seven tables is both dropped and created |
| Schema.DropScriptClears | final_project/src/database_utils.py:33-39 | from any catalogue, every drop succeeds and no table is left |
| Schema.CreateScriptBuilds | final_project/src/database_utils.py:43-122 | on an empty catalogue every create succeeds and yields all seven tables, empty |
| Schema.CreateStarSchemaResets | final_project/src/database_utils.py:28-124 | whatever tables and rows existed before, the reset ends with all seven tables present and empty, and the empty store satisfies every constraint |
| Schema.CreateStarSchemaIdempotent | final_project/src/database_utils.py:33-122 | running the reset on its own result gives the same catalogue |
| Schema.DimensionFirstDropRefused | final_project/src/database_utils.py:105-109 | with the full schema present, dropping a dimension before the fact table is refused |
| Schema.FactFirstCreateRefused | final_project/src/database_utils.py:105-109 | creating the fact table before its dimensions is refused |
| Ingestion.ReadAllReads | final_project/src/data_ingestion.py:107 | the four re-read maps are the stored dimensions, category by category |
| Store.ReadBack | final_project/src/data_ingestion.py:107 | the re-read map has exactly the stored names as keys, maps them to stored ids, and maps distinct names to distinct ids |
| Store.InsertIgnore | final_project/src/data_ingestion.py:102 | the name set gains exactly the new name; known names keep their ids (first writer wins); a new name gets an id not used before |
| Store.PopulateContents | final_project/src/data_ingestion.py:100-103 | after the pass the table holds the old names plus every name of the list, and old names keep their ids |
| Store.PopulateKnownNames | final_project/src/data_ingestion.py:100-103 | a pass whose names are all stored leaves the table unchanged |
| Store.PopulateIdempotent | final_project/src/data_ingestion.py:100-107 | running a pass twice gives the same table and the same re-read map as running it once |
| Store.InfoIdMap | final_project/src/data_ingestion.py:82-83 | the `mal_id`→`manga_info_id` map covers exactly the stored `mal_id`s, gives stored ids, and is injective |
| Store.InfoRowById | final_project/src/data_preprocessing.py:25 | a `manga_info_id` finds a row iff it is stored, and the row found carries that id |
| Store.Upsert | final_project/src/data_ingestion.py:61-76 | the upserted `mal_id` holds the new attributes; other rows are unchanged; a known `mal_id` keeps its id, and a new one gets a fresh id |
| Store.UpsertKnownKeepsSize | final_project/src/data_ingestion.py:68-74 | re-upserting a known `mal_id` adds no row |
| Store.Cents | final_project/src/database_utils.py:93 | the hundredths `DECIMAL(3,2)` keeps are within half a hundredth of the value, a tie rounding away from zero |
| Store.StoredExactInHundredths | final_project/src/database_utils.py:93-100 | a score given in whole hundredths, and every count, is stored unchanged |
| Store.StoredScoreClose | final_project/src/database_utils.py:93 | the stored score differs from the sent one by at most half a hundredth, and only the score is changed |
| Store.ScoreTenDoesNotFit | final_project/src/database_utils.py:93 | no score of 9.995 or more fits `DECIMAL(3,2)` |
| Store.InsertFact | final_project/src/data_ingestion.py:172-196 | a plain insert appends exactly one fact row with the given values, already in the column types, and keeps the earlier rows |
| Store.InsertPair | final_project/src/data_ingestion.py:208-212 | `INSERT IGNORE` on the composite key: the pair is present afterwards, nothing else is added, and no pair is duplicated |
| Normalizer.SafeJsonLoads | final_project/src/data_ingestion.py:93-97 | gives `[]` for a non-string, for a string not starting with `[`, and for a decode failure; otherwise gives the decoded list |
| Normalizer.ElemNames | final_project/src/data_ingestion.py:99 | name extraction succeeds iff no dict element lacks `name`; on success it yields exactly the dict names and the bare elements |
| Normalizer.ColumnNames | final_project/src/data_ingestion.py:99 | over a whole column: succeeds iff every row is well named, and yields exactly the names some row cites |
| Normalizer.Unique | final_project/src/data_ingestion.py:99 | `.unique()` keeps every value once and adds none |
| Normalizer.TruthyOnly | final_project/src/data_ingestion.py:101 | keeps exactly the truthy names, and keeps them distinct |
| Normalizer.DimensionNames | final_project/src/data_ingestion.py:99-101 | the names a dimension pass inserts are exactly the distinct truthy names cited in the column, and it fails iff some dict element lacks `name` |
| Normalizer.PrimaryName | final_project/src/data_ingestion.py:150-151 | there is a primary name iff the list is non-empty and element 0 is a dict with `name`; that name is cited by the row |
| Normalizer.SecondaryNames | final_project/src/data_ingestion.py:203-206 | the secondary names are exactly the `name`s of dict elements at index 1 or later; a list of length at most 1 gives none |
| Ingestion.InfoAttrsOf | final_project/src/data_ingestion.py:36-47 | `publishing` holds iff status is `Publishing`; `approved` is false when the column is absent and follows `astype(bool)` otherwise; `images` is null when absent; the titles, synonyms, synopsis, background, status, type, url and dates are the record's |
| Ingestion.LastWrite | final_project/src/data_ingestion.py:55-76 | a `mal_id` has a last write iff some accepted row carries it, and that write is the attributes of the last such row |
| Ingestion.LoadInfoAt | final_project/src/data_ingestion.py:55-78 | for one `mal_id`: it is stored afterwards iff it was before or an accepted row carries it; it holds its last accepted write; an untouched row and an old id are kept |
| Ingestion.LoadInfoContents | final_project/src/data_ingestion.py:55-78 | after the entity loop, the stored `mal_id`s are the old ones plus every accepted row's; each holds its last accepted write; untouched rows and all old ids are kept; rejected rows are skipped |
| Ingestion.LoadInfoNoNewRowForKnownMal | final_project/src/data_ingestion.py:61-76 | re-ingesting only known `mal_id`s never adds a row |
| Ingestion.ResolveDimension | final_project/src/data_ingestion.py:99-107 | one dimension pass fails iff a dict element lacks `name`; on success the table gains exactly the cited truthy names, keeps every old id, and leaves the other dimensions untouched |
| Ingestion.ResolveAllOutcome | final_project/src/data_ingestion.py:99-143 | the passes over distinct categories complete iff every listed column is well named, and then each listed dimension gains exactly its cited truthy names |
| Ingestion.ResolveAllKeeps | final_project/src/data_ingestion.py:99-143 | even when a pass stops, every old name keeps its id, only truthy names are added, and a category not listed is untouched |
| Ingestion.PrimaryId | final_project/src/data_ingestion.py:148-152 | the primary key is non-null iff element 0 is a dict with `name`, and then it is that name's id; lookup fails iff that name is missing from the map |
| Ingestion.MeasuresOf | final_project/src/data_ingestion.py:182-191 | `rank_val` and `popularity` are null when their columns are absent; the other measures are the row's |
| Ingestion.FactFor | final_project/src/data_ingestion.py:147-196 | a row's fact values exist iff all four primary names resolve and its measures fit their columns; then they carry the row's `manga_info_id`, its measures as stored and the resolved primary keys; with resolved names and a measure out of range, the error is the range error |
| Ingestion.LoadFacts | final_project/src/data_ingestion.py:147-196 | the fact pass keeps every earlier fact row and adds at most one row per batch row |
| Ingestion.LoadFactsRows | final_project/src/data_ingestion.py:147-196 | the pass completes iff every row has fact values (names resolve, measures fit); it then adds exactly one fact per row, in order; each added fact is its row's values; a stop is caused by a row without them |
| Ingestion.InsertSecondaries | final_project/src/data_ingestion.py:204-212 | one row's secondary genres: the bridge gains only pairs of this row's id with its secondary genre ids, stays duplicate-free, and gains all of them iff every name resolves |
| Ingestion.LoadBridge | final_project/src/data_ingestion.py:201-212 | the bridge stays duplicate-free, whether the pass completes or stops |
| Ingestion.LoadBridgeContents | final_project/src/data_ingestion.py:201-212 | the bridge pass keeps every old pair and adds only pairs the batch cites; a completed pass adds all of them |
| Ingestion.LoadBridgeDone | final_project/src/data_ingestion.py:201-212 | the bridge pass completes iff every row's secondary genre names are in the re-read genre map |
| Ingestion.IngestPreservesIntegrity | final_project/src/data_ingestion.py:7-215 | whether the load completes or stops part-way, every fact and bridge reference points at a stored row, and no bridge pair is duplicated |
| Ingestion.IngestDimensions | final_project/src/data_ingestion.py:99-143 | after a completed load, each dimension holds exactly its old names plus the truthy names its column cites, and every old name keeps its id |
| Ingestion.IngestFacts | final_project/src/data_ingestion.py:147-196 | a completed load appends exactly one fact per batch row, in order, after the old facts. Each fact carries the entity id of its `mal_id`, the row's measures, which fit their columns, as the columns store them, and, per category, a key that is null without a named element 0 and otherwise the re-read id of that name |
| Ingestion.SamePrimaryNameSameKey | final_project/src/data_ingestion.py:147-170 | two rows with the same primary name in a category get the same primary key |
| Ingestion.IngestBridge | final_project/src/data_ingestion.py:201-212 | after a completed load, a pair is in the bridge iff it was there before or it pairs some row's entity id with the genre id of one of its secondary genre names; no pair is duplicated |
| Ingestion.SecondaryAndPrimaryShareId | final_project/src/data_ingestion.py:147-212 | a genre that is secondary for one row and primary for another resolves to the same genre id in the bridge and in the fact table |
| Ingestion.NamelessElementHalts | final_project/src/data_ingestion.py:55-99 | a dict element without `name` in any category column stops the load after the entity loop, with no fact or bridge write |
| Ingestion.IngestKeepsNamesTruthy | final_project/src/data_ingestion.py:100-101 | if every stored dimension name is truthy, it still is after any load |
| Ingestion.OutOfRangeHalts | final_project/src/data_ingestion.py:172-196 | a row with a score or count its fact column cannot hold makes the load stop |
| Ingestion.FalsyPrimaryHalts | final_project/src/data_ingestion.py:150-152 | if every stored name is truthy, a row whose primary name is falsy makes the load stop |
| Preprocessing.NameOf | final_project/src/data_preprocessing.py:26-29 | the LEFT JOIN gives a name iff the key is non-null and stored, and that name reads back to the key |
| Preprocessing.Joined | final_project/src/data_preprocessing.py:16-29 | a joined row carries the entity row its fact points at, the fact's measures, and per category the name stored under the primary key, or null |
| Preprocessing.JoinContents | final_project/src/data_preprocessing.py:24-29 | every joined row comes from a fact whose `manga_info_id` matches a stored entity row, and every such fact yields its joined row |
| Preprocessing.DropDuplicateMals | final_project/src/data_preprocessing.py:36 | afterwards `mal_id`s are unique, the same `mal_id`s are present, and no row is added |
| Preprocessing.KeepFirstKeepsFirst | final_project/src/data_preprocessing.py:36 | each kept row is the first row with its `mal_id` |
| Preprocessing.DropMissingScores | final_project/src/data_preprocessing.py:43-44 | keeps exactly the rows with a score and adds none |
| Preprocessing.DropMissingScoresUnique | final_project/src/data_preprocessing.py:43-44 | dropping rows keeps `mal_id`s unique |
| Preprocessing.Preprocess | final_project/src/data_preprocessing.py:15-44 | the output has no more rows than the fact table, unique `mal_id`s, and only scored rows of the join |
| Preprocessing.PreprocessKeepsScoredFirstRows | final_project/src/data_preprocessing.py:36-44 | the first joined row of each `mal_id` survives whenever it has a score |
| Preprocessing.PrimaryNamesRoundTrip | final_project/src/data_preprocessing.py:20-29 | after a completed load, each batch row's measures fit their columns, and its fact joins back to a row with the same `mal_id`, the measures as the columns store them, and per category the primary name it went in with, or null |
| Validation.CriticalMissing | final_project/src/data_validation.py:44-47 | lists exactly the columns outside the allowed-missing list that contain a null |
| Validation.NoCriticalIffNoneListed | final_project/src/data_validation.py:44-49 | the critical check passes iff no column outside the allowed list has a null |
| Validation.MissingRequired | final_project/src/data_validation.py:59-61 | lists exactly the required names absent from the frame |
| Validation.DuplicateCount | final_project/src/data_validation.py:73 | `duplicated().sum()` is zero iff all values are distinct |
| Validation.DuplicateCountDistinct | final_project/src/data_validation.py:73 | the duplicate count plus the number of distinct values is the number of values |
| Validation.Coerce | final_project/src/data_validation.py:83 | coercion rewrites only the named column, cell by cell, through `to_numeric` |
| Validation.CoercedFrame | final_project/src/data_validation.py:83-96 | the duplicate check sees score and the three count columns coerced and every other column unchanged |
| Validation.MeasureMeaning | final_project/src/data_validation.py:43-112 | each check's outcome holds iff its rule fails. The rules: a critical null; an absent required column; a duplicated `manga_info_id`; a score that is missing, below 0 or above 10; a count that is missing, negative or fractional; two equal rows. The reported counts are the duplicate counts |
| Validation.Keep | final_project/src/data_validation.py:49-112 | the error list holds exactly the findings of the failed checks |
| Validation.FindingsExact | final_project/src/data_validation.py:49-112 | a finding is reported iff its check failed, with that check's columns or count |
| Validation.NoFindingsIffClean | final_project/src/data_validation.py:121 | no message is appended iff no check failed |
| Validation.CleanIffAllPass | final_project/src/data_validation.py:43-112 | no check fails iff the frame meets all six rules |
| Validation.NoFindingsIffAllPass | final_project/src/data_validation.py:121-122 | the error list is empty iff the frame meets all six rules |
| Validation.Validate | final_project/src/data_validation.py:25-137 | a read failure is re-raised; success holds iff all rules pass, and then the result is empty errors with success true; otherwise a `ValueError` names the file and joins every message with `"; "` |
| FlatLoad.SqlTypeOf | final_project/src/ingest_data_to_mariadb.py:17-25 | integer dtypes map to BIGINT, float to FLOAT, bool to BOOLEAN, and everything else to TEXT, each iff |
| FlatLoad.ToParam | final_project/src/ingest_data_to_mariadb.py:35 | a cell becomes NULL iff it is NaN; other cells keep their value |
| FlatLoad.RowParams | final_project/src/ingest_data_to_mariadb.py:68 | one parameter per cell, in order |
| FlatLoad.UnescapeEscape | final_project/src/ingest_data_to_mariadb.py:57 | a header with every back-quote doubled denotes the name it was made from, so any name can be written as a header |
| FlatLoad.ReadQuotedHeader | final_project/src/ingest_data_to_mariadb.py:57 | a back-quoted header is read up to the back-quote the loader closes it with, as the name it denotes, when none of its own back-quotes is single |
| FlatLoad.KeywordThenName | final_project/src/ingest_data_to_mariadb.py:17-25 | each of the four type keywords reads back as its type, whether it ends the list or a `", "` and further definitions follow |
| FlatLoad.ParseColumnsText | final_project/src/ingest_data_to_mariadb.py:57-59 | when every header denotes a name, the server reads the generated list as one column per frame column, in order, with the denoted name and the mapped type; an empty frame gives no list |
| FlatLoad.PlaceholderCount | final_project/src/ingest_data_to_mariadb.py:64 | the placeholder list for n columns holds exactly n `%s`, and is `4n-2` characters long |
| FlatLoad.InsertStatementPlaceholders | final_project/src/ingest_data_to_mariadb.py:64-65 | the insert statement carries exactly one placeholder per column |
| FlatLoad.CaseOnlyNamesClash | final_project/src/ingest_data_to_mariadb.py:57-59 | the pair `id`/`ID` is refused, as `ColumnsAccepted` compares names with ASCII letters folded |
| FlatLoad.DoubledBackquoteHeader | final_project/src/ingest_data_to_mariadb.py:57-59 | the header ``` a``b ``` names the column `` a`b `` |
| FlatLoad.LoneBackquoteHeader | final_project/src/ingest_data_to_mariadb.py:57-59 | the header ``a`b`` ends its identifier at the single back-quote, and the list does not parse |
| FlatLoad.InjectedHeader | final_project/src/ingest_data_to_mariadb.py:57-59 | a header of the form ``x` T, `y`` reads as two columns: `x` of type `T` and `y` of the frame column's type |
| FlatLoad.StoreValueRefusal | final_project/src/ingest_data_to_mariadb.py:17-25 | a cell of its dtype's kind is refused iff it is an integer beyond the BIGINT range (a `uint64` value above 2^63-1), a float beyond single-precision range, or, in a `TEXT` column, a value whose text is too long or not encodable |
| FlatLoad.StoredReadsBack | final_project/src/ingest_data_to_mariadb.py:17-25 | a stored cell reads back as the CSV cell, except a float in `FLOAT`, which comes back rounded to single precision, and a number or boolean in `TEXT`, which comes back as its text |
| FlatLoad.Exec | final_project/src/ingest_data_to_mariadb.py:53-69 | a successful statement leaves every other table untouched; `CREATE` of an absent table succeeds iff its column list parses and its names are accepted, and yields an empty table of the parsed columns; an insert with no tuples changes nothing; otherwise an insert keeps the old rows and appends every tuple, each storable, as its columns store it |
| FlatLoad.IngestCsv | final_project/src/ingest_data_to_mariadb.py:30-32 | a missing file fails with the not-found message, before any statement, leaving the server unchanged |
| FlatLoad.IngestCsvOutcome | final_project/src/ingest_data_to_mariadb.py:53-71 | with the file present, any old table is dropped. A column list the server cannot parse leaves no table with a definition error; refused names leave no table with a name error. Otherwise the table is created with the columns the server read, and the insert step follows (`InsertLeaves`): no rows leave it empty; a column count other than the CSV's leaves it empty with an arity error; a refused value leaves it empty; else it holds one row per CSV row, each value as its column stores it, and the other tables are unchanged |
| FlatLoad.IngestCsvDenoted | final_project/src/ingest_data_to_mariadb.py:53-71 | for headers whose back-quotes are all doubled (headers without one included), the columns are the denoted names with their mapped types; the load succeeds iff those names are accepted and every cell is storable; a refused name leaves no table, a refused value an empty one; on success each stored value is its cell as the column stores it; no other table changes |
| FlatLoad.InjectedHeaderLeavesEmptyTable | final_project/src/ingest_data_to_mariadb.py:57-71 | a header ``x` T, `y`` with one row creates the two-column table, and the one-value insert then fails on column count, leaving that table empty |

## Left out

- Connections, engines, credentials and `CREATE DATABASE`: these are I/O. The server is a value passed in and returned.
- Reads and writes of CSV and Parquet files, `print`, logging and the tabulate summary: these are I/O. Each frame or batch is an input.
- `json.loads`: a parameter of type `string -> Decoded`. Nested lists or objects inside an element are not modelled; an element is a dict of scalars or one scalar.
- `pd.to_datetime` and `strftime` on the publication dates: dates arrive as text or null.
- `ingest_data_to_mariadb.py` reads the file's existence from the file system. The model takes it as a boolean parameter.
- Server type coercion: VARCHAR coercion and collation of dimension names are not modelled. Names are compared as JSON scalars, so `"1"` and `1` are different names.
- Auto-increment gaps: InnoDB can consume an id on an ignored insert or an upsert hit. The model only promises fresh ids.
- NaN in batch measures: it becomes SQL NULL through the driver. Measures are `Option` values.
- Failed entity upserts: a row whose `mal_id` has no stored entity row gets a NULL `manga_info_id` on its fact, and no bridge pair is written for it.
- Entity rejection: the only reason modelled is a value too long for its `VARCHAR` width. Other server errors in the upsert loop are not modelled.
- SQL errors other than those modelled: lost connections, type errors and the like.
- Preprocessing.Join: the output is taken to follow fact-table order. SQL gives no order without `ORDER BY`, so "first occurrence" is relative to that assumed order.
- Normalizer.Unique: its contract says which values are kept, not that they come in order of first occurrence. The order decides which id each new name receives; the model promises only that the ids are fresh.
- Preprocessing.DropMissingScores: its contract says which rows are kept, not that they stay in their original order.
- Strict SQL mode is assumed, MariaDB's default. Without it an out-of-range measure or value is clipped with a warning instead of refused.
- Store.Cents: the score is rounded from the decimal value the driver sends. The model takes the record's real number to be that value; Python's float-to-text rendering is not modelled.
- Dimension names longer than `VARCHAR(255)`: `INSERT IGNORE` truncates them with only a warning. The re-read map would then lack the full name, and the fact pass would stop at `.iloc[0]`. The model stores the full name and does not model that stop.
- A missing `mal_id`: the record's `mal_id` is an integer, never null. In the source a NaN `mal_id` is sent as NULL, and `UNIQUE` admits many NULLs, so each such row adds an entity row on every run. The merge on `mal_id` pairs missing keys with each other, so such a batch row would be repeated once per NULL-keyed entity row, and so would its facts and bridge pairs.
- Values.ToNumeric: a numeric string is treated as non-numeric, so it coerces to null. `pd.to_numeric` would parse it. This affects the score and count checks only on text columns.
- Validation.ListRepr: Python's `repr` of a column list is modelled for names without quotes or backslashes. Python escapes those.
- Mixed-dtype frame columns: the validator's cells are typed one by one.
- FlatLoad.IngestCsv: column dtypes are inputs. Inferring them from CSV text is pandas behaviour and is not modelled.
- FlatLoad.Fold: names are compared with ASCII letters folded. The server's collation also folds non-ASCII letters and ignores accents; the model accepts such pairs.
- FlatLoad.StoreValue: a value of a kind its column's dtype cannot hold (an integer in a `FLOAT` column, say) is refused. `FlatLoad.CsvWf` rules these out for a read CSV. The server's own conversions for them are not modelled.
- FlatLoad.ParseColumnList: the server's parser is modelled for the loader's own shape only: back-quoted names, the four type keywords and `", "` between definitions. A header that injects SQL of any other form (another type, a constraint, other spacing) is read as a syntax error, though MariaDB might accept it.
- FlatLoad.StoreValue: the `FLOAT` range is checked on the sent double, not on the value after rounding to single precision.
- `df.values` turns a frame of only numeric columns into one numpy array, which can turn integers into floats and yields numpy scalars. Each cell is sent as its own kind instead.
- FlatLoad: the table name is used as given. Server limits on column count and row size, and an invalid table name, are not modelled.
- The Airflow DAG, feature engineering, training, evaluation, monitoring, drift detection, EDA and the HTTP app are not part of this model. The model assumes the DAG's order: reset, then ingest, then preprocess.
