/** `validate_data`: six checks over the processed frame, each appending one
    message on failure, then either the report `{errors: [], success: true}`
    or a ValueError carrying every message. Reading the parquet file is a
    parameter: the frame, or the message of the exception the read raised. */
module Validation {
  import opened Wrappers
  import opened Text
  import opened Values
  import opened Normalizer

  /** A pandas frame: column names and rows of cells, one per column. */
  datatype Frame = Frame(columns: seq<string>, rows: seq<seq<Val>>)

  /** A frame read from parquet is rectangular and its column names are
      distinct. */
  predicate FrameWf(f: Frame) {
    && NoDup(f.columns)
    && forall i :: 0 <= i < |f.rows| ==> |f.rows[i]| == |f.columns|
  }

  const AllowedMissing: seq<string> := [
    "title_english", "title_japanese", "title_synonyms", "synopsis", "background",
    "published_from", "published_to", "images", "rank_val", "popularity",
    "primary_genre", "primary_author", "primary_demographic", "primary_serialization",
    "volumes", "chapters"]

  const Required: seq<string> := ["manga_info_id", "mal_id", "title", "score", "scored_by", "members", "favorites"]

  /** The columns checked for non-negative integers, in checking order. */
  datatype CountColumn = ScoredBy | Members | Favorites

  function ColumnName(c: CountColumn): string {
    match c
    case ScoredBy => "scored_by"
    case Members => "members"
    case Favorites => "favorites"
  }

  // -----------------------------------------------------------------------
  // Text helpers for the messages
  // -----------------------------------------------------------------------

  /** `str(xs)` of a list of column names (names assumed free of quotes and
      backslashes, which Python would escape). */
  function ListRepr(xs: seq<string>): string {
    "[" + JoinWith(", ", seq(|xs|, i requires 0 <= i < |xs| => "'" + xs[i] + "'")) + "]"
  }

  // -----------------------------------------------------------------------
  // Columns
  // -----------------------------------------------------------------------

  function IndexOf(cols: seq<string>, name: string): (k: nat)
    requires name in cols
    ensures k < |cols| && cols[k] == name
    ensures forall j :: 0 <= j < k ==> cols[j] != name
  {
    if cols[0] == name then 0 else 1 + IndexOf(cols[1..], name)
  }

  /** `df[name]` as a sequence of cells. */
  function ColumnOf(f: Frame, k: nat): (vs: seq<Val>)
    requires FrameWf(f) && k < |f.columns|
    ensures |vs| == |f.rows|
    ensures forall i :: 0 <= i < |f.rows| ==> vs[i] == f.rows[i][k]
  {
    seq(|f.rows|, i requires 0 <= i < |f.rows| => f.rows[i][k])
  }

  predicate HasNull(vs: seq<Val>) {
    exists i :: 0 <= i < |vs| && vs[i] == VNull
  }

  // -----------------------------------------------------------------------
  // Check 2: no missing value outside the allowed columns
  // -----------------------------------------------------------------------

  predicate CriticalAt(f: Frame, k: nat)
    requires FrameWf(f) && k < |f.columns|
  {
    f.columns[k] !in AllowedMissing && HasNull(ColumnOf(f, k))
  }

  /** The critical columns with a missing value, from column `k` on, in
      frame order. */
  function CriticalFrom(f: Frame, k: nat): (r: seq<string>)
    requires FrameWf(f) && k <= |f.columns|
    ensures forall c :: c in r <==> exists j :: k <= j < |f.columns| && f.columns[j] == c && CriticalAt(f, j)
    decreases |f.columns| - k
  {
    if k == |f.columns| then []
    else
      var rest := CriticalFrom(f, k + 1);
      if CriticalAt(f, k) then [f.columns[k]] + rest else rest
  }

  function CriticalMissing(f: Frame): (r: seq<string>)
    requires FrameWf(f)
    ensures forall c :: c in r <==> c in f.columns && c !in AllowedMissing && HasNull(ColumnOf(f, IndexOf(f.columns, c)))
  {
    var r := CriticalFrom(f, 0);
    assert forall j :: 0 <= j < |f.columns| ==> IndexOf(f.columns, f.columns[j]) == j by {
      forall j | 0 <= j < |f.columns| ensures IndexOf(f.columns, f.columns[j]) == j {
        var k := IndexOf(f.columns, f.columns[j]);
        assert !(k < j) && !(j < k);
      }
    }
    r
  }

  // -----------------------------------------------------------------------
  // Check 3: every required column is present
  // -----------------------------------------------------------------------

  /** The names of `names` that are not columns, in the order of `names`. */
  function Absent(names: seq<string>, cols: seq<string>): (r: seq<string>)
    ensures |r| <= |names|
    ensures forall x :: x in r <==> x in names && x !in cols
  {
    if names == [] then []
    else
      var rest := Absent(names[1..], cols);
      assert forall x :: x in names <==> x == names[0] || x in names[1..];
      if names[0] in cols then rest else [names[0]] + rest
  }

  function MissingRequired(f: Frame): (r: seq<string>)
    ensures forall x :: x in r <==> x in Required && x !in f.columns
  {
    Absent(Required, f.columns)
  }

  // -----------------------------------------------------------------------
  // Checks 4 and 7: duplicates
  // -----------------------------------------------------------------------

  /** `Series.duplicated().sum()` (and the same for whole rows): how many
      entries equal an earlier one. Missing values compare equal here, as
      they do in pandas. */
  function DuplicateCount<T(==)>(xs: seq<T>): (n: nat)
    ensures n <= |xs|
    ensures n == 0 <==> NoDup(xs)
  {
    if xs == [] then 0
    else
      var init := xs[..|xs| - 1];
      var last := xs[|xs| - 1];
      var n := DuplicateCount(init);
      assert forall i :: 0 <= i < |init| ==> init[i] == xs[i];
      if last in init then
        var j :| 0 <= j < |init| && init[j] == last;
        assert xs[j] == xs[|xs| - 1];
        n + 1
      else
        assert NoDup(init) ==> NoDup(xs) by {
          if NoDup(init) {
            forall i, j | 0 <= i < j < |xs| ensures xs[i] != xs[j] {
              if j == |xs| - 1 { assert xs[i] == init[i]; } else { assert init[i] != init[j]; }
            }
          }
        }
        n
  }

  function Distinct<T>(xs: seq<T>): set<T> {
    set x | x in xs
  }

  /** The count is what `drop_duplicates` would remove: entries minus
      distinct values. */
  lemma {:induction false} DuplicateCountDistinct<T>(xs: seq<T>)
    ensures DuplicateCount(xs) + |Distinct(xs)| == |xs|
    decreases |xs|
  {
    if xs != [] {
      var init := xs[..|xs| - 1];
      var last := xs[|xs| - 1];
      DuplicateCountDistinct(init);
      assert xs == init + [last];
      assert Distinct(xs) == Distinct(init) + {last};
      if last in init {
        assert Distinct(xs) == Distinct(init);
      } else {
        assert last !in Distinct(init);
      }
    }
  }

  predicate InfoIdsDuplicated(f: Frame)
    requires FrameWf(f)
  {
    "manga_info_id" in f.columns && !NoDup(ColumnOf(f, IndexOf(f.columns, "manga_info_id")))
  }

  // -----------------------------------------------------------------------
  // Checks 5 and 6: ranges after numeric coercion
  // -----------------------------------------------------------------------

  /** A coerced score fails when it is missing, below 0 or above 10; the
      bounds themselves pass. */
  predicate ScoreBad(v: Val) {
    var n := ToNumeric(v);
    n == VNull || AsReal(n) < 0.0 || AsReal(n) > 10.0
  }

  /** A coerced count fails when it is missing, negative or fractional. */
  predicate CountBad(v: Val) {
    var n := ToNumeric(v);
    n == VNull || AsReal(n) < 0.0 || !Integral(n)
  }

  predicate ScoreFails(f: Frame)
    requires FrameWf(f)
  {
    "score" in f.columns &&
    exists i :: 0 <= i < |f.rows| && ScoreBad(f.rows[i][IndexOf(f.columns, "score")])
  }

  predicate CountFails(f: Frame, name: string)
    requires FrameWf(f)
  {
    name in f.columns &&
    exists i :: 0 <= i < |f.rows| && CountBad(f.rows[i][IndexOf(f.columns, name)])
  }

  lemma ScoreBounds()
    ensures !ScoreBad(VReal(0.0)) && !ScoreBad(VReal(10.0)) && !ScoreBad(VInt(10))
    ensures ScoreBad(VReal(-0.01)) && ScoreBad(VReal(10.01)) && ScoreBad(VNull) && ScoreBad(VText("n/a"))
  {
  }

  /** `df[name] = pd.to_numeric(df[name], errors='coerce')`; the frame keeps
      the coerced column for the later checks. */
  function Coerce(f: Frame, name: string): (g: Frame)
    requires FrameWf(f)
    ensures FrameWf(g) && g.columns == f.columns && |g.rows| == |f.rows|
    ensures forall i, k :: 0 <= i < |f.rows| && 0 <= k < |f.columns| ==>
              g.rows[i][k] == if f.columns[k] == name then ToNumeric(f.rows[i][k]) else f.rows[i][k]
  {
    if name !in f.columns then f
    else
      var k := IndexOf(f.columns, name);
      assert forall j :: 0 <= j < |f.columns| && f.columns[j] == name ==> j == k by {
        forall j | 0 <= j < |f.columns| && f.columns[j] == name ensures j == k {
          assert !(j < k);
        }
      }
      Frame(f.columns, seq(|f.rows|, i requires 0 <= i < |f.rows| => f.rows[i][k := ToNumeric(f.rows[i][k])]))
  }

  /** The frame as the duplicate-row check sees it: score and the three
      count columns coerced. */
  function CoercedFrame(f: Frame): (g: Frame)
    requires FrameWf(f)
    ensures FrameWf(g) && g.columns == f.columns && |g.rows| == |f.rows|
    ensures forall i, k :: 0 <= i < |f.rows| && 0 <= k < |f.columns| ==>
              g.rows[i][k] == if f.columns[k] in ["score", "scored_by", "members", "favorites"]
                              then ToNumeric(f.rows[i][k]) else f.rows[i][k]
  {
    Coerce(Coerce(Coerce(Coerce(f, "score"), "scored_by"), "members"), "favorites")
  }

  predicate RowsDuplicated(f: Frame)
    requires FrameWf(f)
  {
    !NoDup(CoercedFrame(f).rows)
  }

  // -----------------------------------------------------------------------
  // The report
  // -----------------------------------------------------------------------

  /** One failed check and what its message reports. */
  datatype Finding =
    | CriticalNulls(cols: seq<string>)
    | AbsentColumns(cols: seq<string>)
    | DuplicateIds(count: nat)
    | BadScores
    | BadCounts(column: CountColumn)
    | DuplicateRows(count: nat)

  /** The message a finding appends to `errors`. */
  function Message(x: Finding): string {
    match x
    case CriticalNulls(cols) => "Missing values found in critical columns: " + ListRepr(cols)
    case AbsentColumns(cols) => "Missing required columns: " + ListRepr(cols)
    case DuplicateIds(n) => "Found " + NatToString(n) + " duplicate manga_info_ids"
    case BadScores => "Invalid score values: must be between 0 and 10"
    case BadCounts(c) => "Invalid " + ColumnName(c) + " values: must be non-negative integers"
    case DuplicateRows(n) => "Found " + NatToString(n) + " duplicate rows"
  }

  function Messages(xs: seq<Finding>): (ms: seq<string>)
    ensures |ms| == |xs|
    ensures forall i :: 0 <= i < |xs| ==> ms[i] == Message(xs[i])
  {
    seq(|xs|, i requires 0 <= i < |xs| => Message(xs[i]))
  }

  /** What each check measured: the offending column lists, the duplicate
      counts, and whether each range check failed. */
  datatype Outcomes = Outcomes(critical: seq<string>, absent: seq<string>, dupIds: nat, badScores: bool,
                               badScoredBy: bool, badMembers: bool, badFavorites: bool, dupRows: nat)

  function BadCount(o: Outcomes, c: CountColumn): bool {
    match c
    case ScoredBy => o.badScoredBy
    case Members => o.badMembers
    case Favorites => o.badFavorites
  }

  /** Run the six checks on a frame. */
  function Measure(f: Frame): (o: Outcomes)
    requires FrameWf(f)
  {
    var ids := InfoIdsDuplicated(f);
    Outcomes(CriticalMissing(f), MissingRequired(f),
             if ids then DuplicateCount(ColumnOf(f, IndexOf(f.columns, "manga_info_id"))) else 0,
             ScoreFails(f), CountFails(f, ColumnName(ScoredBy)), CountFails(f, ColumnName(Members)),
             CountFails(f, ColumnName(Favorites)),
             DuplicateCount(CoercedFrame(f).rows))
  }

  /** Each outcome of `Measure` holds exactly when its rule fails, and the
      reported counts are the duplicate counts. */
  lemma MeasureMeaning(f: Frame)
    requires FrameWf(f)
    ensures forall c :: c in Measure(f).critical <==>
              c in f.columns && c !in AllowedMissing && HasNull(ColumnOf(f, IndexOf(f.columns, c)))
    ensures forall c :: c in Measure(f).absent <==> c in Required && c !in f.columns
    ensures Measure(f).dupIds > 0 <==> InfoIdsDuplicated(f)
    ensures Measure(f).dupIds > 0 ==> Measure(f).dupIds == DuplicateCount(ColumnOf(f, IndexOf(f.columns, "manga_info_id")))
    ensures Measure(f).badScores <==> ScoreFails(f)
    ensures forall c: CountColumn :: BadCount(Measure(f), c) <==> CountFails(f, ColumnName(c))
    ensures Measure(f).dupRows > 0 <==> RowsDuplicated(f)
    ensures Measure(f).dupRows == DuplicateCount(CoercedFrame(f).rows)
  {
    MeasureColumns(f);
    MeasureDuplicates(f);
    MeasureRanges(f);
  }

  /** Checks 1 and 2: the critical columns with a null, the absent required columns. */
  lemma MeasureColumns(f: Frame)
    requires FrameWf(f)
    ensures forall c :: c in Measure(f).critical <==>
              c in f.columns && c !in AllowedMissing && HasNull(ColumnOf(f, IndexOf(f.columns, c)))
    ensures forall c :: c in Measure(f).absent <==> c in Required && c !in f.columns
  {
  }

  /** Checks 4 and 7: duplicated ids and duplicated rows, with their counts. */
  lemma MeasureDuplicates(f: Frame)
    requires FrameWf(f)
    ensures Measure(f).dupIds > 0 <==> InfoIdsDuplicated(f)
    ensures Measure(f).dupIds > 0 ==> Measure(f).dupIds == DuplicateCount(ColumnOf(f, IndexOf(f.columns, "manga_info_id")))
    ensures Measure(f).dupRows > 0 <==> RowsDuplicated(f)
    ensures Measure(f).dupRows == DuplicateCount(CoercedFrame(f).rows)
  {
    var o := Measure(f);
    if InfoIdsDuplicated(f) {
      assert DuplicateCount(ColumnOf(f, IndexOf(f.columns, "manga_info_id"))) > 0;
    }
  }

  /** Checks 5 and 6: the score range and the three count columns. */
  lemma MeasureRanges(f: Frame)
    requires FrameWf(f)
    ensures Measure(f).badScores <==> ScoreFails(f)
    ensures forall c: CountColumn :: BadCount(Measure(f), c) <==> CountFails(f, ColumnName(c))
  {
    var o := Measure(f);
    assert o.badScoredBy == CountFails(f, ColumnName(ScoredBy));
    assert o.badMembers == CountFails(f, ColumnName(Members));
    assert o.badFavorites == CountFails(f, ColumnName(Favorites));
    forall c: CountColumn ensures BadCount(o, c) <==> CountFails(f, ColumnName(c)) {
      match c
      case ScoredBy =>
      case Members =>
      case Favorites =>
    }
  }

  /** The findings of the checks that failed, in checking order. */
  function Keep(checks: seq<(bool, Finding)>): (r: seq<Finding>)
    ensures |r| <= |checks|
    ensures forall x :: x in r <==> exists i :: 0 <= i < |checks| && checks[i].0 && checks[i].1 == x
  {
    if checks == [] then []
    else
      var rest := Keep(checks[1..]);
      assert forall i :: 1 <= i < |checks| ==> checks[i] == checks[1..][i - 1];
      if checks[0].0 then [checks[0].1] + rest else rest
  }

  /** The findings the checks contribute, in checking order. */
  function Findings(o: Outcomes): (xs: seq<Finding>) {
    Keep(CheckList(o))
  }

  /** Finding `x` is the one a failing check contributes. */
  predicate Contributed(o: Outcomes, x: Finding) {
    match x
    case CriticalNulls(cols) => cols == o.critical && cols != []
    case AbsentColumns(cols) => cols == o.absent && cols != []
    case DuplicateIds(n) => n == o.dupIds && n > 0
    case BadScores => o.badScores
    case BadCounts(c) => BadCount(o, c)
    case DuplicateRows(n) => n == o.dupRows && n > 0
  }

  function CheckList(o: Outcomes): (cs: seq<(bool, Finding)>)
    ensures |cs| == 8
  {
    [ (o.critical != [], CriticalNulls(o.critical)),
      (o.absent != [], AbsentColumns(o.absent)),
      (o.dupIds > 0, DuplicateIds(o.dupIds)),
      (o.badScores, BadScores),
      (o.badScoredBy, BadCounts(ScoredBy)),
      (o.badMembers, BadCounts(Members)),
      (o.badFavorites, BadCounts(Favorites)),
      (o.dupRows > 0, DuplicateRows(o.dupRows)) ]
  }

  lemma ListedIsContributed(o: Outcomes, i: int)
    requires 0 <= i < 8 && CheckList(o)[i].0
    ensures Contributed(o, CheckList(o)[i].1)
  {
  }

  lemma ContributedIsListed(o: Outcomes, x: Finding)
    requires Contributed(o, x)
    ensures exists i :: 0 <= i < 8 && CheckList(o)[i].0 && CheckList(o)[i].1 == x
  {
    var cs := CheckList(o);
    match x
    case CriticalNulls(_) => assert cs[0].0 && cs[0].1 == x;
    case AbsentColumns(_) => assert cs[1].0 && cs[1].1 == x;
    case DuplicateIds(_) => assert cs[2].0 && cs[2].1 == x;
    case BadScores => assert cs[3].0 && cs[3].1 == x;
    case BadCounts(c) =>
      if c.ScoredBy? { assert cs[4].0 && cs[4].1 == x; }
      else if c.Members? { assert cs[5].0 && cs[5].1 == x; }
      else { assert cs[6].0 && cs[6].1 == x; }
    case DuplicateRows(_) => assert cs[7].0 && cs[7].1 == x;
  }

  /** Each failing check contributes its finding, and nothing else is
      reported. */
  lemma FindingsExact(o: Outcomes)
    ensures forall x :: x in Findings(o) <==> Contributed(o, x)
  {
    var cs := CheckList(o);
    assert Findings(o) == Keep(cs);
    forall x ensures x in Findings(o) <==> Contributed(o, x) {
      if x in Findings(o) {
        var i :| 0 <= i < |cs| && cs[i].0 && cs[i].1 == x;
        ListedIsContributed(o, i);
      }
      if Contributed(o, x) {
        ContributedIsListed(o, x);
      }
    }
  }

  /** Every check passes: no critical column has a missing value, every
      required column is present, manga_info_id has no repeated value,
      every score is a number in [0, 10], every count is a non-negative
      integer, and no two rows are equal once coerced. */
  predicate AllPass(f: Frame)
    requires FrameWf(f)
  {
    && NoCriticalNulls(f)
    && RequiredPresent(f)
    && !InfoIdsDuplicated(f)
    && !ScoreFails(f)
    && CountsPass(f)
    && !RowsDuplicated(f)
  }

  predicate NoCriticalNulls(f: Frame)
    requires FrameWf(f)
  {
    forall k :: 0 <= k < |f.columns| ==> !CriticalAt(f, k)
  }

  predicate RequiredPresent(f: Frame) {
    forall c :: c in Required ==> c in f.columns
  }

  predicate CountsPass(f: Frame)
    requires FrameWf(f)
  {
    forall c: CountColumn :: !CountFails(f, ColumnName(c))
  }

  predicate Clean(o: Outcomes) {
    && o.critical == [] && o.absent == [] && o.dupIds == 0 && !o.badScores
    && !o.badScoredBy && !o.badMembers && !o.badFavorites && o.dupRows == 0
  }

  lemma NoFindingsIffClean(o: Outcomes)
    ensures Findings(o) == [] <==> Clean(o)
  {
    FindingsExact(o);
    if Findings(o) == [] {
      assert !Contributed(o, CriticalNulls(o.critical));
      assert !Contributed(o, AbsentColumns(o.absent));
      assert !Contributed(o, DuplicateIds(o.dupIds));
      assert !Contributed(o, DuplicateRows(o.dupRows));
      assert !Contributed(o, BadCounts(ScoredBy)) && !Contributed(o, BadCounts(Members));
      assert !Contributed(o, BadCounts(Favorites)) && !Contributed(o, BadScores);
    } else {
      assert Contributed(o, Findings(o)[0]);
    }
  }

  lemma {:induction false} NoCriticalIffNoneListed(f: Frame)
    requires FrameWf(f)
    ensures Measure(f).critical == [] <==> NoCriticalNulls(f)
  {
    var o := Measure(f);
    MeasureMeaning(f);
    if o.critical == [] {
      forall k | 0 <= k < |f.columns| ensures !CriticalAt(f, k) {
        var c := f.columns[k];
        assert IndexOf(f.columns, c) == k by {
          var j := IndexOf(f.columns, c);
          assert !(j < k) && !(k < j);
        }
        assert c !in o.critical;
      }
    } else {
      var c := o.critical[0];
      assert c in o.critical;
      assert CriticalAt(f, IndexOf(f.columns, c));
    }
  }

  lemma {:induction false} CleanIffAllPass(f: Frame)
    requires FrameWf(f)
    ensures Clean(Measure(f)) <==> AllPass(f)
  {
    NoCriticalIffNoneListed(f);
    NoAbsentIffPresent(f);
    MeasureDuplicates(f);
    MeasureRanges(f);
    NoBadCountIffCountsPass(f);
  }

  lemma NoAbsentIffPresent(f: Frame)
    requires FrameWf(f)
    ensures Measure(f).absent == [] <==> RequiredPresent(f)
  {
    MeasureColumns(f);
    var o := Measure(f);
    if o.absent != [] { assert o.absent[0] in o.absent; }
  }

  lemma NoBadCountIffCountsPass(f: Frame)
    requires FrameWf(f)
    ensures (!Measure(f).badScoredBy && !Measure(f).badMembers && !Measure(f).badFavorites) <==> CountsPass(f)
  {
    MeasureRanges(f);
    var o := Measure(f);
    assert BadCount(o, ScoredBy) == o.badScoredBy && BadCount(o, Members) == o.badMembers;
    assert BadCount(o, Favorites) == o.badFavorites;
    if !o.badScoredBy && !o.badMembers && !o.badFavorites {
      forall c: CountColumn ensures !CountFails(f, ColumnName(c)) {
        match c
        case ScoredBy =>
        case Members =>
        case Favorites =>
      }
    }
  }

  /** No finding exactly when every check passes. */
  lemma {:induction false} NoFindingsIffAllPass(f: Frame)
    requires FrameWf(f)
    ensures Findings(Measure(f)) == [] <==> AllPass(f)
  {
    NoFindingsIffClean(Measure(f));
    CleanIffAllPass(f);
  }

  datatype Report = Report(errors: seq<string>, success: bool)

  datatype ValidationError = ValueError(message: string) | ReadError(message: string)

  const FailurePrefix := "Data validation failed for file "

  /** The whole function: a read error is raised as it is; a failing check
      raises a ValueError naming the file and every message, joined by
      "; "; otherwise the empty successful report is returned. */
  function Validate(path: string, read: Result<Frame, string>): (r: Result<Report, ValidationError>)
    requires read.Success? ==> FrameWf(read.value)
    ensures read.Failure? ==> r == Failure(ReadError(read.error))
    ensures read.Success? ==> (r.Success? <==> AllPass(read.value))
    ensures r.Success? ==> r.value == Report([], true)
    ensures read.Success? && r.Failure? ==>
              r.error == ValueError(FailurePrefix + path + ": " + JoinWith("; ", Messages(Findings(Measure(read.value)))))
  {
    match read
    case Failure(e) => Failure(ReadError(e))
    case Success(f) =>
      var xs := Findings(Measure(f));
      NoFindingsIffAllPass(f);
      if xs == [] then Success(Report([], true))
      else Failure(ValueError(FailurePrefix + path + ": " + JoinWith("; ", Messages(xs))))
  }
}
