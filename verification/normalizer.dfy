/** The record normaliser: turns a raw embedded list encoding (a CSV cell such
    as `[{"name": "Action"}, {"name": "Drama"}]`) into list elements, and
    extracts names from those elements in the two ways the loader does:
    leniently for dimension population, strictly for the primary and
    secondary foreign keys. */
module Normalizer {
  import opened Wrappers
  import opened Values

  /** One element of a decoded list: a JSON object with scalar fields, or a
      bare scalar (JSON `null` is `Atom(SNull)`). */
  datatype Elem = Obj(fields: map<string, Scalar>) | Atom(v: Scalar)

  /** What `json.loads` yields for a text that starts with `[`. */
  datatype Decoded = Parsed(items: seq<Elem>) | Failed

  /** `json.loads`, taken as an oracle. */
  type Loads = string -> Decoded

  /** A raw CSV cell: `None` is a missing value (NaN). */
  type RawCell = Option<string>

  datatype NormError = MissingName

  predicate StartsWithBracket(s: string) {
    |s| > 0 && s[0] == '['
  }

  /** `safe_json_loads`: never fails; the decoded list when the cell is a
      string starting with `[` that decodes, otherwise the empty list. */
  function SafeJsonLoads(cell: RawCell, loads: Loads): (r: seq<Elem>)
    ensures cell.None? ==> r == []
    ensures cell.Some? && !StartsWithBracket(cell.value) ==> r == []
    ensures cell.Some? && loads(cell.value).Failed? ==> r == []
    ensures cell.Some? && StartsWithBracket(cell.value) && loads(cell.value).Parsed? ==>
              r == loads(cell.value).items
  {
    match cell
    case None => []
    case Some(s) =>
      if StartsWithBracket(s) then
        match loads(s)
        case Parsed(items) => items
        case Failed => []
      else []
  }

  /** The dimension pass first renders every cell with `astype(str)`, which
      turns a missing cell into the text "nan"; that text never starts with
      `[`, so it normalises exactly like the missing cell itself. */
  lemma AsStrNormalisesAlike(cell: RawCell, loads: Loads)
    ensures SafeJsonLoads(Some(cell.GetOr("nan")), loads) == SafeJsonLoads(cell, loads)
  {
  }

  // ---------------------------------------------------------------------
  // Lenient extraction (dimension population)
  // ---------------------------------------------------------------------

  /** `x` is the name an element yields once NaN elements are dropped and
      dict elements are replaced by their `name` field. */
  predicate Yields(e: Elem, x: Scalar) {
    match e
    case Obj(f) => "name" in f && f["name"] == x
    case Atom(v) => v != SNull && v == x
  }

  /** Every dict element carries a `name` key (otherwise `x['name']` raises). */
  predicate WellNamed(items: seq<Elem>) {
    forall j :: 0 <= j < |items| ==> (items[j].Obj? ==> "name" in items[j].fields)
  }

  predicate RowCites(items: seq<Elem>, x: Scalar) {
    exists j :: 0 <= j < |items| && Yields(items[j], x)
  }

  /** The names one decoded list contributes, in list order. */
  function ElemNames(items: seq<Elem>): (r: Result<seq<Scalar>, NormError>)
    ensures r.Success? <==> WellNamed(items)
    ensures r.Success? ==> forall x :: x in r.value <==> RowCites(items, x)
  {
    if items == [] then Success([])
    else
      var rest := ElemNames(items[1..]);
      match items[0]
      case Obj(f) =>
        if "name" !in f then Failure(MissingName)
        else if rest.Failure? then rest
        else
          assert forall x :: RowCites(items, x) <==> x == f["name"] || RowCites(items[1..], x) by {
            forall x ensures RowCites(items, x) <==> x == f["name"] || RowCites(items[1..], x) {
              if RowCites(items[1..], x) {
                var j :| 0 <= j < |items[1..]| && Yields(items[1..][j], x);
                assert Yields(items[j + 1], x);
              }
              if RowCites(items, x) && x != f["name"] {
                var j :| 0 <= j < |items| && Yields(items[j], x);
                assert j != 0;
                assert Yields(items[1..][j - 1], x);
              }
            }
          }
          Success([f["name"]] + rest.value)
      case Atom(v) =>
        if rest.Failure? then
          assert !WellNamed(items[1..]);
          rest
        else
          assert forall x :: RowCites(items, x) <==> (v != SNull && x == v) || RowCites(items[1..], x) by {
            forall x ensures RowCites(items, x) <==> (v != SNull && x == v) || RowCites(items[1..], x) {
              if RowCites(items[1..], x) {
                var j :| 0 <= j < |items[1..]| && Yields(items[1..][j], x);
                assert Yields(items[j + 1], x);
              }
              if RowCites(items, x) && !(v != SNull && x == v) {
                var j :| 0 <= j < |items| && Yields(items[j], x);
                assert j != 0;
                assert Yields(items[1..][j - 1], x);
              }
            }
          }
          if v == SNull then rest else Success([v] + rest.value)
  }

  /** Some row of the column cites `x` (in any position). */
  predicate Cites(cells: seq<RawCell>, loads: Loads, x: Scalar) {
    exists i :: 0 <= i < |cells| && RowCites(SafeJsonLoads(cells[i], loads), x)
  }

  predicate ColumnWellNamed(cells: seq<RawCell>, loads: Loads) {
    forall i :: 0 <= i < |cells| ==> WellNamed(SafeJsonLoads(cells[i], loads))
  }

  /** The exploded, NaN-free, name-extracted column: the concatenation of
      every row's names, or the `KeyError` some nameless dict raises. */
  function ColumnNames(cells: seq<RawCell>, loads: Loads): (r: Result<seq<Scalar>, NormError>)
    ensures r.Success? <==> ColumnWellNamed(cells, loads)
    ensures r.Success? ==> forall x :: x in r.value <==> Cites(cells, loads, x)
  {
    if cells == [] then Success([])
    else
      var here := ElemNames(SafeJsonLoads(cells[0], loads));
      var rest := ColumnNames(cells[1..], loads);
      if here.Failure? then Failure(MissingName)
      else if rest.Failure? then
        assert !ColumnWellNamed(cells, loads) by {
          var i :| 0 <= i < |cells[1..]| && !WellNamed(SafeJsonLoads(cells[1..][i], loads));
          assert cells[1..][i] == cells[i + 1];
        }
        Failure(MissingName)
      else
        assert ColumnWellNamed(cells, loads) by {
          forall i | 0 <= i < |cells| ensures WellNamed(SafeJsonLoads(cells[i], loads)) {
            if i > 0 { assert cells[i] == cells[1..][i - 1]; }
          }
        }
        assert forall x :: Cites(cells, loads, x) <==> x in here.value || Cites(cells[1..], loads, x) by {
          forall x ensures Cites(cells, loads, x) <==> x in here.value || Cites(cells[1..], loads, x) {
            if Cites(cells[1..], loads, x) {
              var i :| 0 <= i < |cells[1..]| && RowCites(SafeJsonLoads(cells[1..][i], loads), x);
              assert cells[1..][i] == cells[i + 1];
            }
            if Cites(cells, loads, x) && x !in here.value {
              var i :| 0 <= i < |cells| && RowCites(SafeJsonLoads(cells[i], loads), x);
              assert i != 0;
              assert cells[i] == cells[1..][i - 1];
            }
          }
        }
        Success(here.value + rest.value)
  }

  predicate NoDup<T(==)>(xs: seq<T>) {
    forall i, j :: 0 <= i < j < |xs| ==> xs[i] != xs[j]
  }

  /** `Series.unique()`: each distinct value once. The body keeps the order
      of first occurrence; the contract states only which values are kept. */
  function Unique<T(==,!new)>(xs: seq<T>): (r: seq<T>)
    ensures NoDup(r)
    ensures forall x :: x in r <==> x in xs
  {
    if xs == [] then []
    else
      var u := Unique(xs[..|xs| - 1]);
      assert xs == xs[..|xs| - 1] + [xs[|xs| - 1]];
      if xs[|xs| - 1] in u then u else u + [xs[|xs| - 1]]
  }

  /** The names that survive the `if name:` guard of the insert loop. */
  function TruthyOnly(xs: seq<Scalar>): (r: seq<Scalar>)
    ensures forall x :: x in r <==> x in xs && Truthy(x)
    ensures NoDup(xs) ==> NoDup(r)
  {
    if xs == [] then []
    else
      var rest := TruthyOnly(xs[1..]);
      assert forall x :: x in xs <==> x == xs[0] || x in xs[1..];
      if Truthy(xs[0]) then
        assert NoDup(xs) ==> NoDup(xs[1..]) by {
          if NoDup(xs) {
            forall i, j | 0 <= i < j < |xs[1..]| ensures xs[1..][i] != xs[1..][j] {
              assert xs[1..][i] == xs[i + 1] && xs[1..][j] == xs[j + 1];
            }
          }
        }
        [xs[0]] + rest
      else
        assert NoDup(xs) ==> NoDup(xs[1..]) by {
          if NoDup(xs) {
            forall i, j | 0 <= i < j < |xs[1..]| ensures xs[1..][i] != xs[1..][j] {
              assert xs[1..][i] == xs[i + 1] && xs[1..][j] == xs[j + 1];
            }
          }
        }
        rest
  }

  /** The names a dimension receives from one column of the batch: every
      distinct truthy name cited anywhere in the column, each once, or the
      `KeyError` of a dict element without `name`. */
  function DimensionNames(cells: seq<RawCell>, loads: Loads): (r: Result<seq<Scalar>, NormError>)
    ensures r.Success? <==> ColumnWellNamed(cells, loads)
    ensures r.Success? ==> NoDup(r.value)
    ensures r.Success? ==> forall x :: x in r.value <==> Truthy(x) && Cites(cells, loads, x)
  {
    var names :- ColumnNames(cells, loads);
    Success(TruthyOnly(Unique(names)))
  }

  // ---------------------------------------------------------------------
  // Strict extraction (fact and bridge materialisation)
  // ---------------------------------------------------------------------

  /** A dict element that carries a `name` key. */
  predicate NamedObj(e: Elem) {
    e.Obj? && "name" in e.fields
  }

  /** The primary name: present only when the list is non-empty and its first
      element is a dict with `name`. */
  function PrimaryName(items: seq<Elem>): (r: Option<Scalar>)
    ensures r.Some? <==> |items| > 0 && NamedObj(items[0])
    ensures r.Some? ==> RowCites(items, r.value)
  {
    if |items| > 0 && NamedObj(items[0]) then
      assert Yields(items[0], items[0].fields["name"]);
      Some(items[0].fields["name"])
    else None
  }

  /** Element `e` is a dict whose `name` is `x`. */
  predicate NamedAs(e: Elem, x: Scalar) {
    NamedObj(e) && e.fields["name"] == x
  }

  /** Some element at index `lo` or later is a dict named `x`. */
  predicate NamedFrom(items: seq<Elem>, lo: nat, x: Scalar) {
    exists j :: lo <= j < |items| && NamedAs(items[j], x)
  }

  /** The names of the dict-with-`name` elements of a list, in order. */
  function NamedObjNames(items: seq<Elem>): (r: seq<Scalar>)
    ensures forall x :: x in r <==> NamedFrom(items, 0, x)
  {
    if items == [] then []
    else
      var rest := NamedObjNames(items[1..]);
      assert forall x :: NamedFrom(items, 0, x) <==> NamedAs(items[0], x) || NamedFrom(items[1..], 0, x) by {
        forall x ensures NamedFrom(items, 0, x) <==> NamedAs(items[0], x) || NamedFrom(items[1..], 0, x) {
          if NamedFrom(items[1..], 0, x) {
            var j :| 0 <= j < |items[1..]| && NamedAs(items[1..][j], x);
            assert NamedAs(items[j + 1], x);
          }
          if NamedFrom(items, 0, x) && !NamedAs(items[0], x) {
            var j :| 0 <= j < |items| && NamedAs(items[j], x);
            assert NamedAs(items[1..][j - 1], x);
          }
        }
      }
      if NamedObj(items[0]) then [items[0].fields["name"]] + rest else rest
  }

  /** The secondary names: dict-with-`name` elements at index 1 or later;
      lists of length at most one have none. */
  function SecondaryNames(items: seq<Elem>): (r: seq<Scalar>)
    ensures |items| <= 1 ==> r == []
    ensures forall x :: x in r <==> NamedFrom(items, 1, x)
  {
    if |items| <= 1 then []
    else
      var r := NamedObjNames(items[1..]);
      assert forall x :: NamedFrom(items, 1, x) <==> NamedFrom(items[1..], 0, x) by {
        forall x ensures NamedFrom(items, 1, x) <==> NamedFrom(items[1..], 0, x) {
          if NamedFrom(items[1..], 0, x) {
            var j :| 0 <= j < |items[1..]| && NamedAs(items[1..][j], x);
            assert NamedAs(items[j + 1], x);
          }
          if NamedFrom(items, 1, x) {
            var j :| 1 <= j < |items| && NamedAs(items[j], x);
            assert NamedAs(items[1..][j - 1], x);
          }
        }
      }
      r
  }

  /** Every secondary name is also cited by the row, so the lenient pass has
      offered it to the dimension. */
  lemma {:induction false} SecondaryIsCited(items: seq<Elem>, x: Scalar)
    requires x in SecondaryNames(items)
    ensures RowCites(items, x)
  {
    var j :| 1 <= j < |items| && NamedAs(items[j], x);
    assert Yields(items[j], x);
  }
}
