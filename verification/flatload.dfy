/** The flat CSV loader of `ingest_data_to_mariadb.py`: map each column's
    dtype to a SQL type, drop and re-create the target table with one typed
    column per CSV column, and insert one tuple per row with NaN sent as
    NULL. The server is modelled as a map from table name to table, whose
    columns are typed and whose values are converted to the column types as
    MariaDB does in strict mode; the CSV read, the existence test of the
    file and the server's floating-point and character-set conversions are
    parameters. */
module FlatLoad {
  import opened Wrappers
  import opened Text

  /** The dtype pandas reports for a column (after the NaN replacement,
      which is when the loader reads it). */
  datatype DType = IntegerType | FloatType | BoolType | ObjectType | DatetimeType | CategoryType

  datatype SqlType = BigInt | Float | Boolean | Text

  /** `get_sql_type`: integers, floats and booleans get their own SQL type;
      every other dtype is stored as TEXT. */
  function SqlTypeOf(d: DType): (t: SqlType)
    ensures t == BigInt <==> d == IntegerType
    ensures t == Float <==> d == FloatType
    ensures t == Boolean <==> d == BoolType
    ensures t == Text <==> !(d.IntegerType? || d.FloatType? || d.BoolType?)
  {
    match d
    case IntegerType => BigInt
    case FloatType => Float
    case BoolType => Boolean
    case _ => Text
  }

  function SqlTypeName(t: SqlType): string {
    match t
    case BigInt => "BIGINT"
    case Float => "FLOAT"
    case Boolean => "BOOLEAN"
    case Text => "TEXT"
  }

  // -----------------------------------------------------------------------
  // Cells and parameters
  // -----------------------------------------------------------------------

  /** A cell of the frame as `read_csv` produces it. */
  datatype Cell = NaN | IntCell(i: int) | FloatCell(r: real) | BoolCell(b: bool) | TextCell(s: string)

  /** A query parameter as the connector sends it. */
  datatype Param = Null | IntParam(i: int) | FloatParam(r: real) | BoolParam(b: bool) | TextParam(s: string)

  /** `df.replace({np.nan: None})` followed by `tuple(row)` for one cell. */
  function ToParam(c: Cell): (p: Param)
    ensures p == Null <==> c == NaN
    ensures c.IntCell? ==> p == IntParam(c.i)
    ensures c.FloatCell? ==> p == FloatParam(c.r)
    ensures c.BoolCell? ==> p == BoolParam(c.b)
    ensures c.TextCell? ==> p == TextParam(c.s)
  {
    match c
    case NaN => Null
    case IntCell(i) => IntParam(i)
    case FloatCell(r) => FloatParam(r)
    case BoolCell(b) => BoolParam(b)
    case TextCell(s) => TextParam(s)
  }

  /** The cell a parameter came from: NULL goes back to NaN. */
  function FromParam(p: Param): Cell {
    match p
    case Null => NaN
    case IntParam(i) => IntCell(i)
    case FloatParam(r) => FloatCell(r)
    case BoolParam(b) => BoolCell(b)
    case TextParam(s) => TextCell(s)
  }

  lemma ParamRoundTrip(c: Cell)
    ensures FromParam(ToParam(c)) == c
  {
  }

  function RowParams(row: seq<Cell>): (ps: seq<Param>)
    ensures |ps| == |row|
    ensures forall j :: 0 <= j < |row| ==> ps[j] == ToParam(row[j])
  {
    seq(|row|, j requires 0 <= j < |row| => ToParam(row[j]))
  }

  /** No NaN reaches the server: every missing cell is sent as NULL, and
      every other cell is sent as itself. */
  lemma RowParamsRoundTrip(row: seq<Cell>)
    ensures forall j :: 0 <= j < |row| ==> FromParam(RowParams(row)[j]) == row[j]
    ensures forall j :: 0 <= j < |row| ==> (RowParams(row)[j] == Null <==> row[j] == NaN)
  {
  }

  // -----------------------------------------------------------------------
  // Statement text
  // -----------------------------------------------------------------------

  /** One column definition: the back-quoted header and its SQL type. The
      header is pasted in as it is; a back-quote in it is not doubled. */
  function ColumnDef(header: string, d: DType): string {
    "`" + header + "` " + SqlTypeName(SqlTypeOf(d))
  }

  /** The typed columns of a frame, in frame order. */
  function ColumnDefs(cols: seq<(string, DType)>): (defs: seq<string>)
    ensures |defs| == |cols|
    ensures forall i :: 0 <= i < |cols| ==> defs[i] == ColumnDef(cols[i].0, cols[i].1)
  {
    seq(|cols|, i requires 0 <= i < |cols| => ColumnDef(cols[i].0, cols[i].1))
  }

  /** `columns_with_types`: the definitions joined with `", "`. */
  function ColumnsText(cols: seq<(string, DType)>): string {
    JoinWith(", ", ColumnDefs(cols))
  }

  // -----------------------------------------------------------------------
  // How the server reads the column list
  // -----------------------------------------------------------------------

  /** A back-quoted identifier, read after its opening quote: it runs up to
      the first back-quote that is not doubled, and a doubled back-quote
      stands for one. Gives the name and the text after the closing quote. */
  function ReadQuoted(s: string): (r: Option<(string, string)>)
    ensures r.Some? ==> |r.value.1| < |s|
    decreases |s|
  {
    if s == [] then None
    else if s[0] == '`' then
      if |s| > 1 && s[1] == '`' then
        match ReadQuoted(s[2..])
        case None => None
        case Some(q) => Some(("`" + q.0, q.1))
      else Some(("", s[1..]))
    else
      match ReadQuoted(s[1..])
      case None => None
      case Some(q) => Some(([s[0]] + q.0, q.1))
  }

  /** The name a header denotes between back-quotes when none of its
      back-quotes ends the identifier: each doubled back-quote read as one.
      Nothing when a back-quote in it is single. */
  function Unescape(h: string): Option<string>
    decreases |h|
  {
    if h == [] then Some([])
    else if h[0] == '`' then
      if |h| > 1 && h[1] == '`' then
        match Unescape(h[2..])
        case None => None
        case Some(n) => Some("`" + n)
      else None
    else
      match Unescape(h[1..])
      case None => None
      case Some(n) => Some([h[0]] + n)
  }

  /** A name with each back-quote doubled. */
  function Escape(name: string): string {
    if name == [] then [] else (if name[0] == '`' then "``" else [name[0]]) + Escape(name[1..])
  }

  /** Doubling the back-quotes of a name gives a header that denotes it. */
  lemma {:induction false} UnescapeEscape(name: string)
    ensures Unescape(Escape(name)) == Some(name)
  {
    if name != [] {
      var e := Escape(name);
      UnescapeEscape(name[1..]);
      if name[0] == '`' {
        assert e == "``" + Escape(name[1..]);
        assert e[2..] == Escape(name[1..]);
        assert "`" + name[1..] == name;
      } else {
        assert e[1..] == Escape(name[1..]);
        assert [name[0]] + name[1..] == name;
      }
    }
  }

  /** A header without back-quotes denotes itself. */
  lemma {:induction false} UnescapePlain(h: string)
    requires forall j :: 0 <= j < |h| ==> h[j] != '`'
    ensures Unescape(h) == Some(h)
  {
    if h != [] {
      UnescapePlain(h[1..]);
      assert [h[0]] + h[1..] == h;
    }
  }

  /** A header that denotes a name is read back as that name, up to the
      back-quote its definition closes it with. */
  lemma {:induction false} ReadQuotedHeader(h: string, tail: string)
    requires Unescape(h).Some?
    requires tail == [] || tail[0] != '`'
    ensures ReadQuoted(h + "`" + tail) == Some((Unescape(h).value, tail))
  {
    var s := h + "`" + tail;
    if h == [] {
      assert s == "`" + tail;
      assert s[1..] == tail;
    } else if h[0] == '`' {
      assert s[2..] == h[2..] + "`" + tail;
      ReadQuotedHeader(h[2..], tail);
    } else {
      assert s[1..] == h[1..] + "`" + tail;
      ReadQuotedHeader(h[1..], tail);
    }
  }

  /** Type keyword `t` at the start of `s`: the rest of the list after the
      `", "` that follows it, or nothing when the list ends with it. */
  function KeywordAs(s: string, t: SqlType): (r: Option<Option<string>>)
    ensures r.Some? && r.value.Some? ==> |r.value.value| < |s|
  {
    var kw := SqlTypeName(t);
    if s == kw then Some(None)
    else if |kw| + 2 <= |s| && s[..|kw| + 2] == kw + ", " then Some(Some(s[|kw| + 2..]))
    else None
  }

  /** The type keyword at the start of `s`, if any, with what follows it. */
  function KeywordThen(s: string): (r: Option<(SqlType, Option<string>)>)
    ensures r.Some? ==> KeywordAs(s, r.value.0) == Some(r.value.1)
    ensures r.Some? && r.value.1.Some? ==> |r.value.1.value| < |s|
  {
    if KeywordAs(s, BigInt).Some? then Some((BigInt, KeywordAs(s, BigInt).value))
    else if KeywordAs(s, Float).Some? then Some((Float, KeywordAs(s, Float).value))
    else if KeywordAs(s, Boolean).Some? then Some((Boolean, KeywordAs(s, Boolean).value))
    else if KeywordAs(s, Text).Some? then Some((Text, KeywordAs(s, Text).value))
    else None
  }

  /** Each keyword the loader writes reads back as its type, at the end of
      the list or before the next definition. */
  lemma KeywordThenName(t: SqlType, more: string)
    ensures KeywordThen(SqlTypeName(t)) == Some((t, None))
    ensures KeywordThen(SqlTypeName(t) + ", " + more) == Some((t, Some(more)))
  {
    var s := SqlTypeName(t) + ", " + more;
    match t
    case BigInt =>
      assert s[..8] == "BIGINT, ";
      assert s[8..] == more;
    case Float =>
      assert s[0] == 'F' && s[..7] == "FLOAT, " && s[7..] == more;
    case Boolean =>
      assert s[1] == 'O' && s[..9] == "BOOLEAN, " && s[9..] == more;
    case Text =>
      assert s[0] == 'T' && s[..6] == "TEXT, " && s[6..] == more;
  }

  /** The server's reading of a column list: definitions `` `name` TYPE ``
      separated by `", "`; nothing when the text is not such a list. */
  function ParseColumnList(s: string): Option<seq<(string, SqlType)>>
    decreases |s|
  {
    if s == [] || s[0] != '`' then None
    else
      match ReadQuoted(s[1..])
      case None => None
      case Some(q) =>
        if q.1 == [] || q.1[0] != ' ' then None
        else
          match KeywordThen(q.1[1..])
          case None => None
          case Some(k) =>
            match k.1
            case None => Some([(q.0, k.0)])
            case Some(more) =>
              match ParseColumnList(more)
              case None => None
              case Some(cols) => Some([(q.0, k.0)] + cols)
  }

  /** The columns a frame's headers denote, each with its mapped type. */
  function Denoted(cols: seq<(string, DType)>): (dc: seq<(string, SqlType)>)
    requires forall i :: 0 <= i < |cols| ==> Unescape(cols[i].0).Some?
    ensures |dc| == |cols|
    ensures forall i :: 0 <= i < |cols| ==> dc[i] == (Unescape(cols[i].0).value, SqlTypeOf(cols[i].1))
  {
    seq(|cols|, i requires 0 <= i < |cols| => (Unescape(cols[i].0).value, SqlTypeOf(cols[i].1)))
  }

  /** The last definition of a list reads as its name and type. */
  lemma ParseLastDef(h: string, t: SqlType)
    requires Unescape(h).Some?
    ensures ParseColumnList("`" + h + "` " + SqlTypeName(t)) == Some([(Unescape(h).value, t)])
  {
    var s := "`" + h + "` " + SqlTypeName(t);
    var tail := " " + SqlTypeName(t);
    assert s[1..] == h + "`" + tail;
    ReadQuotedHeader(h, tail);
    assert tail[1..] == SqlTypeName(t);
    KeywordThenName(t, "");
  }

  /** A definition followed by `", "` reads as its name and type, then the
      rest of the list. */
  lemma ParseNextDef(h: string, t: SqlType, rest: string)
    requires Unescape(h).Some?
    ensures ParseColumnList("`" + h + "` " + SqlTypeName(t) + ", " + rest) ==
              if ParseColumnList(rest).None? then None else Some([(Unescape(h).value, t)] + ParseColumnList(rest).value)
  {
    var s := "`" + h + "` " + SqlTypeName(t) + ", " + rest;
    var tail := " " + SqlTypeName(t) + ", " + rest;
    assert s[1..] == h + "`" + tail;
    ReadQuotedHeader(h, tail);
    assert tail[1..] == SqlTypeName(t) + ", " + rest;
    KeywordThenName(t, rest);
  }

  /** When every header denotes a name, the server reads the column list
      back as those names with their mapped types, one per frame column in
      frame order; an empty frame gives no list. */
  lemma {:induction false} ParseColumnsText(cols: seq<(string, DType)>)
    requires forall i :: 0 <= i < |cols| ==> Unescape(cols[i].0).Some?
    ensures ParseColumnList(ColumnsText(cols)) == if cols == [] then None else Some(Denoted(cols))
  {
    if cols != [] {
      var h := cols[0].0;
      var t := SqlTypeOf(cols[0].1);
      ColumnsTextShape(cols);
      if |cols| == 1 {
        ParseLastDef(h, t);
        assert Denoted(cols) == [(Unescape(h).value, t)];
      } else {
        ParseNextDef(h, t, ColumnsText(cols[1..]));
        ParseColumnsText(cols[1..]);
        assert Denoted(cols) == [(Unescape(h).value, t)] + Denoted(cols[1..]);
      }
    }
  }

  /** The column list is the first definition, then `", "` and the rest's
      list when there is a rest. */
  lemma ColumnsTextShape(cols: seq<(string, DType)>)
    requires cols != []
    ensures var first := "`" + cols[0].0 + "` " + SqlTypeName(SqlTypeOf(cols[0].1));
            ColumnsText(cols) == if |cols| == 1 then first else first + ", " + ColumnsText(cols[1..])
  {
    var defs := ColumnDefs(cols);
    if |cols| > 1 {
      assert defs[1..] == ColumnDefs(cols[1..]);
    }
  }

  /** A header ``` a``b ``` names the column `` a`b ``. */
  lemma DoubledBackquoteHeader()
    ensures ParseColumnList(ColumnsText([("a``b", IntegerType)])) == Some([("a`b", BigInt)])
  {
    assert Escape("a`b") == "a``b" by {
      assert Escape("b") == "b";
      assert Escape("`b") == "``b";
    }
    UnescapeEscape("a`b");
    ParseColumnsText([("a``b", IntegerType)]);
  }

  /** A single back-quote in a header ends the identifier early; here what
      follows is not a type, so the list does not parse. */
  lemma LoneBackquoteHeader()
    ensures ParseColumnList(ColumnsText([("a`b", IntegerType)])).None?
  {
    var s := ColumnsText([("a`b", IntegerType)]);
    assert s == "`a`b` BIGINT";
    assert s[1..] == "a" + "`" + "b` BIGINT";
    ReadQuotedHeader("a", "b` BIGINT");
  }

  /** A header can close its identifier and go on with a definition of its
      own: a header `` x` TEXT, `y `` reads as two columns, `x` of type
      `TEXT` and `y` of the frame column's type. */
  lemma InjectedHeader(a: string, t: SqlType, b: string, d: DType)
    requires Unescape(a).Some? && Unescape(b).Some?
    ensures ParseColumnList(ColumnsText([(a + "` " + SqlTypeName(t) + ", `" + b, d)])) ==
              Some([(Unescape(a).value, t), (Unescape(b).value, SqlTypeOf(d))])
  {
    var rest := "`" + b + "` " + SqlTypeName(SqlTypeOf(d));
    InjectedText(a, t, b, d);
    ParseLastDef(b, SqlTypeOf(d));
    ParseNextDef(a, t, rest);
    var x, y := (Unescape(a).value, t), (Unescape(b).value, SqlTypeOf(d));
    assert [x] + [y] == [x, y];
  }

  /** The column list generated for such a header, read as two definitions. */
  lemma InjectedText(a: string, t: SqlType, b: string, d: DType)
    ensures ColumnsText([(a + "` " + SqlTypeName(t) + ", `" + b, d)]) ==
              "`" + a + "` " + SqlTypeName(t) + ", " + ("`" + b + "` " + SqlTypeName(SqlTypeOf(d)))
  {
  }

  /** `", ".join(["%s"] * n)`. */
  function Placeholders(n: nat): string {
    JoinWith(", ", seq(n, _ => "%s"))
  }

  function CountPercent(s: string): (k: nat)
    ensures k <= |s|
  {
    if s == [] then 0 else (if s[0] == '%' then 1 else 0) + CountPercent(s[1..])
  }

  lemma CountPercentAppend(a: string, b: string)
    ensures CountPercent(a + b) == CountPercent(a) + CountPercent(b)
  {
    if a == [] {
      assert a + b == b;
    } else {
      assert (a + b)[1..] == a[1..] + b;
      CountPercentAppend(a[1..], b);
    }
  }

  /** The placeholder list has exactly one `%s` per column. */
  lemma {:induction false} PlaceholderCount(n: nat)
    ensures CountPercent(Placeholders(n)) == n
    ensures n > 0 ==> |Placeholders(n)| == 4 * n - 2
  {
    if n == 0 {
    } else if n == 1 {
      assert Placeholders(1) == "%s";
    } else {
      var xs := seq(n, _ => "%s");
      assert xs[1..] == seq(n - 1, _ => "%s");
      assert Placeholders(n) == "%s" + ", " + Placeholders(n - 1);
      PlaceholderCount(n - 1);
      CountPercentAppend("%s" + ", ", Placeholders(n - 1));
      assert CountPercent("%s, ") == 1;
    }
  }

  function InsertStatement(table: string, n: nat): string {
    "INSERT INTO " + table + " VALUES (" + Placeholders(n) + ")"
  }

  /** For a table name without `%`, the insert statement for `n` columns
      carries exactly `n` placeholders, so `executemany` binds one value per
      column. */
  lemma InsertStatementPlaceholders(table: string, n: nat)
    requires forall j :: 0 <= j < |table| ==> table[j] != '%'
    ensures CountPercent(InsertStatement(table, n)) == n
  {
    var prefix := "INSERT INTO " + table + " VALUES (";
    assert forall j :: 0 <= j < |prefix| ==> prefix[j] != '%' by {
      forall j | 0 <= j < |prefix| ensures prefix[j] != '%' {
        if 12 <= j < 12 + |table| {
          assert prefix[j] == table[j - 12];
        }
      }
    }
    NoPercent(prefix);
    NoPercent(")");
    PlaceholderCount(n);
    CountPercentAppend(prefix, Placeholders(n));
    CountPercentAppend(prefix + Placeholders(n), ")");
  }

  lemma {:induction false} NoPercent(s: string)
    requires forall j :: 0 <= j < |s| ==> s[j] != '%'
    ensures CountPercent(s) == 0
  {
    if s != [] {
      NoPercent(s[1..]);
    }
  }

  // -----------------------------------------------------------------------
  // Column names the server accepts
  // -----------------------------------------------------------------------

  /** The longest column name, in characters. */
  const NameMax: nat := 64

  /** A column name the server accepts: 1 to 64 characters, not ending in a
      space, and no NUL or character beyond the Basic Multilingual Plane. */
  predicate NameAccepted(name: string) {
    && 0 < |name| <= NameMax
    && name[|name| - 1] != ' '
    && forall j :: 0 <= j < |name| ==> name[j] != '\0' && (name[j] as int) < 0x1_0000
  }

  /** Letter case does not distinguish column names (the model folds ASCII
      letters only). */
  function FoldChar(c: char): char {
    if 'A' <= c <= 'Z' then ((c as int) + 32) as char else c
  }

  function Fold(s: string): (f: string)
    ensures |f| == |s|
  {
    seq(|s|, j requires 0 <= j < |s| => FoldChar(s[j]))
  }

  /** A table needs at least one column, each name accepted, no two names
      equal up to letter case. */
  predicate ColumnsAccepted(names: seq<string>) {
    && |names| > 0
    && (forall i :: 0 <= i < |names| ==> NameAccepted(names[i]))
    && (forall i, j :: 0 <= i < j < |names| ==> Fold(names[i]) != Fold(names[j]))
  }

  /** "ID" and "id" name the same column: a frame with both cannot be
      loaded. */
  lemma CaseOnlyNamesClash()
    ensures !ColumnsAccepted(["id", "ID"])
  {
    assert FoldChar('I') == 'i' && FoldChar('D') == 'd' && FoldChar('i') == 'i' && FoldChar('d') == 'd';
    assert Fold("ID") == "id";
    assert Fold("id") == "id";
    assert Fold(["id", "ID"][0]) == Fold(["id", "ID"][1]);
  }

  // -----------------------------------------------------------------------
  // Values the server stores
  // -----------------------------------------------------------------------

  /** The signed 64-bit range of `BIGINT`. */
  const BigIntMin: int := -0x8000_0000_0000_0000
  const BigIntMax: int := 0x7FFF_FFFF_FFFF_FFFF

  /** The largest finite single-precision magnitude. */
  const FloatMax: real := 340282346638528859811704183484516925440.0

  /** The most bytes a `TEXT` value holds. */
  const TextMaxBytes: nat := 65535

  /** The server's conversions the model leaves open: rounding a double to
      single precision (`FLOAT` is four bytes), rendering a double as text,
      and the byte length of a string in the table's character set (none
      when the character set cannot represent it). */
  datatype Coercion = Coercion(single: real -> real, doubleText: real -> string, textBytes: string -> Option<nat>)

  /** The text a non-NULL parameter becomes in a `TEXT` column: the
      connector sends `True`/`False` as 1/0, numbers as numbers. */
  function TextOf(p: Param, cv: Coercion): string {
    match p
    case Null => ""
    case IntParam(i) => IntToString(i)
    case FloatParam(r) => cv.doubleText(r)
    case BoolParam(b) => if b then "1" else "0"
    case TextParam(s) => s
  }

  predicate TextFits(s: string, cv: Coercion) {
    cv.textBytes(s).Some? && cv.textBytes(s).value <= TextMaxBytes
  }

  /** What a column of type `t` stores for parameter `p`, or nothing when
      the server refuses it in strict mode. NULL goes into any column; an
      integer into `BIGINT` within range; a float into `FLOAT` within the
      single-precision range, rounded; a boolean into `BOOLEAN` as 1 or 0;
      anything into `TEXT` as text that fits. Other pairings do not arise
      from a read CSV (`CsvWf`) and are refused. */
  function StoreValue(t: SqlType, p: Param, cv: Coercion): Option<Param> {
    if p == Null then Some(Null)
    else
      match t
      case BigInt => if p.IntParam? && BigIntMin <= p.i <= BigIntMax then Some(p) else None
      case Float => if p.FloatParam? && -FloatMax <= p.r <= FloatMax then Some(FloatParam(cv.single(p.r))) else None
      case Boolean => if p.BoolParam? then Some(IntParam(if p.b then 1 else 0)) else None
      case Text => if TextFits(TextOf(p, cv), cv) then Some(TextParam(TextOf(p, cv))) else None
  }

  /** The cell a stored value reads back as: NULL as NaN, a `BOOLEAN`'s
      integer as its truth value. */
  function ReadBack(t: SqlType, v: Param): Cell {
    match v
    case Null => NaN
    case IntParam(i) => if t == Boolean then BoolCell(i != 0) else IntCell(i)
    case FloatParam(r) => FloatCell(r)
    case BoolParam(b) => BoolCell(b)
    case TextParam(s) => TextCell(s)
  }

  /** The largest `uint64`: pandas reads a column of non-negative integers
      beyond the `int64` range as `uint64`, still an integer dtype. */
  const UInt64Max: int := 0xFFFF_FFFF_FFFF_FFFF

  /** The cells a column of dtype `d` can hold once read: `int64` or
      `uint64` integers, floats, booleans; an object column (a float or
      boolean column with missing cells becomes one) holds anything. */
  predicate CellKind(d: DType, c: Cell) {
    match d
    case IntegerType => c.IntCell? && BigIntMin <= c.i <= UInt64Max
    case FloatType => c.FloatCell?
    case BoolType => c.BoolCell?
    case _ => true
  }

  /** A cell of its column's kind is refused exactly when it is an integer
      beyond the `BIGINT` range, a float beyond the single-precision range,
      or, in a `TEXT` column, a value whose text does not fit. */
  lemma StoreValueRefusal(d: DType, c: Cell, cv: Coercion)
    requires CellKind(d, c)
    ensures StoreValue(SqlTypeOf(d), ToParam(c), cv).None? <==>
              (d == IntegerType && c.i > BigIntMax) ||
              (d == FloatType && !(-FloatMax <= c.r <= FloatMax)) ||
              (SqlTypeOf(d) == Text && c != NaN && !TextFits(TextOf(ToParam(c), cv), cv))
  {
  }

  /** A stored cell reads back as the CSV cell, except that a float in a
      `FLOAT` column comes back rounded to single precision and a number or
      boolean in a `TEXT` column comes back as its text. */
  lemma StoredReadsBack(d: DType, c: Cell, cv: Coercion)
    requires CellKind(d, c)
    requires StoreValue(SqlTypeOf(d), ToParam(c), cv).Some?
    ensures d == FloatType ==>
              ReadBack(SqlTypeOf(d), StoreValue(SqlTypeOf(d), ToParam(c), cv).value) == FloatCell(cv.single(c.r))
    ensures SqlTypeOf(d) == Text && c != NaN ==>
              ReadBack(SqlTypeOf(d), StoreValue(SqlTypeOf(d), ToParam(c), cv).value) == TextCell(TextOf(ToParam(c), cv))
    ensures d != FloatType && (SqlTypeOf(d) == Text ==> c.NaN? || c.TextCell?) ==>
              ReadBack(SqlTypeOf(d), StoreValue(SqlTypeOf(d), ToParam(c), cv).value) == c
  {
  }

  // -----------------------------------------------------------------------
  // The server
  // -----------------------------------------------------------------------

  datatype Table = Table(columns: seq<(string, SqlType)>, rows: seq<seq<Param>>)

  type Server = map<string, Table>

  /** The statements the loader issues, with the parts the server acts on:
      `CREATE TABLE` carries the text between its parentheses. */
  datatype Stmt =
    | DropIfExists(table: string)
    | Create(table: string, columns: string)
    | InsertMany(table: string, placeholders: string, rows: seq<seq<Param>>)

  datatype LoadError =
    | FileNotFound(message: string)
    | TableExists
    | NoSuchTable
    | BadDefinition
    | BadColumnName
    | WrongArity
    | ValueRefused

  function Firsts<A, B>(ps: seq<(A, B)>): (xs: seq<A>)
    ensures |xs| == |ps|
    ensures forall i :: 0 <= i < |ps| ==> xs[i] == ps[i].0
  {
    seq(|ps|, i requires 0 <= i < |ps| => ps[i].0)
  }

  predicate RowStorable(cols: seq<(string, SqlType)>, row: seq<Param>, cv: Coercion) {
    |row| == |cols| && forall j :: 0 <= j < |row| ==> StoreValue(cols[j].1, row[j], cv).Some?
  }

  function StoreRow(cols: seq<(string, SqlType)>, row: seq<Param>, cv: Coercion): (r: seq<Param>)
    requires RowStorable(cols, row, cv)
    ensures |r| == |row|
    ensures forall j :: 0 <= j < |row| ==> Some(r[j]) == StoreValue(cols[j].1, row[j], cv)
  {
    seq(|row|, j requires 0 <= j < |row| => StoreValue(cols[j].1, row[j], cv).value)
  }

  /** One statement; a failed statement changes nothing. `CREATE` fails on
      a column list it cannot parse or a set of names it refuses.
      `executemany` with no tuples sends nothing; otherwise it fails when a
      tuple's length differs from the number of placeholders or the
      placeholders from the columns, and as a whole when any value is
      refused. */
  function Exec(db: Server, s: Stmt, cv: Coercion): (r: Result<Server, LoadError>)
    ensures r.Success? ==> forall t :: t != s.table ==> (t in r.value <==> t in db) && (t in db ==> r.value[t] == db[t])
    ensures s.Create? && s.table !in db ==>
              (r.Success? <==> ParseColumnList(s.columns).Some? && ColumnsAccepted(Firsts(ParseColumnList(s.columns).value)))
    ensures s.Create? && r.Success? ==>
              ParseColumnList(s.columns).Some? && s.table in r.value && r.value[s.table] == Table(ParseColumnList(s.columns).value, [])
    ensures s.InsertMany? && s.rows == [] ==> r == Success(db)
    ensures s.InsertMany? && s.rows != [] && r.Success? ==>
              s.table in db && s.table in r.value && |r.value[s.table].rows| == |db[s.table].rows| + |s.rows| &&
              r.value[s.table].columns == db[s.table].columns &&
              r.value[s.table].rows[..|db[s.table].rows|] == db[s.table].rows &&
              forall i :: 0 <= i < |s.rows| ==>
                (RowStorable(db[s.table].columns, s.rows[i], cv) &&
                 r.value[s.table].rows[|db[s.table].rows| + i] == StoreRow(db[s.table].columns, s.rows[i], cv))
  {
    match s
    case DropIfExists(t) => Success(db - {t})
    case Create(t, text) =>
      if t in db then Failure(TableExists)
      else
        var cols := ParseColumnList(text);
        if cols.None? then Failure(BadDefinition)
        else if ColumnsAccepted(Firsts(cols.value)) then Success(db[t := Table(cols.value, [])])
        else Failure(BadColumnName)
    case InsertMany(t, ph, rows) =>
      if rows == [] then Success(db)
      else if t !in db then Failure(NoSuchTable)
      else if CountPercent(ph) != |db[t].columns| || exists i :: 0 <= i < |rows| && |rows[i]| != CountPercent(ph) then
        Failure(WrongArity)
      else if exists i :: 0 <= i < |rows| && !RowStorable(db[t].columns, rows[i], cv) then
        Failure(ValueRefused)
      else
        var stored := seq(|rows|, i requires 0 <= i < |rows| => StoreRow(db[t].columns, rows[i], cv));
        Success(db[t := Table(db[t].columns, db[t].rows + stored)])
  }

  /** Where a statement sequence left the server, and the error that
      stopped it, if any. The statements are DDL or end in the commit, so
      every statement that completed stays done. */
  datatype Ran = Ran(db: Server, error: Option<LoadError>)

  function ExecAll(db: Server, ss: seq<Stmt>, cv: Coercion): Ran
    decreases |ss|
  {
    if ss == [] then Ran(db, None)
    else
      match Exec(db, ss[0], cv)
      case Failure(e) => Ran(db, Some(e))
      case Success(db1) => ExecAll(db1, ss[1..], cv)
  }

  /** A CSV file as read: column names with dtypes, and rows of cells. */
  datatype Csv = Csv(columns: seq<(string, DType)>, rows: seq<seq<Cell>>)

  /** Every row has one cell per column, of the kind its dtype allows. */
  predicate CsvWf(csv: Csv) {
    forall i :: 0 <= i < |csv.rows| ==>
      |csv.rows[i]| == |csv.columns| &&
      forall j :: 0 <= j < |csv.columns| ==> CellKind(csv.columns[j].1, csv.rows[i][j])
  }

  /** Every cell of the CSV is a value the column at its position stores. */
  predicate CellsStorable(cols: seq<(string, SqlType)>, csv: Csv, cv: Coercion) {
    forall i, j :: 0 <= i < |csv.rows| && 0 <= j < |cols| && j < |csv.rows[i]| ==>
      StoreValue(cols[j].1, ToParam(csv.rows[i][j]), cv).Some?
  }

  /** One parameter tuple per CSV row. */
  function CsvParams(csv: Csv): (ps: seq<seq<Param>>)
    ensures |ps| == |csv.rows|
    ensures forall i :: 0 <= i < |csv.rows| ==> ps[i] == RowParams(csv.rows[i])
  {
    seq(|csv.rows|, i requires 0 <= i < |csv.rows| => RowParams(csv.rows[i]))
  }

  /** The statements for one load: drop, create, insert every row. */
  function Script(table: string, csv: Csv): seq<Stmt> {
    [ DropIfExists(table),
      Create(table, ColumnsText(csv.columns)),
      InsertMany(table, Placeholders(|csv.columns|), CsvParams(csv)) ]
  }

  /** `ingest_data`: a missing file fails before any statement; otherwise
      the script runs on the server. */
  function IngestCsv(db: Server, path: string, table: string, fileExists: bool, csv: Csv, cv: Coercion): (r: Ran)
    ensures !fileExists ==> r == Ran(db, Some(FileNotFound("Data file not found at " + path)))
  {
    if !fileExists then Ran(db, Some(FileNotFound("Data file not found at " + path)))
    else ExecAll(db, Script(table, csv), cv)
  }

  /** What the insert step leaves when run on `db2`, whose `table` was just
      created with columns `cols`: with no rows, the empty table; with a
      column count other than the CSV's, the empty table and an arity
      error; with a refused value, the empty table and that error;
      otherwise one stored row per CSV row, each value as its column stores
      it, and every other table as it was. */
  predicate InsertLeaves(r: Ran, db2: Server, table: string, cols: seq<(string, SqlType)>, csv: Csv, cv: Coercion) {
    if csv.rows == [] then r == Ran(db2, None)
    else if |cols| != |csv.columns| then r == Ran(db2, Some(WrongArity))
    else if !CellsStorable(cols, csv, cv) then r == Ran(db2, Some(ValueRefused))
    else
      && r.error.None? && r.db.Keys == db2.Keys
      && (forall t :: t in db2 && t != table ==> r.db[t] == db2[t])
      && table in r.db && r.db[table].columns == cols && |r.db[table].rows| == |csv.rows|
      && (forall i :: 0 <= i < |csv.rows| ==> |r.db[table].rows[i]| == |cols| == |csv.rows[i]|)
      && forall i, j :: 0 <= i < |csv.rows| && 0 <= j < |cols| && |r.db[table].rows[i]| == |cols| == |csv.rows[i]| ==>
           Some(r.db[table].rows[i][j]) == StoreValue(cols[j].1, ToParam(csv.rows[i][j]), cv)
  }

  /** The outcomes of a load with the file present, for the columns `p` the
      server reads from the generated column list. Any table of that name
      is dropped first. A list that does not parse, or names it refuses,
      leave no table; otherwise the table is created with the columns read
      and the insert step runs on it. */
  lemma {:induction false} IngestCsvOutcome(db: Server, path: string, table: string, csv: Csv, cv: Coercion)
    requires CsvWf(csv)
    ensures var r := IngestCsv(db, path, table, true, csv, cv);
            var p := ParseColumnList(ColumnsText(csv.columns));
            && (p.None? ==> r == Ran(db - {table}, Some(BadDefinition)))
            && (p.Some? && !ColumnsAccepted(Firsts(p.value)) ==> r == Ran(db - {table}, Some(BadColumnName)))
    ensures var r := IngestCsv(db, path, table, true, csv, cv);
            var p := ParseColumnList(ColumnsText(csv.columns));
            p.Some? && ColumnsAccepted(Firsts(p.value)) ==>
              InsertLeaves(r, (db - {table})[table := Table(p.value, [])], table, p.value, csv, cv)
  {
    var ss := Script(table, csv);
    var db1 := db - {table};
    assert Exec(db, ss[0], cv) == Success(db1);
    assert IngestCsv(db, path, table, true, csv, cv) == ExecAll(db1, ss[1..], cv);
    var p := ParseColumnList(ColumnsText(csv.columns));
    if p.None? {
      assert Exec(db1, ss[1], cv) == Failure(BadDefinition);
    } else if !ColumnsAccepted(Firsts(p.value)) {
      assert Exec(db1, ss[1], cv) == Failure(BadColumnName);
    } else {
      var db2 := db1[table := Table(p.value, [])];
      assert Exec(db1, ss[1], cv) == Success(db2);
      assert IngestCsv(db, path, table, true, csv, cv) == ExecAll(db2, [ss[2]], cv) by {
        assert ss[1..][1..] == [ss[2]];
      }
      InsertStep(db2, table, p.value, csv, cv);
    }
  }

  /** Every tuple is storable in the columns iff every cell is. */
  lemma TuplesStorable(cols: seq<(string, SqlType)>, csv: Csv, cv: Coercion)
    requires CsvWf(csv) && |cols| == |csv.columns|
    ensures (forall i :: 0 <= i < |csv.rows| ==> RowStorable(cols, CsvParams(csv)[i], cv)) <==>
            CellsStorable(cols, csv, cv)
  {
    if !CellsStorable(cols, csv, cv) {
      var i, j :| 0 <= i < |csv.rows| && 0 <= j < |cols| && j < |csv.rows[i]| &&
                  StoreValue(cols[j].1, ToParam(csv.rows[i][j]), cv).None?;
      assert !RowStorable(cols, CsvParams(csv)[i], cv);
    }
  }

  /** The insert step of a load into a freshly created, empty table. */
  lemma InsertStep(db2: Server, table: string, cols: seq<(string, SqlType)>, csv: Csv, cv: Coercion)
    requires CsvWf(csv) && table in db2 && db2[table] == Table(cols, [])
    ensures InsertLeaves(ExecAll(db2, [InsertMany(table, Placeholders(|csv.columns|), CsvParams(csv))], cv),
                         db2, table, cols, csv, cv)
  {
    var st := InsertMany(table, Placeholders(|csv.columns|), CsvParams(csv));
    assert [st][1..] == [];
    PlaceholderCount(|csv.columns|);
    var e := Exec(db2, st, cv);
    if csv.rows == [] {
      assert e == Success(db2);
    } else if |cols| != |csv.columns| {
      assert e == Failure(WrongArity);
    } else {
      TuplesStorable(cols, csv, cv);
      if CellsStorable(cols, csv, cv) {
        assert e.Success?;
        var r := e.value;
        forall i, j | 0 <= i < |csv.rows| && 0 <= j < |cols|
          ensures Some(r[table].rows[i][j]) == StoreValue(cols[j].1, ToParam(csv.rows[i][j]), cv) {
          assert r[table].rows[i] == StoreRow(cols, CsvParams(csv)[i], cv);
        }
        assert ExecAll(db2, [st], cv) == Ran(r, None);
      } else {
        assert e == Failure(ValueRefused);
      }
    }
  }

  /** For headers in which every back-quote is doubled (in particular,
      headers without one), the table's columns are the names the headers
      denote with their mapped types. The load then succeeds iff those
      names are accepted and every cell is storable in its column; on
      success the table holds one row per CSV row, each value as its column
      stores it; a refused name leaves no table, a refused value an empty
      one; and no other table changes. */
  lemma IngestCsvDenoted(db: Server, path: string, table: string, csv: Csv, cv: Coercion)
    requires CsvWf(csv)
    requires forall i :: 0 <= i < |csv.columns| ==> Unescape(csv.columns[i].0).Some?
    ensures var r := IngestCsv(db, path, table, true, csv, cv);
            var cols := Denoted(csv.columns);
            && (r.error.None? <==> ColumnsAccepted(Firsts(cols)) && CellsStorable(cols, csv, cv))
            && (!ColumnsAccepted(Firsts(cols)) ==> r.db == db - {table})
            && (ColumnsAccepted(Firsts(cols)) && !CellsStorable(cols, csv, cv) ==>
                  r.db == (db - {table})[table := Table(cols, [])])
            && (r.error.None? ==>
                  table in r.db && r.db[table].columns == cols && |r.db[table].rows| == |csv.rows| &&
                  forall i, j :: 0 <= i < |csv.rows| && 0 <= j < |csv.columns| && |r.db[table].rows[i]| == |csv.columns| ==>
                    Some(r.db[table].rows[i][j]) == StoreValue(SqlTypeOf(csv.columns[j].1), ToParam(csv.rows[i][j]), cv))
    ensures var r := IngestCsv(db, path, table, true, csv, cv);
            forall t :: t != table ==> (t in r.db <==> t in db) && (t in db ==> r.db[t] == db[t])
  {
    ParseColumnsText(csv.columns);
    IngestCsvOutcome(db, path, table, csv, cv);
  }

  /** A header that closes its identifier and adds a definition creates a
      table of two columns, into which a one-cell row cannot go: the load
      stops with the new table empty. */
  lemma InjectedHeaderLeavesEmptyTable(db: Server, path: string, table: string,
                                       a: string, t: SqlType, b: string, d: DType, c: Cell, cv: Coercion)
    requires Unescape(a).Some? && Unescape(b).Some?
    requires ColumnsAccepted([Unescape(a).value, Unescape(b).value])
    requires CellKind(d, c)
    ensures var csv := Csv([(a + "` " + SqlTypeName(t) + ", `" + b, d)], [[c]]);
            IngestCsv(db, path, table, true, csv, cv) ==
              Ran((db - {table})[table := Table([(Unescape(a).value, t), (Unescape(b).value, SqlTypeOf(d))], [])],
                  Some(WrongArity))
  {
    var csv := Csv([(a + "` " + SqlTypeName(t) + ", `" + b, d)], [[c]]);
    InjectedHeader(a, t, b, d);
    var cols := [(Unescape(a).value, t), (Unescape(b).value, SqlTypeOf(d))];
    assert Firsts(cols) == [Unescape(a).value, Unescape(b).value];
    IngestCsvOutcome(db, path, table, csv, cv);
  }
}
