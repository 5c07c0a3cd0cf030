/** The cleaning stage: column names are normalised, each raw table is
    projected to the columns the later stages use, rows without service
    impact are dropped, the two subway code menus are merged, and the cleaned
    tables are validated.  Tables here are untyped frames, as read from the
    raw files: a header of column names and rows of cells. */
module CleanData {
  import opened Tables

  /** A cell of a frame: text, a number, or missing (NaN). */
  datatype Cell = Text(s: string) | Num(n: int) | Missing

  /** A data frame: column labels and rows of cells. */
  datatype Frame = Frame(columns: seq<string>, rows: seq<seq<Cell>>)

  /** Every row has one cell per column. */
  predicate Rectangular(f: Frame) {
    forall i :: 0 <= i < |f.rows| ==> |f.rows[i]| == |f.columns|
  }

  /** Why a cleaning run stops: a selected label that is absent (KeyError), a
      label that the renaming made ambiguous, a comparison of text with a number
      (TypeError), or a failed validation assert. */
  datatype CleanError =
    | MissingColumn(name: string)
    | DuplicateColumn(name: string)
    | NotComparable(name: string)
    | AssertionFailed(check: Check)

  /** The validation asserts at the end of the cleaning stage, in script order: seven
      days, non-negative delays, a text day column, numeric delay and gap columns. */
  datatype Check =
    | SubwayDays | BusDays | SubwayMinDelay | BusMinDelay | SubwayDayText | BusDayText
    | SubwayMinDelayNumeric | SubwayMinGapNumeric | BusMinDelayNumeric | BusMinGapNumeric

  const BusColumns: seq<string> := ["date", "time", "day", "incident", "min_delay", "min_gap"]
  const SubwayColumns: seq<string> := ["date", "time", "day", "code", "min_delay", "min_gap", "line"]
  const CodeColumns: seq<string> := ["code", "code_description"]
  const SubMenuColumns: seq<string> := ["sub_rmenu_code", "code_description"]
  const SrtMenuColumns: seq<string> := ["srt_rmenu_code", "code_description.1"]
  const CodeSheetColumns: seq<string> := SubMenuColumns + SrtMenuColumns

  // ---------------------------------------------------------------------------
  // Column-name normaliser: strip, then lower-case, then ' ' -> '_'

  /** Python's whitespace (what `str.strip()` removes). */
  predicate IsSpace(c: char) {
    c == ' ' || ('\t' <= c <= '\r') || ('\U{1C}' <= c <= '\U{1F}') ||
    c == '\U{85}' || c == '\U{A0}' || c == '\U{1680}' || ('\U{2000}' <= c <= '\U{200A}') ||
    c == '\U{2028}' || c == '\U{2029}' || c == '\U{202F}' || c == '\U{205F}' || c == '\U{3000}'
  }

  predicate IsUpper(c: char) { 'A' <= c <= 'Z' }

  function TrimStart(s: string): (r: string)
    ensures |r| <= |s| && r == s[|s| - |r|..]
    ensures r == [] || !IsSpace(r[0])
    ensures forall i :: 0 <= i < |s| - |r| ==> IsSpace(s[i])
  {
    if s != [] && IsSpace(s[0]) then TrimStart(s[1..]) else s
  }

  function TrimEnd(s: string): (r: string)
    ensures |r| <= |s| && r == s[..|r|]
    ensures r == [] || !IsSpace(r[|r| - 1])
    ensures forall i :: |r| <= i < |s| ==> IsSpace(s[i])
  {
    if s != [] && IsSpace(s[|s| - 1]) then TrimEnd(s[..|s| - 1]) else s
  }

  /** `str.strip()`: drop whitespace at both ends. */
  function Strip(s: string): string {
    TrimEnd(TrimStart(s))
  }

  function LowerChar(c: char): char {
    if IsUpper(c) then (c as int + 32) as char else c
  }

  /** `str.lower()` on the ASCII letters. */
  function Lower(s: string): string {
    seq(|s|, i requires 0 <= i < |s| => LowerChar(s[i]))
  }

  /** `str.replace(" ", "_")`. */
  function Underscore(s: string): string {
    seq(|s|, i requires 0 <= i < |s| => if s[i] == ' ' then '_' else s[i])
  }

  /** The renaming applied to every column label of every raw table. */
  function NormaliseName(name: string): (r: string)
    ensures |r| == |Strip(name)|
    ensures forall i :: 0 <= i < |r| ==> r[i] == NormaliseChar(Strip(name)[i])
  {
    Underscore(Lower(Strip(name)))
  }

  /** One character of a label after lower-casing and the blank replacement. */
  function NormaliseChar(c: char): char {
    if LowerChar(c) == ' ' then '_' else LowerChar(c)
  }

  lemma NormaliseCharShape(c: char)
    ensures NormaliseChar(c) != ' ' && !IsUpper(NormaliseChar(c))
    ensures !IsSpace(c) ==> !IsSpace(NormaliseChar(c))
  {
  }

  /** A normalised label has no blank, no upper-case letter and no whitespace at either end. */
  lemma NormaliseNameShape(name: string)
    ensures var r := NormaliseName(name);
      |r| <= |name| &&
      (forall i :: 0 <= i < |r| ==> r[i] != ' ' && !IsUpper(r[i])) &&
      (r == [] || (!IsSpace(r[0]) && !IsSpace(r[|r| - 1])))
  {
    var s := Strip(name);
    var r := NormaliseName(name);
    assert |r| == |s| <= |name|;
    forall i | 0 <= i < |r| ensures r[i] == NormaliseChar(s[i]) {
    }
    forall i | 0 <= i < |r| ensures r[i] != ' ' && !IsUpper(r[i]) {
      NormaliseCharShape(s[i]);
    }
    if r != [] {
      NormaliseCharShape(s[0]);
      NormaliseCharShape(s[|s| - 1]);
    }
  }

  lemma StripUnchanged(s: string)
    requires s == [] || (!IsSpace(s[0]) && !IsSpace(s[|s| - 1]))
    ensures Strip(s) == s
  {
  }

  /** Normalising a label that is already normal changes nothing. */
  lemma {:induction false} NormaliseNameIdempotent(name: string)
    ensures NormaliseName(NormaliseName(name)) == NormaliseName(name)
  {
    var n := NormaliseName(name);
    NormaliseNameShape(name);
    StripUnchanged(n);
    assert Lower(n) == n;
    assert Underscore(n) == n;
  }

  /** `frame.rename(columns=normalise)`: every label normalised, cells untouched. */
  function NormaliseNames(f: Frame): (g: Frame)
    ensures |g.columns| == |f.columns| && g.rows == f.rows
    ensures forall c :: 0 <= c < |f.columns| ==> g.columns[c] == NormaliseName(f.columns[c])
  {
    Frame(seq(|f.columns|, c requires 0 <= c < |f.columns| => NormaliseName(f.columns[c])), f.rows)
  }

  // ---------------------------------------------------------------------------
  // Projection

  /** The label occurs exactly once in the header. */
  predicate Unique(f: Frame, name: string) {
    multiset(f.columns)[name] == 1
  }

  /** Every listed label occurs exactly once in the header, as a selection needs. */
  predicate HasColumns(f: Frame, names: seq<string>) {
    forall n :: n in names ==> n in f.columns && Unique(f, n)
  }

  /** Position of a label that occurs in `cols`. */
  function IndexOf(cols: seq<string>, name: string): (i: nat)
    requires name in cols
    ensures i < |cols| && cols[i] == name
    ensures forall k :: 0 <= k < i ==> cols[k] != name
  {
    if cols[0] == name then 0 else 1 + IndexOf(cols[1..], name)
  }

  /** In a header without repeated labels, a label's position is where it stands. */
  lemma IndexOfAt(cols: seq<string>, c: nat)
    requires c < |cols| && NoDuplicates(cols)
    ensures IndexOf(cols, cols[c]) == c
  {
  }

  /** The first name of `names` that is absent from `cols`. */
  function FirstAbsent(names: seq<string>, cols: seq<string>): (r: Option<string>)
    ensures r.None? <==> forall n :: n in names ==> n in cols
    ensures r.Some? ==> r.value in names && r.value !in cols
  {
    if names == [] then None
    else if names[0] !in cols then Some(names[0])
    else FirstAbsent(names[1..], cols)
  }

  function FirstRepeated(names: seq<string>, cols: seq<string>): (r: Option<string>)
    ensures r.None? <==> forall n :: n in names ==> multiset(cols)[n] <= 1
    ensures r.Some? ==> r.value in names && multiset(cols)[r.value] > 1
  {
    if names == [] then None
    else if multiset(cols)[names[0]] > 1 then Some(names[0])
    else FirstRepeated(names[1..], cols)
  }

  /** A selection error that names a listed label absent from, or repeated in, the header. */
  predicate LabelError(e: CleanError, f: Frame, names: seq<string>) {
    (e.MissingColumn? && e.name in names && e.name !in f.columns) ||
    (e.DuplicateColumn? && e.name in names && multiset(f.columns)[e.name] > 1)
  }

  /** The cells of the listed columns, in the listed order, for every row. */
  function ProjectRows(f: Frame, names: seq<string>): (rows: seq<seq<Cell>>)
    requires Rectangular(f) && HasColumns(f, names)
    ensures |rows| == |f.rows|
    ensures forall i :: 0 <= i < |f.rows| ==> |rows[i]| == |names|
    ensures forall i, j :: 0 <= i < |f.rows| && 0 <= j < |names| ==>
      rows[i][j] == f.rows[i][IndexOf(f.columns, names[j])]
  {
    seq(|f.rows|, i requires 0 <= i < |f.rows| =>
      seq(|names|, j requires 0 <= j < |names| => f.rows[i][IndexOf(f.columns, names[j])]))
  }

  /** `frame[names]`: exactly the listed columns, in the listed order, for every row.  An
      absent label is a KeyError naming it; a label the renaming made ambiguous fails too. */
  function Select(f: Frame, names: seq<string>): (r: Result<Frame, CleanError>)
    requires Rectangular(f)
    ensures r.Success? <==> HasColumns(f, names)
    ensures r.Failure? ==> r.error.MissingColumn? || r.error.DuplicateColumn?
    ensures r.Failure? && r.error.MissingColumn? ==>
      r.error.name in names && r.error.name !in f.columns
    ensures r.Failure? && r.error.DuplicateColumn? ==>
      r.error.name in names && multiset(f.columns)[r.error.name] > 1
    ensures r.Success? ==>
      r.value.columns == names && |r.value.rows| == |f.rows| && Rectangular(r.value)
    ensures r.Success? ==> forall i, j :: 0 <= i < |f.rows| && 0 <= j < |names| ==>
      r.value.rows[i][j] == f.rows[i][IndexOf(f.columns, names[j])]
  {
    match FirstAbsent(names, f.columns)
    case Some(n) => Failure(MissingColumn(n))
    case None =>
      match FirstRepeated(names, f.columns)
      case Some(n) => Failure(DuplicateColumn(n))
      case None => Success(Frame(names, ProjectRows(f, names)))
  }

  /** A selection yields the projected rows. */
  lemma SelectRows(f: Frame, names: seq<string>)
    requires Rectangular(f) && HasColumns(f, names)
    ensures Select(f, names) == Success(Frame(names, ProjectRows(f, names)))
  {
    var s := Select(f, names).value;
    assert |s.rows| == |f.rows|;
    forall i | 0 <= i < |f.rows| ensures s.rows[i] == ProjectRows(f, names)[i] {
      assert |s.rows[i]| == |names|;
    }
  }

  // ---------------------------------------------------------------------------
  // Row filters

  /** The mask `frame[col] > 0` on one cell: a missing cell compares false. */
  predicate Positive(cell: Cell) {
    cell.Num? && cell.n > 0
  }

  /** The mask of one row: its cell in column `c` is a positive number. */
  predicate PositiveAt(row: seq<Cell>, c: nat) {
    c < |row| && Positive(row[c])
  }

  function PositiveIn(c: nat): seq<Cell> -> bool {
    row => PositiveAt(row, c)
  }

  /** The cell of the row in column `c` is text. */
  predicate TextAt(row: seq<Cell>, c: nat) {
    c < |row| && row[c].Text?
  }

  /** `frame[frame[name] > 0]`: the rows whose cell in column `name` is a positive number,
      in their original order.  Text in that column makes the comparison fail. */
  function FilterPositive(f: Frame, name: string): (r: Result<Frame, CleanError>)
    requires Rectangular(f)
    requires name in f.columns
    ensures var c := IndexOf(f.columns, name);
      r.Failure? <==> exists row :: row in f.rows && TextAt(row, c)
    ensures r.Failure? ==> r.error == NotComparable(name)
    ensures r.Success? ==> r.value.columns == f.columns && Rectangular(r.value)
    ensures r.Success? ==> IsSubsequence(r.value.rows, f.rows)
    ensures r.Success? ==> var c := IndexOf(f.columns, name);
      forall row :: row in r.value.rows <==> row in f.rows && PositiveAt(row, c)
    ensures r.Success? ==> var c := IndexOf(f.columns, name);
      forall row :: PositiveAt(row, c) ==> multiset(r.value.rows)[row] == multiset(f.rows)[row]
    ensures r.Success? ==> r.value.rows == Filter(PositiveIn(IndexOf(f.columns, name)), f.rows)
  {
    var c := IndexOf(f.columns, name);
    if exists row :: row in f.rows && TextAt(row, c) then Failure(NotComparable(name))
    else
      var kept := Filter(PositiveIn(c), f.rows);
      assert forall i :: 0 <= i < |kept| ==> kept[i] in f.rows;
      Success(Frame(f.columns, kept))
  }

  // ---------------------------------------------------------------------------
  // Per-table cleaning

  lemma BusMinGapAt()
    ensures IndexOf(BusColumns, "min_gap") == 5
  {
    IndexOfAt(BusColumns, 5);
  }

  /** The bus table: the raw rows projected onto the bus columns under their normalised
      labels, keeping in order those with a positive `min_gap`.  It fails when a bus label
      is absent or repeated, or when `min_gap` holds text. */
  function CleanBus(raw: Frame): (r: Result<Frame, CleanError>)
    requires Rectangular(raw)
    ensures var named := NormaliseNames(raw);
      r.Success? <==> (HasColumns(named, BusColumns) &&
        forall row :: row in ProjectRows(named, BusColumns) ==> !TextAt(row, 5))
    ensures var named := NormaliseNames(raw);
      r.Failure? ==> if HasColumns(named, BusColumns) then r.error == NotComparable("min_gap")
        else LabelError(r.error, named, BusColumns)
    ensures r.Success? ==> r.value.columns == BusColumns && Rectangular(r.value)
    ensures r.Success? ==>
      r.value.rows == Filter(PositiveIn(5), ProjectRows(NormaliseNames(raw), BusColumns))
  {
    var named := NormaliseNames(raw);
    match Select(named, BusColumns)
    case Failure(e) => Failure(e)
    case Success(projected) =>
      SelectRows(named, BusColumns);
      BusMinGapAt();
      FilterPositive(projected, "min_gap")
  }

  /** The unfiltered subway table: every raw row projected onto the subway columns under
      their normalised labels.  It fails when a subway label is absent or repeated. */
  function CleanSubway(raw: Frame): (r: Result<Frame, CleanError>)
    requires Rectangular(raw)
    ensures r.Success? <==> HasColumns(NormaliseNames(raw), SubwayColumns)
    ensures r.Failure? ==> LabelError(r.error, NormaliseNames(raw), SubwayColumns)
    ensures r.Success? ==> r.value.columns == SubwayColumns && Rectangular(r.value)
    ensures r.Success? ==> r.value.rows == ProjectRows(NormaliseNames(raw), SubwayColumns)
  {
    var named := NormaliseNames(raw);
    match Select(named, SubwayColumns)
    case Failure(e) => Failure(e)
    case Success(projected) =>
      SelectRows(named, SubwayColumns);
      Success(projected)
  }

  /** The filtered subway table: the rows of the unfiltered one with `min_delay > 0`, in
      order.  It fails when `min_delay` holds text. */
  function FilterSubway(subway: Frame): (r: Result<Frame, CleanError>)
    requires Rectangular(subway) && subway.columns == SubwayColumns
    ensures r.Failure? <==> exists row :: row in subway.rows && TextAt(row, 4)
    ensures r.Failure? ==> r.error == NotComparable("min_delay")
    ensures r.Success? ==> r.value.columns == SubwayColumns && Rectangular(r.value)
    ensures r.Success? ==> r.value.rows == Filter(PositiveIn(4), subway.rows)
  {
    IndexOfAt(SubwayColumns, 4);
    FilterPositive(subway, "min_delay")
  }

  // ---------------------------------------------------------------------------
  // Code table

  /** Number of rows whose cell in column `c` is present. */
  function PresentCount(rows: seq<seq<Cell>>, c: nat): nat {
    if rows == [] then 0
    else PresentCount(rows[..|rows| - 1], c) + if Present(rows[|rows| - 1], c) then 1 else 0
  }

  predicate Present(row: seq<Cell>, c: nat) {
    c < |row| && row[c] != Missing
  }

  lemma {:induction false} DropMissingLength(rows: seq<seq<Cell>>, c: nat)
    ensures |Filter((row: seq<Cell>) => Present(row, c), rows)| == PresentCount(rows, c)
  {
    if rows != [] {
      DropMissingLength(rows[..|rows| - 1], c);
    }
  }

  lemma {:induction false} PresentCountProjected(a: seq<seq<Cell>>, ca: nat, b: seq<seq<Cell>>, cb: nat)
    requires |a| == |b|
    requires forall i :: 0 <= i < |a| ==> Present(a[i], ca) == Present(b[i], cb)
    ensures PresentCount(a, ca) == PresentCount(b, cb)
  {
    if a != [] {
      PresentCountProjected(a[..|a| - 1], ca, b[..|b| - 1], cb);
    }
  }

  /** The cells of columns `a` and `b`, row by row. */
  function Pairs(codes: Frame, a: string, b: string): (p: seq<seq<Cell>>)
    requires Rectangular(codes) && a in codes.columns && b in codes.columns
    ensures |p| == |codes.rows|
  {
    var ca, cb := IndexOf(codes.columns, a), IndexOf(codes.columns, b);
    seq(|codes.rows|, i requires 0 <= i < |codes.rows| => [codes.rows[i][ca], codes.rows[i][cb]])
  }

  lemma PairProjection(codes: Frame, a: string, b: string, sel: Frame)
    requires Rectangular(codes)
    requires Select(codes, [a, b]) == Success(sel)
    ensures a in codes.columns && b in codes.columns && sel.rows == Pairs(codes, a, b)
  {
    assert a in [a, b] && b in [a, b];
    var ca, cb := IndexOf(codes.columns, a), IndexOf(codes.columns, b);
    forall i | 0 <= i < |codes.rows| ensures sel.rows[i] == [codes.rows[i][ca], codes.rows[i][cb]] {
      assert |sel.rows[i]| == 2;
      assert sel.rows[i][0] == codes.rows[i][ca];
      assert sel.rows[i][1] == codes.rows[i][cb];
    }
  }

  /** The merged code table, from the code sheet with normalised labels: the sub-menu
      codes with their descriptions, then the Scarborough RT codes with theirs, the latter
      without rows that lack a code. */
  function MergeCodes(codes: Frame): (r: Result<Frame, CleanError>)
    requires Rectangular(codes)
    ensures r.Success? <==>
      Unique(codes, "sub_rmenu_code") && Unique(codes, "code_description") &&
      Unique(codes, "srt_rmenu_code") && Unique(codes, "code_description.1")
    ensures r.Failure? ==> LabelError(r.error, codes, CodeSheetColumns)
    ensures r.Success? ==> r.value.columns == CodeColumns
  {
    SelectPair(codes, "sub_rmenu_code", "code_description");
    SelectPair(codes, "srt_rmenu_code", "code_description.1");
    match Select(codes, SubMenuColumns)
    case Failure(e) => Failure(e)
    case Success(sub) =>
      match Select(codes, SrtMenuColumns)
      case Failure(e) => Failure(e)
      case Success(srt) =>
        // both blocks are renamed to (code, code_description) before the concatenation
        Success(Frame(CodeColumns, sub.rows + Filter((row: seq<Cell>) => Present(row, 0), srt.rows)))
  }

  lemma SelectPair(f: Frame, a: string, b: string)
    requires Rectangular(f)
    ensures Select(f, [a, b]).Success? <==> Unique(f, a) && Unique(f, b)
  {
    assert a in [a, b] && b in [a, b];
  }

  /** The rows of the merged code table: all sub-menu rows first, in order, then the
      Scarborough RT rows that have a code, in order; so its length is the number of
      sheet rows plus the number of Scarborough RT codes present. */
  lemma MergeCodesRows(codes: Frame)
    requires Rectangular(codes) && MergeCodes(codes).Success?
    ensures "sub_rmenu_code" in codes.columns && "code_description" in codes.columns
    ensures "srt_rmenu_code" in codes.columns && "code_description.1" in codes.columns
    ensures var rows := MergeCodes(codes).value.rows;
      |rows| == |codes.rows| + PresentCount(codes.rows, IndexOf(codes.columns, "srt_rmenu_code")) &&
      rows[..|codes.rows|] == Pairs(codes, "sub_rmenu_code", "code_description") &&
      IsSubsequence(rows[|codes.rows|..], Pairs(codes, "srt_rmenu_code", "code_description.1")) &&
      forall k :: |codes.rows| <= k < |rows| ==> |rows[k]| == 2 && rows[k][0] != Missing
  {
    var sub := Select(codes, SubMenuColumns).value;
    var srt := Select(codes, SrtMenuColumns).value;
    var kept := Filter((row: seq<Cell>) => Present(row, 0), srt.rows);
    PairProjection(codes, "sub_rmenu_code", "code_description", sub);
    SrtBlock(codes, srt, kept);
    var rows := MergeCodes(codes).value.rows;
    assert rows == sub.rows + kept;
    assert rows[..|codes.rows|] == sub.rows;
    assert rows[|codes.rows|..] == kept;
  }

  /** What the Scarborough RT block of the merged table is, in terms of the code sheet. */
  lemma SrtBlock(codes: Frame, srt: Frame, kept: seq<seq<Cell>>)
    requires Rectangular(codes)
    requires Select(codes, SrtMenuColumns) == Success(srt)
    requires kept == Filter((row: seq<Cell>) => Present(row, 0), srt.rows)
    ensures "srt_rmenu_code" in codes.columns && "code_description.1" in codes.columns
    ensures |kept| == PresentCount(codes.rows, IndexOf(codes.columns, "srt_rmenu_code"))
    ensures IsSubsequence(kept, Pairs(codes, "srt_rmenu_code", "code_description.1"))
    ensures forall k :: 0 <= k < |kept| ==> |kept[k]| == 2 && kept[k][0] != Missing
  {
    PairProjection(codes, "srt_rmenu_code", "code_description.1", srt);
    var pairs := srt.rows;
    var code := IndexOf(codes.columns, "srt_rmenu_code");
    DropMissingLength(pairs, 0);
    PresentCountProjected(pairs, 0, codes.rows, code);
    forall k | 0 <= k < |kept| ensures |kept[k]| == 2 && kept[k][0] != Missing {
      assert kept[k] in pairs;
    }
  }

  lemma CodeSheetLabels(f: Frame)
    ensures HasColumns(f, CodeSheetColumns) <==>
      Unique(f, "sub_rmenu_code") && Unique(f, "code_description") &&
      Unique(f, "srt_rmenu_code") && Unique(f, "code_description.1")
  {
    assert CodeSheetColumns == ["sub_rmenu_code", "code_description", "srt_rmenu_code", "code_description.1"];
  }

  /** The code sheet: normalised labels, then the two menus merged.  It fails unless each
      of the four menu labels occurs exactly once. */
  function CleanCodes(raw: Frame): (r: Result<Frame, CleanError>)
    requires Rectangular(raw)
    ensures r.Success? <==> HasColumns(NormaliseNames(raw), CodeSheetColumns)
    ensures r.Failure? ==> LabelError(r.error, NormaliseNames(raw), CodeSheetColumns)
    ensures r.Success? ==> r.value.columns == CodeColumns
  {
    CodeSheetLabels(NormaliseNames(raw));
    MergeCodes(NormaliseNames(raw))
  }

  // ---------------------------------------------------------------------------
  // Validation and the whole stage

  /** The cells of column `c`, a row too short for it giving a missing cell. */
  function ColumnCells(rows: seq<seq<Cell>>, c: nat): (cells: seq<Cell>)
    ensures |cells| == |rows|
    ensures forall i :: 0 <= i < |rows| && c < |rows[i]| ==> cells[i] == rows[i][c]
  {
    seq(|rows|, i requires 0 <= i < |rows| => if c < |rows[i]| then rows[i][c] else Missing)
  }

  /** `series.nunique()`: the distinct values, missing ones not counted. */
  function DistinctValues(cells: seq<Cell>): set<Cell> {
    set x | x in cells && x != Missing
  }

  /** `series.min() >= 0`: the minimum skips missing cells; it is NaN (and the comparison
      false) when no number is present, and comparing text with 0 is an error. */
  predicate MinAtLeastZero(cells: seq<Cell>) {
    (exists x :: x in cells && x.Num?) &&
    (forall x :: x in cells ==> !x.Text?) &&
    (forall x :: x in cells && x.Num? ==> x.n >= 0)
  }

  /** `dtype == "object"` of a column read from a text file: it holds some text (a column
      of numbers and missing cells is read as a numeric one). */
  predicate ObjectColumn(cells: seq<Cell>) {
    exists x :: x in cells && x.Text?
  }

  /** `is_numeric_dtype`: no cell of the column is text. */
  predicate NumericColumn(cells: seq<Cell>) {
    forall x :: x in cells ==> !x.Text?
  }

  /** What one validation assert checks on the rows of the unfiltered subway table and of
      the bus table. */
  predicate Holds(check: Check, subway: seq<seq<Cell>>, bus: seq<seq<Cell>>) {
    match check
    case SubwayDays => |DistinctValues(ColumnCells(subway, 2))| == 7
    case BusDays => |DistinctValues(ColumnCells(bus, 2))| == 7
    case SubwayMinDelay => MinAtLeastZero(ColumnCells(subway, 4))
    case BusMinDelay => MinAtLeastZero(ColumnCells(bus, 4))
    case SubwayDayText => ObjectColumn(ColumnCells(subway, 2))
    case BusDayText => ObjectColumn(ColumnCells(bus, 2))
    case SubwayMinDelayNumeric => NumericColumn(ColumnCells(subway, 4))
    case SubwayMinGapNumeric => NumericColumn(ColumnCells(subway, 5))
    case BusMinDelayNumeric => NumericColumn(ColumnCells(bus, 4))
    case BusMinGapNumeric => NumericColumn(ColumnCells(bus, 5))
  }

  /** The position of an assert in the script: they run, and stop the run, in this order. */
  function CheckOrder(check: Check): nat {
    match check
    case SubwayDays => 0
    case BusDays => 1
    case SubwayMinDelay => 2
    case BusMinDelay => 3
    case SubwayDayText => 4
    case BusDayText => 5
    case SubwayMinDelayNumeric => 6
    case SubwayMinGapNumeric => 7
    case BusMinDelayNumeric => 8
    case BusMinGapNumeric => 9
  }

  /** Every validation assert holds on the rows of the unfiltered subway table and of the
      bus table (columns as in `SubwayColumns` and `BusColumns`). */
  predicate Validated(subway: seq<seq<Cell>>, bus: seq<seq<Cell>>) {
    Holds(SubwayDays, subway, bus) && Holds(BusDays, subway, bus) &&
    Holds(SubwayMinDelay, subway, bus) && Holds(BusMinDelay, subway, bus) &&
    Holds(SubwayDayText, subway, bus) && Holds(BusDayText, subway, bus) &&
    Holds(SubwayMinDelayNumeric, subway, bus) && Holds(SubwayMinGapNumeric, subway, bus) &&
    Holds(BusMinDelayNumeric, subway, bus) && Holds(BusMinGapNumeric, subway, bus)
  }

  /** The first validation assert, in script order, that fails on the cleaned subway and
      bus tables. */
  function FirstFailedCheck(subway: seq<seq<Cell>>, bus: seq<seq<Cell>>): (r: Option<Check>)
    ensures r.None? <==> Validated(subway, bus)
    ensures r.Some? ==> !Holds(r.value, subway, bus)
    ensures r.Some? ==> forall k :: CheckOrder(k) < CheckOrder(r.value) ==> Holds(k, subway, bus)
  {
    if !Holds(SubwayDays, subway, bus) then Some(SubwayDays)
    else if !Holds(BusDays, subway, bus) then Some(BusDays)
    else if !Holds(SubwayMinDelay, subway, bus) then Some(SubwayMinDelay)
    else if !Holds(BusMinDelay, subway, bus) then Some(BusMinDelay)
    else if !Holds(SubwayDayText, subway, bus) then Some(SubwayDayText)
    else if !Holds(BusDayText, subway, bus) then Some(BusDayText)
    else if !Holds(SubwayMinDelayNumeric, subway, bus) then Some(SubwayMinDelayNumeric)
    else if !Holds(SubwayMinGapNumeric, subway, bus) then Some(SubwayMinGapNumeric)
    else if !Holds(BusMinDelayNumeric, subway, bus) then Some(BusMinDelayNumeric)
    else if !Holds(BusMinGapNumeric, subway, bus) then Some(BusMinGapNumeric)
    else None
  }

  /** Once the minimum asserts pass, the `min_delay` columns hold no text, so their dtype
      asserts cannot fail; a bus table whose rows all have a positive `min_gap` passes the
      `min_gap` dtype assert too. */
  lemma NumericChecksThatCannotFail(subway: seq<seq<Cell>>, bus: seq<seq<Cell>>)
    ensures FirstFailedCheck(subway, bus) != Some(SubwayMinDelayNumeric)
    ensures FirstFailedCheck(subway, bus) != Some(BusMinDelayNumeric)
    ensures (forall row :: row in bus ==> PositiveAt(row, 5)) ==>
      FirstFailedCheck(subway, bus) != Some(BusMinGapNumeric)
  {
    if forall row :: row in bus ==> PositiveAt(row, 5) {
      var gaps := ColumnCells(bus, 5);
      forall x | x in gaps ensures !x.Text? {
        var i :| 0 <= i < |gaps| && gaps[i] == x;
        assert PositiveAt(bus[i], 5);
      }
    }
  }

  /** The tables the cleaning stage writes. */
  datatype Cleaned = Cleaned(bus: Frame, subway: Frame, filteredSubway: Frame, codes: Frame)

  /** The validation asserts on the cleaned tables: the first one that fails stops the run.
      The `min_delay` dtype asserts never fail, and the bus `min_gap` one cannot fail once
      every bus row has a positive `min_gap`. */
  function Validate(c: Cleaned): (r: Result<Cleaned, CleanError>)
    ensures r.Success? <==> Validated(c.subway.rows, c.bus.rows)
    ensures r.Success? ==> r.value == c
    ensures r.Failure? ==> r.error.AssertionFailed? && !Holds(r.error.check, c.subway.rows, c.bus.rows)
    ensures r.Failure? ==> forall k :: CheckOrder(k) < CheckOrder(r.error.check) ==>
      Holds(k, c.subway.rows, c.bus.rows)
    ensures r.Failure? ==> r.error.check != SubwayMinDelayNumeric && r.error.check != BusMinDelayNumeric
    ensures r.Failure? && (forall row :: row in c.bus.rows ==> PositiveAt(row, 5)) ==>
      r.error.check != BusMinGapNumeric
  {
    match FirstFailedCheck(c.subway.rows, c.bus.rows)
    case Some(check) =>
      NumericChecksThatCannotFail(c.subway.rows, c.bus.rows);
      Failure(AssertionFailed(check))
    case None => Success(c)
  }

  /** The cleaning stage end to end, stopping at the first error as the script does.  A
      successful run passed every validation assert. */
  function CleanAll(rawBus: Frame, rawSubway: Frame, rawCodes: Frame): (r: Result<Cleaned, CleanError>)
    requires Rectangular(rawBus) && Rectangular(rawSubway) && Rectangular(rawCodes)
    ensures r.Success? ==> Validated(r.value.subway.rows, r.value.bus.rows)
  {
    match CleanBus(rawBus)
    case Failure(e) => Failure(e)
    case Success(bus) =>
      match CleanSubway(rawSubway)
      case Failure(e) => Failure(e)
      case Success(subway) =>
        match FilterSubway(subway)
        case Failure(e) => Failure(e)
        case Success(filtered) =>
          match CleanCodes(rawCodes)
          case Failure(e) => Failure(e)
          case Success(codes) =>
            Validate(Cleaned(bus, subway, filtered, codes))
  }

  /** Three dtype asserts can never stop the run: the two on `min_delay`, and the bus
      `min_gap` one, since every kept bus row has a positive `min_gap`. */
  lemma CleanAllDtypeFailures(rawBus: Frame, rawSubway: Frame, rawCodes: Frame)
    requires Rectangular(rawBus) && Rectangular(rawSubway) && Rectangular(rawCodes)
    ensures var r := CleanAll(rawBus, rawSubway, rawCodes);
      r.Failure? && r.error.AssertionFailed? ==>
        r.error.check != SubwayMinDelayNumeric && r.error.check != BusMinDelayNumeric &&
        r.error.check != BusMinGapNumeric
  {
    var r := CleanAll(rawBus, rawSubway, rawCodes);
    if CleanBus(rawBus).Failure? {
      assert r == Failure(CleanBus(rawBus).error);
    } else if CleanSubway(rawSubway).Failure? {
      assert r == Failure(CleanSubway(rawSubway).error);
    } else {
      var bus := CleanBus(rawBus).value;
      var subway := CleanSubway(rawSubway).value;
      if FilterSubway(subway).Failure? {
        assert r == Failure(FilterSubway(subway).error);
      } else if CleanCodes(rawCodes).Failure? {
        assert r == Failure(CleanCodes(rawCodes).error);
      } else {
        assert forall row :: row in bus.rows ==> PositiveAt(row, 5);
        var c := Cleaned(bus, subway, FilterSubway(subway).value, CleanCodes(rawCodes).value);
        assert r == Validate(c);
      }
    }
  }

  /** The tables of a successful run: the bus table is the projected raw bus rows with a
      positive `min_gap`, the subway table every projected raw subway row, the filtered
      one those with a positive `min_delay`, all in their original order. */
  lemma CleanAllTables(rawBus: Frame, rawSubway: Frame, rawCodes: Frame)
    requires Rectangular(rawBus) && Rectangular(rawSubway) && Rectangular(rawCodes)
    requires CleanAll(rawBus, rawSubway, rawCodes).Success?
    ensures var c := CleanAll(rawBus, rawSubway, rawCodes).value;
      HasColumns(NormaliseNames(rawBus), BusColumns) &&
      HasColumns(NormaliseNames(rawSubway), SubwayColumns) &&
      var bus := ProjectRows(NormaliseNames(rawBus), BusColumns);
      var subway := ProjectRows(NormaliseNames(rawSubway), SubwayColumns);
      c.bus == Frame(BusColumns, Filter(PositiveIn(5), bus)) &&
      c.subway == Frame(SubwayColumns, subway) &&
      c.filteredSubway == Frame(SubwayColumns, Filter(PositiveIn(4), subway)) &&
      c.codes == MergeCodes(NormaliseNames(rawCodes)).value
  {
    var bus := CleanBus(rawBus).value;
    var subway := CleanSubway(rawSubway).value;
    assert FilterSubway(subway).Success?;
    assert CleanCodes(rawCodes).Success?;
  }

  /** The run succeeds iff every label it selects occurs exactly once, the columns it
      compares with 0 hold no text, and the validation asserts hold on the cleaned tables. */
  lemma CleanAllSucceeds(rawBus: Frame, rawSubway: Frame, rawCodes: Frame)
    requires Rectangular(rawBus) && Rectangular(rawSubway) && Rectangular(rawCodes)
    ensures var bus, subway := NormaliseNames(rawBus), NormaliseNames(rawSubway);
      CleanAll(rawBus, rawSubway, rawCodes).Success? <==>
        HasColumns(bus, BusColumns) && HasColumns(subway, SubwayColumns) &&
        HasColumns(NormaliseNames(rawCodes), CodeSheetColumns) &&
        (forall row :: row in ProjectRows(bus, BusColumns) ==> !TextAt(row, 5)) &&
        (forall row :: row in ProjectRows(subway, SubwayColumns) ==> !TextAt(row, 4)) &&
        Validated(ProjectRows(subway, SubwayColumns), Filter(PositiveIn(5), ProjectRows(bus, BusColumns)))
  {
    var r := CleanAll(rawBus, rawSubway, rawCodes);
    if CleanBus(rawBus).Failure? || CleanSubway(rawSubway).Failure? {
      assert r.Failure?;
    } else {
      var bus := CleanBus(rawBus).value;
      var subway := CleanSubway(rawSubway).value;
      assert bus.rows == Filter(PositiveIn(5), ProjectRows(NormaliseNames(rawBus), BusColumns));
      assert subway.rows == ProjectRows(NormaliseNames(rawSubway), SubwayColumns);
      if FilterSubway(subway).Failure? || CleanCodes(rawCodes).Failure? {
        assert r.Failure?;
      } else {
        var c := Cleaned(bus, subway, FilterSubway(subway).value, CleanCodes(rawCodes).value);
        assert r == Validate(c);
      }
    }
  }

}
