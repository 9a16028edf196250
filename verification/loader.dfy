/**
 * The record loader of `parsefilt`: the file-suffix whitelist, dispatch on
 * the schema year, the two text layouts (fields picked by position after a
 * line is stripped and split on runs of two or more whitespace characters,
 * then numeric columns converted as pandas converts them), the 2015
 * spreadsheet derivation of `procxl`, and the filter that drops rows whose
 * Salary is not positive.
 */
module Loader {
  import opened Wrappers
  import opened Text

  /**
   * A cell of a column pandas tries to read as numbers: a number; NaN, for
   * a missing-value marker; or, when some cell of the column is not a
   * number, the cell's own text (pandas then keeps the whole column as text).
   */
  datatype Value = Num(v: real) | NaN | Str(s: string)

  /**
   * One employee record as the reader delivers it. `projSal` (projected
   * salary) is a column of the 2014 and 2015 layouts only.
   */
  datatype Record = Record(deptId: Value, descr: string, title: string, projSal: Option<Value>, salary: Value)

  /** A loaded row: a record whose Salary is a positive number. */
  datatype Row = Row(deptId: Value, descr: string, title: string, projSal: Option<Value>, salary: real)

  datatype LoadError =
    | UnsupportedFormat(suffix: string) // the suffix assertion fails
    | UnsupportedYear(year: int)        // ValueError('year must be 2013 or 2014')
    | Unreadable                        // the reader the year selects cannot read this content
    | MalformedRow(line: nat)           // a data line lacks a column the layout selects
    | NonNumericSalary                  // Salary read as text: `> 0` raises TypeError
    | NonNumericAmount                  // Annual Rate plus Overtime adds text to a number: TypeError

  /**
   * One spreadsheet row, narrowed to the columns `procxl` reads, with each
   * cell as pandas holds it: a number, NaN for a blank cell or a
   * missing-value marker, or text.
   */
  datatype SheetRow = SheetRow(deptId: Value, descr: string, jobTitle: string, annualRate: Value, overtime: Value)

  /** What the file holds, as the reader sees it: text lines, or spreadsheet rows. */
  datatype FileContent = TextLines(lines: seq<string>) | Spreadsheet(rows: seq<SheetRow>)

  // ---------------------------------------------------------------- file names

  predicate AllSlashes(s: string) {
    forall i :: 0 <= i < |s| ==> s[i] == '/'
  }

  function DropTrailingSlashes(p: string): (r: string)
    ensures |r| <= |p| && r == p[..|r|] && AllSlashes(p[|r|..])
    ensures r == [] || r[|r| - 1] != '/'
  {
    if p != [] && p[|p| - 1] == '/' then
      var r := DropTrailingSlashes(p[..|p| - 1]);
      assert p[|r|..] == p[..|p| - 1][|r|..] + ['/'];
      r
    else p
  }

  /** `s` holds nothing but `/` separators and `.` components, which pathlib ignores. */
  predicate OnlySeparators(s: string) {
    forall i :: 0 <= i < |s| ==>
      || s[i] == '/'
      || (s[i] == '.' && (i == 0 || s[i - 1] == '/') && (i == |s| - 1 || s[i + 1] == '/'))
  }

  /** `name` is a component of `path` starting at `j`, and only separators and `.` components follow it. */
  predicate NameAt(path: string, name: string, j: int) {
    && 0 <= j && j + |name| <= |path| && path[j..j + |name|] == name
    && (j == 0 || path[j - 1] == '/')
    && (j + |name| == |path| || path[j + |name|] == '/')
    && OnlySeparators(path[j + |name|..])
  }

  lemma SeparatorsThenDot(a: string, t: string)
    requires OnlySeparators(a) && AllSlashes(t)
    ensures OnlySeparators(a + "/." + t)
  {
    var s := a + "/." + t;
    forall i | 0 <= i < |s|
      ensures s[i] == '/' || (s[i] == '.' && (i == 0 || s[i - 1] == '/') && (i == |s| - 1 || s[i + 1] == '/'))
    {
      assert s[|a|] == '/' && s[|a| + 1] == '.';
      if i < |a| {
        assert s[i] == a[i];
        assert a[i] == '/' || (a[i] == '.' && (i == 0 || a[i - 1] == '/') && (i == |a| - 1 || a[i + 1] == '/'));
        if i > 0 { assert s[i - 1] == a[i - 1]; }
        if i + 1 < |a| { assert s[i + 1] == a[i + 1]; }
      } else if i == |a| {
      } else if i == |a| + 1 {
        assert s[i - 1] == '/';
        if i + 1 < |s| { assert s[i + 1] == t[0]; }
      } else if i > |a| + 1 {
        assert s[i] == t[i - |a| - 2] == '/';
      }
    }
  }

  lemma NameAtThenDot(a: string, name: string, j: int, t: string)
    requires NameAt(a, name, j) && AllSlashes(t)
    ensures NameAt(a + "/." + t, name, j)
  {
    var s := a + "/." + t;
    var e := j + |name|;
    assert s[j..e] == a[j..e];
    if j > 0 { assert s[j - 1] == a[j - 1]; }
    assert s[e] == '/' by {
      if e < |a| { assert s[e] == a[e]; }
    }
    SeparatorsThenDot(a[e..], t);
    assert s[e..] == a[e..] + "/." + t;
  }

  /**
   * `Path(path).name`: the last component of the path, ignoring trailing
   * separators and `.` components; empty when there is none.
   */
  function FileName(path: string): (name: string)
    ensures '/' !in name && name != "."
    ensures name == [] ==> OnlySeparators(path)
    ensures name != [] ==> exists j :: NameAt(path, name, j)
    decreases |path|
  {
    var p := DropTrailingSlashes(path);
    var t := path[|p|..];
    assert path == p + t;
    match LastIndexOf(p, '/')
    case None =>
      if p == "." then
        assert OnlySeparators(path) by {
          forall i | 0 <= i < |path| ensures path[i] == '/' || i == 0 {
            if i > 0 { assert path[i] == t[i - 1]; }
          }
          if |path| > 1 { assert path[1] == t[0]; }
        }
        ""
      else
        if p == [] then
          assert OnlySeparators(path) by {
            forall i | 0 <= i < |path| ensures path[i] == '/' {
              assert path[i] == t[i];
            }
          }
          ""
        else
          assert NameAt(path, p, 0) by {
            assert path[0..|p|] == p;
            if |p| < |path| { assert path[|p|] == t[0]; }
            assert path[|p|..] == t;
            assert OnlySeparators(t);
          }
          p
    case Some(k) =>
      assert k < |p| - 1;
      var last := p[k + 1..];
      if last == "." then
        var q := p[..k];
        assert p == q + "/.";
        assert path == q + "/." + t;
        var name := FileName(q);
        if name == [] then
          SeparatorsThenDot(q, t);
          name
        else
          var j :| NameAt(q, name, j);
          NameAtThenDot(q, name, j, t);
          name
      else
        assert NameAt(path, last, k + 1) by {
          assert path[k + 1..k + 1 + |last|] == last;
          assert path[k] == p[k] == '/';
          if |p| < |path| { assert path[|p|] == t[0]; }
          assert path[|p|..] == t;
          assert OnlySeparators(t);
        }
        last
  }

  /** pathlib ignores a trailing `.` component: `a.txt/.` names the file `a.txt`. */
  lemma TrailingDotComponent(p: string)
    requires p != [] && '/' !in p && p != "."
    ensures FileName(p + "/.") == p
  {
    var s := p + "/.";
    assert DropTrailingSlashes(s) == s;
    LastIndexOfAfter(p, '/', ".");
    assert s == p + ['/'] + ".";
    assert s[|p| + 1..] == ".";
    assert s[..|p|] == p;
    assert DropTrailingSlashes(p) == p;
    assert LastIndexOf(p, '/') == None;
  }

  /**
   * `Path.suffix`: from the last dot of the name on, provided that dot is
   * neither the first nor the last character of the name; otherwise empty.
   */
  function Suffix(name: string): (r: string)
    ensures r == [] || (2 <= |r| < |name| && r[0] == '.' && '.' !in r[1..] && name[|name| - |r|..] == r)
  {
    match LastIndexOf(name, '.')
    case None => ""
    case Some(i) => if 0 < i < |name| - 1 then name[i..] else ""
  }

  /** The suffix of a name made of a stem, a dot and an extension without dots is that dot and extension. */
  lemma SuffixOfExtension(stem: string, ext: string)
    requires stem != [] && ext != [] && '.' !in ext
    ensures Suffix(stem + "." + ext) == "." + ext
  {
    LastIndexOfAfter(stem, '.', ext);
    assert stem + "." + ext == stem + ['.'] + ext;
    assert (stem + ['.'] + ext)[|stem|..] == "." + ext;
  }

  /** The formats `parsefilt` accepts. */
  const AllowedSuffixes: set<string> := {".csv", ".txt", ".xls", ".xlsx"}

  predicate AllowedSuffix(path: string) {
    Suffix(FileName(path)) in AllowedSuffixes
  }

  // ---------------------------------------------------------------- text layouts

  /** The field position of each column in a split text line. */
  datatype Layout = Layout(deptCol: nat, descrCol: nat, titleCol: nat, projSalCol: Option<nat>, salaryCol: nat)

  /** 2014 reports: `usecols=(2, 3, 4, 5, 6)` for DeptID, Descr, Title, ProjSal, Salary. */
  const Layout2014 := Layout(2, 3, 4, Some(5), 6)

  /** 2013 reports: `usecols=(1, 2, 3, 4)` for DeptID, Descr, Title, Salary. */
  const Layout2013 := Layout(1, 2, 3, None, 4)

  /** `skiprows=2`: the report's first two lines are a header. */
  const HeaderLines: nat := 2

  function Max(a: nat, b: nat): nat {
    if a < b then b else a
  }

  /** How many fields a data line must have for every selected position to exist. */
  function Width(layout: Layout): (w: nat)
    ensures layout.deptCol < w && layout.descrCol < w && layout.titleCol < w && layout.salaryCol < w
    ensures layout.projSalCol.Some? ==> layout.projSalCol.value < w
  {
    var m := Max(Max(layout.deptCol, layout.descrCol), Max(layout.titleCol, layout.salaryCol));
    1 + match layout.projSalCol case None => m case Some(c) => Max(m, c)
  }

  /** The indices, from `i` on, of the lines that are not blank (blank lines are skipped by the reader). */
  function DataLines(lines: seq<string>, i: nat): (r: seq<nat>)
    ensures forall j :: 0 <= j < |r| ==> i <= r[j] < |lines| && !AllSpace(lines[r[j]])
    ensures forall j, k :: 0 <= j < k < |r| ==> r[j] < r[k]
    ensures forall n :: i <= n < |lines| && !AllSpace(lines[n]) ==> n in r
    decreases |lines| - i
  {
    if i >= |lines| then []
    else if AllSpace(lines[i]) then DataLines(lines, i + 1)
    else [i] + DataLines(lines, i + 1)
  }

  /** Line `n` exists and has every column the layout selects. */
  predicate Wide(layout: Layout, lines: seq<string>, n: nat) {
    n < |lines| && |Tokenize(lines[n])| >= Width(layout)
  }

  /** The position in `idx` of the first line lacking a selected column, or `|idx|` when there is none. */
  function FirstNarrow(layout: Layout, lines: seq<string>, idx: seq<nat>, from: nat): (j: nat)
    requires from <= |idx|
    ensures from <= j <= |idx|
    ensures forall k :: from <= k < j ==> Wide(layout, lines, idx[k])
    ensures j < |idx| ==> !Wide(layout, lines, idx[j])
    decreases |idx| - from
  {
    if from == |idx| || !Wide(layout, lines, idx[from]) then from
    else FirstNarrow(layout, lines, idx, from + 1)
  }

  /**
   * The split fields of the lines `idx`, in order. The first of them that
   * lacks a selected column makes the read fail.
   */
  function SplitLines(layout: Layout, lines: seq<string>, idx: seq<nat>): (r: Result<seq<seq<string>>, LoadError>)
    ensures r.Success? <==> forall j :: 0 <= j < |idx| ==> Wide(layout, lines, idx[j])
    ensures r.Success? ==>
      && |r.value| == |idx|
      && forall j :: 0 <= j < |idx| ==> idx[j] < |lines| && r.value[j] == Tokenize(lines[idx[j]])
    ensures r.Failure? ==>
      exists j :: (0 <= j < |idx| && !Wide(layout, lines, idx[j]) && r.error == MalformedRow(idx[j])
        && forall k :: 0 <= k < j ==> Wide(layout, lines, idx[k]))
  {
    var j := FirstNarrow(layout, lines, idx, 0);
    if j < |idx| then Failure(MalformedRow(idx[j]))
    else Success(seq(|idx|, k requires 0 <= k < |idx| => Tokenize(lines[idx[k]])))
  }

  /** pandas' default missing-value markers. */
  const NaMarkers: set<string> := {
    "", "#N/A", "#N/A N/A", "#NA", "-1.#IND", "-1.#QNAN", "-NaN", "-nan",
    "1.#IND", "1.#QNAN", "N/A", "NA", "NULL", "NaN", "n/a", "nan", "null"}

  /** One cell on its own: a number, a missing value, or text. */
  function Convert(cell: string): Value {
    match ParseReal(cell)
    case Some(v) => Num(v)
    case None => if cell in NaMarkers then NaN else Str(cell)
  }

  /** No cell of column `col` is text, so pandas reads the column as numbers. */
  predicate NumericColumn(table: seq<seq<string>>, col: nat) {
    forall i :: 0 <= i < |table| && col < |table[i]| ==> !Convert(table[i][col]).Str?
  }

  /**
   * Cell `col` of row `i` as pandas holds it: in a column read as numbers,
   * its number or NaN; in a column with text in it, its text, or NaN for a
   * missing-value marker.
   */
  function ValueAt(table: seq<seq<string>>, i: nat, col: nat): (v: Value)
    requires i < |table| && col < |table[i]|
    ensures v.Num? <==> NumericColumn(table, col) && ParseReal(table[i][col]).Some?
    ensures v.Num? ==> ParseReal(table[i][col]) == Some(v.v)
    ensures v.NaN? <==> ParseReal(table[i][col]).None? && table[i][col] in NaMarkers
    ensures v.Str? ==> v.s == table[i][col]
  {
    var c := Convert(table[i][col]);
    if c.Num? && !NumericColumn(table, col) then Str(table[i][col]) else c
  }

  /** The record of row `i` of the split data lines. */
  function RecordAt(layout: Layout, table: seq<seq<string>>, i: nat): Record
    requires i < |table| && |table[i]| >= Width(layout)
  {
    Record(
      ValueAt(table, i, layout.deptCol),
      table[i][layout.descrCol],
      table[i][layout.titleCol],
      match layout.projSalCol case None => None case Some(c) => Some(ValueAt(table, i, c)),
      ValueAt(table, i, layout.salaryCol))
  }

  /** `pd.read_csv(fn, sep=r'\s{2,}', skiprows=2, header=None, usecols=...)` on the given lines. */
  function ReadText(layout: Layout, lines: seq<string>): Result<seq<Record>, LoadError>
  {
    match SplitLines(layout, lines, DataLines(lines, HeaderLines))
    case Failure(e) => Failure(e)
    case Success(table) => Success(RecordsOf(layout, table))
  }

  /** The record of every row of the split data lines, in order. */
  function RecordsOf(layout: Layout, table: seq<seq<string>>): (r: seq<Record>)
    requires forall i :: 0 <= i < |table| ==> |table[i]| >= Width(layout)
  {
    seq(|table|, i requires 0 <= i < |table| => RecordAt(layout, table, i))
  }

  // ---------------------------------------------------------------- 2015 spreadsheet

  /** Text on one side and a number on the other: pandas' `+` raises TypeError. */
  predicate TextMeetsNumber(a: Value, b: Value) {
    (a.Str? && b.Num?) || (a.Num? && b.Str?)
  }

  /**
   * Element-wise `+` of two cells where it does not raise: numbers add, two
   * texts concatenate, and a NaN on either side gives NaN (pandas retries a
   * failing object-column sum on the cells present on both sides).
   */
  function Plus(a: Value, b: Value): (r: Value)
    requires !TextMeetsNumber(a, b)
    ensures r.Num? <==> a.Num? && b.Num?
    ensures r.Num? ==> a.Num? && b.Num? && r.v - a.v == b.v
    ensures r.NaN? <==> a.NaN? || b.NaN?
    ensures r.Str? ==> a.Str? && b.Str? && r.s == a.s + b.s
  {
    match (a, b)
    case (Num(x), Num(y)) => Num(x + y)
    case (Str(s), Str(t)) => Str(s + t)
    case _ => NaN
  }

  /** Some row adds text to a number, so `data['ProjSal'] + xldat['Overtime']` raises. */
  predicate AmountsClash(sheet: seq<SheetRow>) {
    exists i :: 0 <= i < |sheet| && TextMeetsNumber(sheet[i].annualRate, sheet[i].overtime)
  }

  /**
   * `procxl`: DeptID, Descr and Job Title are copied, ProjSal is the Annual
   * Rate, and Salary is Annual Rate plus Overtime: a number exactly when
   * both are numbers, exceeding ProjSal by the overtime; NaN when either is
   * missing. Text added to a number raises.
   */
  function Procxl(sheet: seq<SheetRow>): (r: Result<seq<Record>, LoadError>)
    ensures r.Failure? <==> AmountsClash(sheet)
    ensures r.Failure? ==> r.error == NonNumericAmount
    ensures r.Success? ==> |r.value| == |sheet|
    ensures r.Success? ==> forall i :: 0 <= i < |sheet| ==>
      && r.value[i].deptId == sheet[i].deptId && r.value[i].descr == sheet[i].descr && r.value[i].title == sheet[i].jobTitle
      && r.value[i].projSal == Some(sheet[i].annualRate)
      && (r.value[i].salary.Num? <==> sheet[i].annualRate.Num? && sheet[i].overtime.Num?)
      && (r.value[i].salary.Num? ==> r.value[i].salary.v - sheet[i].annualRate.v == sheet[i].overtime.v)
      && (r.value[i].salary.NaN? <==> sheet[i].annualRate.NaN? || sheet[i].overtime.NaN?)
      && (r.value[i].salary.Str? <==> sheet[i].annualRate.Str? && sheet[i].overtime.Str?)
  {
    if AmountsClash(sheet) then Failure(NonNumericAmount)
    else
      Success(seq(|sheet|, i requires 0 <= i < |sheet| && !TextMeetsNumber(sheet[i].annualRate, sheet[i].overtime) =>
        var s := sheet[i];
        Record(s.deptId, s.descr, s.jobTitle, Some(s.annualRate), Plus(s.annualRate, s.overtime))))
  }

  // ---------------------------------------------------------------- zero filter

  /** `data['Salary'] > 0` holds of a record: its Salary is a positive number (NaN compares false). */
  predicate Positive(r: Record) {
    r.salary.Num? && r.salary.v > 0.0
  }

  function Kept(r: Record): Row
    requires r.salary.Num?
  {
    Row(r.deptId, r.descr, r.title, r.projSal, r.salary.v)
  }

  /** `data.loc[data['Salary'] > 0, :]` over a Salary column of numbers. */
  function KeepPositive(records: seq<Record>): (r: seq<Row>)
    ensures |r| <= |records|
    ensures forall i :: 0 <= i < |r| ==> r[i].salary > 0.0
  {
    if records == [] then []
    else if Positive(records[0]) then [Kept(records[0])] + KeepPositive(records[1..])
    else KeepPositive(records[1..])
  }

  /** The filter keeps exactly the records with a positive Salary. */
  lemma {:induction false} KeepPositiveMembers(records: seq<Record>)
    ensures forall x :: x in KeepPositive(records) <==> exists r :: r in records && Positive(r) && x == Kept(r)
  {
    if records != [] {
      KeepPositiveMembers(records[1..]);
      assert records == [records[0]] + records[1..];
    }
  }

  /** The filter works row by row: it commutes with concatenation, so surviving rows keep their order. */
  lemma {:induction false} KeepPositiveAppend(a: seq<Record>, b: seq<Record>)
    ensures KeepPositive(a + b) == KeepPositive(a) + KeepPositive(b)
  {
    if a == [] {
      assert a + b == b;
    } else {
      var ab := a + b;
      assert ab != [] && ab[0] == a[0] && ab[1..] == a[1..] + b;
      KeepPositiveAppend(a[1..], b);
      var kept: seq<Row> := if Positive(a[0]) then [Kept(a[0])] else [];
      assert KeepPositive(ab) == kept + KeepPositive(ab[1..]);
      assert KeepPositive(a) == kept + KeepPositive(a[1..]);
      assert kept + (KeepPositive(a[1..]) + KeepPositive(b)) == (kept + KeepPositive(a[1..])) + KeepPositive(b);
    }
  }

  /** Records that all have a positive Salary are all kept, in order: filtering twice filters once. */
  lemma {:induction false} KeepPositiveOfPositive(records: seq<Record>)
    requires forall i :: 0 <= i < |records| ==> Positive(records[i])
    ensures |KeepPositive(records)| == |records|
    ensures forall i :: 0 <= i < |records| ==> records[i].salary.Num? && KeepPositive(records)[i] == Kept(records[i])
  {
    if records != [] {
      KeepPositiveOfPositive(records[1..]);
      forall i | 0 < i < |records|
        ensures KeepPositive(records)[i] == Kept(records[i])
      {
        assert records[i] == records[1..][i - 1];
      }
    }
  }

  /** The Salary column holds text (it was not read as numbers). */
  predicate SalaryIsText(records: seq<Record>) {
    exists i :: 0 <= i < |records| && records[i].salary.Str?
  }

  /** Line 48: comparing a text column with 0 raises; otherwise non-positive and NaN salaries go. */
  function DropNonPositive(records: seq<Record>): Result<seq<Row>, LoadError> {
    if SalaryIsText(records) then Failure(NonNumericSalary) else Success(KeepPositive(records))
  }

  // ---------------------------------------------------------------- the loader

  /**
   * The loading half of `parsefilt`: the suffix check comes first, then the
   * year picks the reader, then rows without a positive Salary are dropped.
   */
  function Load(path: string, year: int, content: FileContent): (r: Result<seq<Row>, LoadError>)
    ensures !AllowedSuffix(path) ==> r == Failure(UnsupportedFormat(Suffix(FileName(path))))
    ensures AllowedSuffix(path) && year != 2013 && year != 2014 && year != 2015 ==> r == Failure(UnsupportedYear(year))
    ensures r.Success? ==> forall i :: 0 <= i < |r.value| ==> r.value[i].salary > 0.0
  {
    if !AllowedSuffix(path) then Failure(UnsupportedFormat(Suffix(FileName(path))))
    else if year == 2015 then
      match content
      case Spreadsheet(sheet) =>
        (match Procxl(sheet)
         case Failure(e) => Failure(e)
         case Success(records) => DropNonPositive(records))
      case TextLines(_) => Failure(Unreadable)
    else if year == 2014 || year == 2013 then
      match content
      case Spreadsheet(_) => Failure(Unreadable)
      case TextLines(lines) =>
        match ReadText(TextLayout(year), lines)
        case Failure(e) => Failure(e)
        case Success(records) => DropNonPositive(records)
    else Failure(UnsupportedYear(year))
  }

  /** The layout the year selects for a text report. */
  function TextLayout(year: int): Layout {
    if year == 2014 then Layout2014 else Layout2013
  }

  /** A data line: past the two header lines and not blank. */
  predicate IsDataLine(lines: seq<string>, n: int) {
    HeaderLines <= n < |lines| && !AllSpace(lines[n])
  }

  /** The split data lines, in file order. */
  function DataTable(lines: seq<string>): (t: seq<seq<string>>)
    ensures |t| == |DataLines(lines, HeaderLines)|
  {
    var idx := DataLines(lines, HeaderLines);
    seq(|idx|, j requires 0 <= j < |idx| => Tokenize(lines[idx[j]]))
  }

  /** The read fails exactly when splitting the data lines does, with the same error. */
  lemma ReadTextIsSplit(layout: Layout, lines: seq<string>)
    ensures var split := SplitLines(layout, lines, DataLines(lines, HeaderLines));
      && (ReadText(layout, lines).Success? <==> split.Success?)
      && (split.Failure? ==> ReadText(layout, lines).error == split.error)
  {
  }

  /**
   * A text report reads exactly when every data line (past the header, not
   * blank) has the selected columns; otherwise the error names the first
   * data line that does not.
   */
  lemma ReadTextOutcome(layout: Layout, lines: seq<string>)
    ensures ReadText(layout, lines).Success? <==> forall n :: IsDataLine(lines, n) ==> Wide(layout, lines, n)
    ensures ReadText(layout, lines).Failure? ==>
      exists n :: IsDataLine(lines, n) && !Wide(layout, lines, n) && ReadText(layout, lines).error == MalformedRow(n)
        && forall m :: IsDataLine(lines, m) && m < n ==> Wide(layout, lines, m)
  {
    ReadTextIsSplit(layout, lines);
    SplitDataLines(layout, lines);
  }

  /** Splitting the data lines fails at the first data line that lacks a selected column. */
  lemma SplitDataLines(layout: Layout, lines: seq<string>)
    ensures var split := SplitLines(layout, lines, DataLines(lines, HeaderLines));
      && (split.Success? <==> forall n :: IsDataLine(lines, n) ==> Wide(layout, lines, n))
      && (split.Failure? ==>
        exists n :: IsDataLine(lines, n) && !Wide(layout, lines, n) && split.error == MalformedRow(n)
          && forall m :: IsDataLine(lines, m) && m < n ==> Wide(layout, lines, m))
  {
    var idx := DataLines(lines, HeaderLines);
    if SplitLines(layout, lines, idx).Failure? {
      SplitDataLinesFails(layout, lines, idx);
    } else {
      forall n | IsDataLine(lines, n) ensures Wide(layout, lines, n) {
        var j :| 0 <= j < |idx| && idx[j] == n;
      }
    }
  }

  lemma SplitDataLinesFails(layout: Layout, lines: seq<string>, idx: seq<nat>)
    requires idx == DataLines(lines, HeaderLines)
    requires SplitLines(layout, lines, idx).Failure?
    ensures exists n :: (IsDataLine(lines, n) && !Wide(layout, lines, n) && SplitLines(layout, lines, idx).error == MalformedRow(n)
      && forall m :: IsDataLine(lines, m) && m < n ==> Wide(layout, lines, m))
  {
    var j :| 0 <= j < |idx| && !Wide(layout, lines, idx[j]) && SplitLines(layout, lines, idx).error == MalformedRow(idx[j])
      && forall k :: 0 <= k < j ==> Wide(layout, lines, idx[k]);
    var n := idx[j];
    assert IsDataLine(lines, n);
    forall m | IsDataLine(lines, m) && m < n ensures Wide(layout, lines, m) {
      var k := EarlierDataLine(lines, idx, j, m);
    }
  }

  /** A data line before the `j`-th one is one of the first `j`. */
  lemma EarlierDataLine(lines: seq<string>, idx: seq<nat>, j: nat, m: nat) returns (k: nat)
    requires idx == DataLines(lines, HeaderLines)
    requires j < |idx| && IsDataLine(lines, m) && m < idx[j]
    ensures k < j && idx[k] == m
  {
    assert m in idx;
    k :| 0 <= k < |idx| && idx[k] == m;
  }

  /**
   * When a text report reads, its records are the data lines' records, one
   * per data line and in file order; each takes its fields from that line's
   * selected columns, numbers converted column by column.
   */
  lemma ReadTextRecords(layout: Layout, lines: seq<string>)
    requires ReadText(layout, lines).Success?
    ensures var recs, idx, t := ReadText(layout, lines).value, DataLines(lines, HeaderLines), DataTable(lines);
      && |recs| == |idx| == |t|
      && (forall j :: 0 <= j < |idx| ==> t[j] == Tokenize(lines[idx[j]]) && |t[j]| >= Width(layout))
      && (forall j :: 0 <= j < |idx| ==> recs[j] == RecordAt(layout, t, j))
  {
    var idx := DataLines(lines, HeaderLines);
    var split := SplitLines(layout, lines, idx);
    assert split.value == DataTable(lines);
  }

  /** Each record a report reads has a ProjSal column exactly when its layout has one. */
  lemma ReadTextProjSal(layout: Layout, lines: seq<string>)
    requires ReadText(layout, lines).Success?
    ensures forall x :: x in ReadText(layout, lines).value ==> (x.projSal.None? <==> layout.projSalCol.None?)
  {
    ReadTextRecords(layout, lines);
  }

  /**
   * One DeptID that is not a number makes pandas read the whole DeptID
   * column as text: then no record read has a numeric DeptID, and so none
   * can equal 741.
   */
  lemma TextDeptIdColumn(layout: Layout, lines: seq<string>, k: nat)
    requires ReadText(layout, lines).Success?
    requires k < |ReadText(layout, lines).value| && ReadText(layout, lines).value[k].deptId.Str?
    ensures forall i :: 0 <= i < |ReadText(layout, lines).value| ==> !ReadText(layout, lines).value[i].deptId.Num?
  {
    var table := SplitLines(layout, lines, DataLines(lines, HeaderLines)).value;
    assert ReadText(layout, lines).value == RecordsOf(layout, table);
    RecordsTextDeptId(layout, table, k);
  }

  lemma RecordsTextDeptId(layout: Layout, table: seq<seq<string>>, k: nat)
    requires forall i :: 0 <= i < |table| ==> |table[i]| >= Width(layout)
    requires k < |table| && RecordsOf(layout, table)[k].deptId.Str?
    ensures forall i :: 0 <= i < |table| ==> !RecordsOf(layout, table)[i].deptId.Num?
  {
    TextCellColumn(table, layout.deptCol, k);
  }

  /** A cell read as text means its column was not read as numbers: no cell of it is a number. */
  lemma TextCellColumn(table: seq<seq<string>>, col: nat, k: nat)
    requires k < |table| && col < |table[k]| && ValueAt(table, k, col).Str?
    ensures forall i :: 0 <= i < |table| && col < |table[i]| ==> !ValueAt(table, i, col).Num?
  {
  }

  /**
   * A 2013 or 2014 text report: the read's error is the load's error; a
   * Salary column read as text fails the filter; otherwise the loaded rows
   * are the records read, filtered, and carry a ProjSal exactly in 2014.
   */
  lemma LoadedTextRows(path: string, year: int, lines: seq<string>)
    requires AllowedSuffix(path) && (year == 2013 || year == 2014)
    ensures ReadText(TextLayout(year), lines).Failure? ==>
      Load(path, year, TextLines(lines)) == Failure(ReadText(TextLayout(year), lines).error)
    ensures ReadText(TextLayout(year), lines).Success? && SalaryIsText(ReadText(TextLayout(year), lines).value) ==>
      Load(path, year, TextLines(lines)) == Failure(NonNumericSalary)
    ensures ReadText(TextLayout(year), lines).Success? && !SalaryIsText(ReadText(TextLayout(year), lines).value) ==>
      Load(path, year, TextLines(lines)) == Success(KeepPositive(ReadText(TextLayout(year), lines).value))
    ensures Load(path, year, TextLines(lines)).Success? ==>
      forall x :: x in Load(path, year, TextLines(lines)).value ==> (x.projSal.None? <==> year == 2013)
  {
    var read := ReadText(TextLayout(year), lines);
    if read.Success? {
      ReadTextProjSal(TextLayout(year), lines);
      KeepPositiveMembers(read.value);
    }
  }

  /** Some row has text in both Annual Rate and Overtime, so its Salary is text. */
  predicate AmountsBothText(sheet: seq<SheetRow>) {
    exists i :: 0 <= i < |sheet| && sheet[i].annualRate.Str? && sheet[i].overtime.Str?
  }

  /**
   * A 2015 spreadsheet fails when a row adds text to a number, or when a row's
   * Salary comes out as text (`> 0` then raises). Otherwise the rows are the
   * `procxl` rows in sheet order, filtered: exactly those whose Annual Rate
   * and Overtime are both numbers with a positive sum. A row with a blank
   * amount is dropped.
   */
  lemma LoadedSheetRows(path: string, sheet: seq<SheetRow>)
    requires AllowedSuffix(path)
    ensures AmountsClash(sheet) ==> Load(path, 2015, Spreadsheet(sheet)) == Failure(NonNumericAmount)
    ensures !AmountsClash(sheet) && AmountsBothText(sheet) ==> Load(path, 2015, Spreadsheet(sheet)) == Failure(NonNumericSalary)
    ensures !AmountsClash(sheet) && !AmountsBothText(sheet) ==>
      Load(path, 2015, Spreadsheet(sheet)) == Success(KeepPositive(Procxl(sheet).value))
    ensures Load(path, 2015, Spreadsheet(sheet)).Success? ==>
      forall x :: x in Load(path, 2015, Spreadsheet(sheet)).value <==>
        exists i :: 0 <= i < |sheet| && sheet[i].annualRate.Num? && sheet[i].overtime.Num? &&
          sheet[i].annualRate.v + sheet[i].overtime.v > 0.0 &&
          x == Row(sheet[i].deptId, sheet[i].descr, sheet[i].jobTitle, Some(sheet[i].annualRate), sheet[i].annualRate.v + sheet[i].overtime.v)
  {
    if !AmountsClash(sheet) {
      var recs := Procxl(sheet).value;
      assert SalaryIsText(recs) <==> AmountsBothText(sheet) by {
        if SalaryIsText(recs) {
          var i :| 0 <= i < |recs| && recs[i].salary.Str?;
          assert sheet[i].annualRate.Str? && sheet[i].overtime.Str?;
        }
        if AmountsBothText(sheet) {
          var i :| 0 <= i < |sheet| && sheet[i].annualRate.Str? && sheet[i].overtime.Str?;
          assert recs[i].salary.Str?;
        }
      }
      KeepPositiveMembers(recs);
      forall x | x in recs
        ensures exists i :: 0 <= i < |sheet| && x == recs[i]
      {
        var i :| 0 <= i < |recs| && recs[i] == x;
      }
      forall i | 0 <= i < |sheet| ensures recs[i] in recs { }
    }
  }

  // ---------------------------------------------------------------- printed reports

  /** A non-negative amount as a report prints it: whole part and fraction digits ("55000.25"). */
  datatype Amount = Amount(whole: nat, frac: string)

  predicate ValidAmount(a: Amount) {
    AllDigits(a.frac)
  }

  function AmountText(a: Amount): string
    requires ValidAmount(a)
  {
    DecimalText(a.whole, a.frac)
  }

  function AmountValue(a: Amount): real
    requires ValidAmount(a)
  {
    DecimalValue(a.whole, a.frac)
  }

  /**
   * One data line of a report as `pdftotext -layout` prints it: leading
   * columns the reader skips, then DeptID, Descr, Title, ProjSal (2014
   * only) and Salary, with a gap of two or more whitespace characters
   * between neighbouring columns and any whitespace around the line.
   */
  datatype Entry = Entry(
    pre: string, lead: seq<string>, dept: nat, descr: string, title: string,
    projSal: Option<Amount>, salary: Amount, gaps: seq<string>, post: string)

  /** The columns of an entry, left to right. */
  function Columns(e: Entry): (c: seq<string>)
    requires ValidAmount(e.salary) && (e.projSal.Some? ==> ValidAmount(e.projSal.value))
    ensures |c| == |e.lead| + 4 + (if e.projSal.Some? then 1 else 0)
  {
    e.lead + [NatToString(e.dept), e.descr, e.title]
      + (match e.projSal case None => [] case Some(a) => [AmountText(a)])
      + [AmountText(e.salary)]
  }

  /** An entry the year's report can print: its columns are fields, its gaps are gaps. */
  predicate Printable(year: int, e: Entry) {
    && (year == 2014 ==> |e.lead| == 2 && e.projSal.Some?)
    && (year == 2013 ==> |e.lead| == 1 && e.projSal.None?)
    && ValidAmount(e.salary) && (e.projSal.Some? ==> ValidAmount(e.projSal.value))
    && AllSpace(e.pre) && AllSpace(e.post)
    && (forall i :: 0 <= i < |e.lead| ==> WellFormedField(e.lead[i]))
    && WellFormedField(e.descr) && WellFormedField(e.title)
    && |e.gaps| == |Columns(e)| - 1
    && (forall i :: 0 <= i < |e.gaps| ==> IsGap(e.gaps[i]))
  }

  /** The printed line. */
  function EntryText(year: int, e: Entry): string
    requires Printable(year, e)
  {
    e.pre + JoinWith(Columns(e), e.gaps) + e.post
  }

  /** The record an entry shows. */
  function Shown(year: int, e: Entry): Record
    requires Printable(year, e)
  {
    Record(Num(e.dept as real), e.descr, e.title,
      match e.projSal case None => None case Some(a) => Some(Num(AmountValue(a))),
      Num(AmountValue(e.salary)))
  }

  /** Every column of a printable entry is a field, and the line reads back as its columns. */
  lemma EntryTokens(year: int, e: Entry)
    requires Printable(year, e)
    ensures Tokenize(EntryText(year, e)) == Columns(e)
    ensures !AllSpace(EntryText(year, e))
  {
    var c := Columns(e);
    DecimalIsField(e.salary.whole, e.salary.frac);
    DecimalIsField(e.dept, []);
    if e.projSal.Some? {
      DecimalIsField(e.projSal.value.whole, e.projSal.value.frac);
    }
    assert forall i :: 0 <= i < |c| ==> WellFormedField(c[i]) by {
      forall i | 0 <= i < |c| ensures WellFormedField(c[i]) {
        if i >= |e.lead| + 3 && i < |c| - 1 {
          assert c[i] == AmountText(e.projSal.value);
        }
      }
    }
    TokenizeLaidOut(e.pre, c, e.gaps, e.post);
    JoinEnds(c, e.gaps);
    var x := JoinWith(c, e.gaps);
    assert EntryText(year, e)[|e.pre|] == x[0];
  }

  /** The indices `a` up to but not including `b`, in order. */
  function Range(a: nat, b: nat): (r: seq<nat>)
    ensures |r| == if a <= b then b - a else 0
    decreases b - a
  {
    if a >= b then [] else [a] + Range(a + 1, b)
  }

  lemma {:induction false} RangeAt(a: nat, b: nat)
    ensures forall j :: 0 <= j < |Range(a, b)| ==> Range(a, b)[j] == a + j
    decreases b - a
  {
    if a < b {
      RangeAt(a + 1, b);
    }
  }

  /** The data lines of a report whose lines past the header are all non-blank are exactly those lines. */
  lemma {:induction false} DataLinesOfNonBlank(lines: seq<string>, i: nat)
    requires i <= |lines|
    requires forall n :: i <= n < |lines| ==> !AllSpace(lines[n])
    ensures DataLines(lines, i) == Range(i, |lines|)
    decreases |lines| - i
  {
    if i < |lines| {
      DataLinesOfNonBlank(lines, i + 1);
      assert DataLines(lines, i) == [i] + DataLines(lines, i + 1) by {
        assert !AllSpace(lines[i]);
      }
    }
  }

  /** A column whose every cell is a printed number reads as numbers. */
  lemma NumbersColumn(table: seq<seq<string>>, col: nat)
    requires forall i :: 0 <= i < |table| ==> col < |table[i]| && ParseReal(table[i][col]).Some?
    ensures NumericColumn(table, col)
  {
  }

  predicate AllPrintable(year: int, entries: seq<Entry>) {
    forall i :: 0 <= i < |entries| ==> Printable(year, entries[i])
  }

  /** The printed lines of the entries, in order. */
  function EntryTexts(year: int, entries: seq<Entry>): (texts: seq<string>)
    requires AllPrintable(year, entries)
    ensures |texts| == |entries|
  {
    seq(|entries|, i requires 0 <= i < |entries| => EntryText(year, entries[i]))
  }

  /** A report: two header lines, then one printed line per entry. */
  function ReportLines(year: int, header: seq<string>, entries: seq<Entry>): (lines: seq<string>)
    requires AllPrintable(year, entries)
  {
    header + EntryTexts(year, entries)
  }

  /** The columns of each entry. */
  function ReportTable(year: int, entries: seq<Entry>): (t: seq<seq<string>>)
    requires AllPrintable(year, entries)
    ensures |t| == |entries|
  {
    seq(|entries|, i requires 0 <= i < |entries| => Columns(entries[i]))
  }

  /** The records the entries show, in order. */
  function ReportRecords(year: int, entries: seq<Entry>): (r: seq<Record>)
    requires AllPrintable(year, entries)
    ensures |r| == |entries|
  {
    seq(|entries|, i requires 0 <= i < |entries| => Shown(year, entries[i]))
  }

  /** Entry `j`'s line is not blank and splits into that entry's columns. */
  lemma EntryLine(year: int, entries: seq<Entry>, j: nat)
    requires year == 2013 || year == 2014
    requires AllPrintable(year, entries) && j < |entries|
    ensures !AllSpace(EntryTexts(year, entries)[j])
    ensures Tokenize(EntryTexts(year, entries)[j]) == ReportTable(year, entries)[j]
    ensures |ReportTable(year, entries)[j]| >= Width(TextLayout(year))
  {
    EntryTokens(year, entries[j]);
  }

  /** The report's data lines are its entries' lines, and they split into the entries' columns. */
  lemma ReportSplits(year: int, header: seq<string>, entries: seq<Entry>)
    requires year == 2013 || year == 2014
    requires |header| == HeaderLines && AllPrintable(year, entries)
    ensures SplitLines(TextLayout(year), ReportLines(year, header, entries), DataLines(ReportLines(year, header, entries), HeaderLines))
      == Success(ReportTable(year, entries))
  {
    var body, table := EntryTexts(year, entries), ReportTable(year, entries);
    forall j | 0 <= j < |table|
      ensures !AllSpace(body[j]) && Tokenize(body[j]) == table[j] && |table[j]| >= Width(TextLayout(year))
    {
      EntryLine(year, entries, j);
    }
    SplitBelowHeader(TextLayout(year), header, body, table);
  }

  /**
   * Non-blank lines below a two-line header that split into the given rows,
   * each with every selected column, are the data lines and split into
   * those rows.
   */
  lemma SplitBelowHeader(layout: Layout, header: seq<string>, body: seq<string>, table: seq<seq<string>>)
    requires |header| == HeaderLines && |body| == |table|
    requires forall j :: 0 <= j < |table| ==>
      !AllSpace(body[j]) && Tokenize(body[j]) == table[j] && |table[j]| >= Width(layout)
    ensures SplitLines(layout, header + body, DataLines(header + body, HeaderLines)) == Success(table)
  {
    var lines := header + body;
    var idx := DataLines(lines, HeaderLines);
    assert |idx| == |body| && forall j :: 0 <= j < |body| ==> idx[j] == j + HeaderLines by {
      BodyDataLines(header, body);
    }
    forall j | 0 <= j < |idx|
      ensures idx[j] < |lines| && Tokenize(lines[idx[j]]) == table[j] && |table[j]| >= Width(layout)
    {
      assert lines[idx[j]] == body[j];
    }
    SplitLinesInto(layout, lines, idx, table);
  }

  /** Below a two-line header, non-blank lines are all data lines. */
  lemma BodyDataLines(header: seq<string>, body: seq<string>)
    requires |header| == HeaderLines
    requires forall j :: 0 <= j < |body| ==> !AllSpace(body[j])
    ensures |DataLines(header + body, HeaderLines)| == |body|
    ensures forall j :: 0 <= j < |body| ==> DataLines(header + body, HeaderLines)[j] == j + HeaderLines
  {
    var lines := header + body;
    forall n | HeaderLines <= n < |lines| ensures !AllSpace(lines[n]) {
      assert lines[n] == body[n - HeaderLines];
    }
    DataLinesOfNonBlank(lines, HeaderLines);
    RangeAt(HeaderLines, |lines|);
  }

  /** Lines whose fields are the given rows, each with every selected column, split into those rows. */
  lemma SplitLinesInto(layout: Layout, lines: seq<string>, idx: seq<nat>, table: seq<seq<string>>)
    requires |table| == |idx|
    requires forall j :: 0 <= j < |idx| ==>
      idx[j] < |lines| && Tokenize(lines[idx[j]]) == table[j] && |table[j]| >= Width(layout)
    ensures SplitLines(layout, lines, idx) == Success(table)
  {
    var r := SplitLines(layout, lines, idx);
    assert r.Success?;
    assert r.value == table;
  }

  /** The DeptID, Salary and (in 2014) ProjSal columns of a printed report read as numbers. */
  lemma ReportColumnsNumeric(year: int, entries: seq<Entry>)
    requires year == 2013 || year == 2014
    requires AllPrintable(year, entries)
    ensures var t, layout := ReportTable(year, entries), TextLayout(year);
      && NumericColumn(t, layout.deptCol) && NumericColumn(t, layout.salaryCol)
      && (layout.projSalCol.Some? ==> NumericColumn(t, layout.projSalCol.value))
  {
    var table, layout := ReportTable(year, entries), TextLayout(year);
    NumbersColumn(table, layout.deptCol) by {
      forall i | 0 <= i < |table| ensures ParseReal(table[i][layout.deptCol]).Some? {
        ParseNatToString(entries[i].dept);
      }
    }
    NumbersColumn(table, layout.salaryCol) by {
      forall i | 0 <= i < |table| ensures ParseReal(table[i][layout.salaryCol]).Some? {
        ParseDecimalText(entries[i].salary.whole, entries[i].salary.frac);
      }
    }
    if year == 2014 {
      NumbersColumn(table, 5) by {
        forall i | 0 <= i < |table| ensures ParseReal(table[i][5]).Some? {
          var a := entries[i].projSal.value;
          ParseDecimalText(a.whole, a.frac);
        }
      }
    }
  }

  /** Row `i` of a printed report's table is the record entry `i` shows. */
  lemma ReportRecord(year: int, entries: seq<Entry>, i: nat)
    requires year == 2013 || year == 2014
    requires AllPrintable(year, entries) && i < |entries|
    ensures |ReportTable(year, entries)[i]| >= Width(TextLayout(year))
    ensures RecordAt(TextLayout(year), ReportTable(year, entries), i) == Shown(year, entries[i])
  {
    var e, t, layout := entries[i], ReportTable(year, entries), TextLayout(year);
    assert Printable(year, e);
    var row := Columns(e);
    assert t[i] == row;
    ReportColumnsNumeric(year, entries);
    assert ValueAt(t, i, layout.deptCol) == Num(e.dept as real) by {
      assert row[layout.deptCol] == NatToString(e.dept);
      ParseNatToString(e.dept);
    }
    assert ValueAt(t, i, layout.salaryCol) == Num(AmountValue(e.salary)) by {
      assert row[layout.salaryCol] == AmountText(e.salary);
      ParseDecimalText(e.salary.whole, e.salary.frac);
    }
    if year == 2014 {
      assert ValueAt(t, i, 5) == Num(AmountValue(e.projSal.value)) by {
        assert row[5] == AmountText(e.projSal.value);
        ParseDecimalText(e.projSal.value.whole, e.projSal.value.frac);
      }
    }
    assert row[layout.descrCol] == e.descr && row[layout.titleCol] == e.title;
  }

  /**
   * A printed 2013 or 2014 report reads back as the records its lines show,
   * one per line and in order, whatever the header's two lines and
   * whatever the width of each gap between columns.
   */
  lemma ReportRoundTrip(year: int, header: seq<string>, entries: seq<Entry>)
    requires year == 2013 || year == 2014
    requires |header| == HeaderLines && AllPrintable(year, entries)
    ensures ReadText(TextLayout(year), ReportLines(year, header, entries)) == Success(ReportRecords(year, entries))
  {
    var layout, table, records := TextLayout(year), ReportTable(year, entries), ReportRecords(year, entries);
    ReportSplits(year, header, entries);
    forall i | 0 <= i < |table|
      ensures |table[i]| >= Width(layout) && RecordAt(layout, table, i) == records[i]
    {
      ReportRecord(year, entries, i);
    }
    ReadTextOfTable(layout, ReportLines(year, header, entries), table, records);
  }

  /** A report whose data lines split into `table` reads as the records of the table's rows. */
  lemma ReadTextOfTable(layout: Layout, lines: seq<string>, table: seq<seq<string>>, records: seq<Record>)
    requires SplitLines(layout, lines, DataLines(lines, HeaderLines)) == Success(table)
    requires |records| == |table|
    requires forall i :: 0 <= i < |table| ==> |table[i]| >= Width(layout) && RecordAt(layout, table, i) == records[i]
    ensures ReadText(layout, lines) == Success(records)
  {
    var r := ReadText(layout, lines);
    assert r.Success? && |r.value| == |records|;
    assert r.value == records;
  }


  /**
   * A printed report loads as its entries' records with a positive Salary,
   * in line order.
   */
  lemma ReportLoads(path: string, year: int, header: seq<string>, entries: seq<Entry>)
    requires AllowedSuffix(path) && (year == 2013 || year == 2014)
    requires |header| == HeaderLines && AllPrintable(year, entries)
    ensures Load(path, year, TextLines(ReportLines(year, header, entries))) == Success(KeepPositive(ReportRecords(year, entries)))
  {
    ReportRoundTrip(year, header, entries);
    assert !SalaryIsText(ReportRecords(year, entries));
  }
}
