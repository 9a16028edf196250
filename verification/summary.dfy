/**
 * The summary table of `parsefilt`: one row of statistics per bucket,
 * keyed by label. The eight category rows are put into the table in a
 * fixed order, the table is sorted in place by descending median (an
 * undefined median last), and the `rest` and `all` rows are appended
 * after the sort.
 */
module Summary {
  import opened Wrappers
  import opened Sorting
  import opened Loader
  import opened Aggregate
  import opened Classify

  /** A row of the table: the bucket it describes (shown as `Label(key)`) and its statistics. */
  datatype SummaryRow = SummaryRow(key: Category, stats: Stats)

  /** The salary column of the loaded data, in row order. */
  function Salaries(data: seq<Row>): (s: seq<real>)
    ensures |s| == |data|
    ensures forall i :: 0 <= i < |data| ==> s[i] == data[i].salary
  {
    seq(|data|, i requires 0 <= i < |data| => data[i].salary)
  }

  /** The label a bucket is stored under. */
  function Label(c: Category): string {
    match c
    case Police => "police"
    case BusOps => "busops"
    case BusFullTime => "bus-ft"
    case BusPartTime => "bus-pt"
    case Maint => "maint"
    case Signals => "signal"
    case Subway => "subway"
    case Heavy => "heavy"
    case Ops => "ops"
    case Rest => "rest"
    case All => "all"
  }

  /** No two buckets share a label, so keying the table by bucket is keying it by label. */
  lemma LabelsDistinct()
    ensures forall a, b :: Label(a) == Label(b) ==> a == b
  {
  }

  /** Part-time bus operators use a fixed floor of 100; every other bucket uses the caller's. */
  const PartTimeFloor: real := 100.0

  function Floor(c: Category, lowerthres: real): real {
    if c == BusPartTime then PartTimeFloor else lowerthres
  }

  /** The statistics of one bucket over the loaded data. */
  function CategoryStats(data: seq<Row>, c: Category, lowerthres: real): Stats {
    Doplot(Salaries(data), Mask(data, c), Floor(c, lowerthres))
  }

  /** The statistics of every bucket over the loaded data. */
  function BucketStats(data: seq<Row>, lowerthres: real): Category -> Stats {
    c => CategoryStats(data, c, lowerthres)
  }

  function RowOf(statsOf: Category -> Stats, c: Category): SummaryRow {
    SummaryRow(c, statsOf(c))
  }

  /** The eight category buckets, in the order their rows are put into the table. */
  const Ranked: seq<Category> := [Police, BusFullTime, BusPartTime, Maint, Signals, Subway, Heavy, Ops]

  lemma RankedDistinct()
    ensures forall i, j :: 0 <= i < j < |Ranked| ==> Ranked[i] != Ranked[j]
    ensures Rest !in Ranked && All !in Ranked
  {
  }

  /** The category rows in the order they are put into the table. */
  function CategoryRows(statsOf: Category -> Stats): (t: seq<SummaryRow>)
    ensures |t| == |Ranked|
    ensures forall i :: 0 <= i < |t| ==> t[i] == RowOf(statsOf, Ranked[i])
  {
    seq(|Ranked|, i requires 0 <= i < |Ranked| => RowOf(statsOf, Ranked[i]))
  }

  /** Descending order of medians with an undefined median last. */
  predicate MedianBefore(a: Option<real>, b: Option<real>) {
    b.None? || (a.Some? && a.value >= b.value)
  }

  predicate RowBefore(a: SummaryRow, b: SummaryRow) {
    MedianBefore(a.stats.median, b.stats.median)
  }

  lemma RowBeforeTotal()
    ensures TotalPreorder(RowBefore)
  {
    forall a, b, c | RowBefore(a, b) && RowBefore(b, c) ensures RowBefore(a, c) {
      if c.stats.median.Some? {
        assert b.stats.median.Some?;
      }
    }
  }

  function SortRows(rows: seq<SummaryRow>): (t: seq<SummaryRow>)
    ensures |t| == |rows|
  {
    SortBy(rows, RowBefore)
  }

  /**
   * The sort orders rows by non-increasing median, puts the rows without a
   * median last, and only rearranges the rows.
   */
  lemma SortRowsSpec(rows: seq<SummaryRow>)
    ensures var t := SortRows(rows);
      && multiset(t) == multiset(rows)
      && SortedBy(t, RowBefore)
      && (forall i, j :: 0 <= i < j < |t| && t[j].stats.median.Some? ==>
            t[i].stats.median.Some? && t[i].stats.median.value >= t[j].stats.median.value)
  {
    RowBeforeTotal();
    SortBySorted(rows, RowBefore);
    SortByPermutes(rows, RowBefore);
  }

  /** The table assembled from the statistics of each bucket, as a value. */
  function Table(statsOf: Category -> Stats): seq<SummaryRow> {
    SortRows(CategoryRows(statsOf)) + [RowOf(statsOf, Rest), RowOf(statsOf, All)]
  }

  /** The table `parsefilt` returns. */
  function Summary(data: seq<Row>, lowerthres: real): seq<SummaryRow> {
    Table(BucketStats(data, lowerthres))
  }

  predicate HasKey(rows: seq<SummaryRow>, key: Category) {
    exists i :: 0 <= i < |rows| && rows[i].key == key
  }

  predicate DistinctKeys(rows: seq<SummaryRow>) {
    forall i, j :: 0 <= i < j < |rows| ==> rows[i].key != rows[j].key
  }

  /** Where a key is stored: its first occurrence. */
  function KeyIndex(rows: seq<SummaryRow>, key: Category): (k: nat)
    requires HasKey(rows, key)
    ensures k < |rows| && rows[k].key == key
    ensures forall j :: 0 <= j < k ==> rows[j].key != key
  {
    if rows[0].key == key then 0
    else
      assert HasKey(rows[1..], key) by {
        var i :| 0 <= i < |rows| && rows[i].key == key;
        assert rows[1..][i - 1].key == key;
      }
      1 + KeyIndex(rows[1..], key)
  }

  /**
   * A table of labelled statistics rows, filled in by key and sorted in
   * place.
   */
  class SummaryTable {
    var rows: seq<SummaryRow>

    constructor ()
      ensures rows == []
    {
      rows := [];
    }

    /**
     * Assignment by label: a new label adds a row at the end; a label
     * already present has its row's statistics replaced where it stands.
     * Keys stay distinct.
     */
    method Put(key: Category, stats: Stats)
      modifies this
      ensures !HasKey(old(rows), key) ==> rows == old(rows) + [SummaryRow(key, stats)]
      ensures HasKey(old(rows), key) ==>
        rows == old(rows)[KeyIndex(old(rows), key) := SummaryRow(key, stats)]
      ensures DistinctKeys(old(rows)) ==> DistinctKeys(rows)
    {
      var i := 0;
      while i < |rows| && rows[i].key != key
        invariant 0 <= i <= |rows|
        invariant forall j :: 0 <= j < i ==> rows[j].key != key
      {
        i := i + 1;
      }
      if i < |rows| {
        assert HasKey(rows, key);
        rows := rows[i := SummaryRow(key, stats)];
      } else {
        rows := rows + [SummaryRow(key, stats)];
      }
    }

    /** Sorts the rows by descending median, undefined medians last. */
    method SortByMedian()
      modifies this
      ensures rows == SortRows(old(rows))
      ensures multiset(rows) == multiset(old(rows))
      ensures SortedBy(rows, RowBefore)
    {
      SortRowsSpec(rows);
      rows := SortRows(rows);
    }
  }

  lemma CategoryKeys(statsOf: Category -> Stats, r: SummaryRow)
    requires r in multiset(CategoryRows(statsOf))
    ensures r.key in Ranked
  {
    var t := CategoryRows(statsOf);
    assert r in t;
    var i :| 0 <= i < |t| && t[i] == r;
  }

  /** The sorted category rows: each category once, keys among the eight, no `rest` or `all`. */
  lemma SortedCategoryRows(statsOf: Category -> Stats)
    ensures var t := SortRows(CategoryRows(statsOf));
      && (forall i :: 0 <= i < |t| ==> t[i].key in Ranked)
      && DistinctKeys(t)
      && !HasKey(t, Rest) && !HasKey(t, All)
  {
    var cats := CategoryRows(statsOf);
    var t := SortRows(cats);
    SortRowsSpec(cats);
    RankedDistinct();
    forall i | 0 <= i < |t| ensures t[i].key in Ranked {
      assert t[i] in multiset(t);
      CategoryKeys(statsOf, t[i]);
    }
    assert DistinctKeys(cats);
    forall i, j | 0 <= i < j < |t| ensures t[i].key != t[j].key {
      DistinctKeysPermutation(cats, t, i, j);
    }
  }

  /**
   * The assembly of `parsefilt`: put the eight category rows in their
   * fixed order, sort by median, then append `rest` and `all`.
   */
  method BuildSummary(statsOf: Category -> Stats) returns (st: SummaryTable)
    ensures fresh(st)
    ensures st.rows == Table(statsOf)
  {
    st := new SummaryTable();
    RankedDistinct();
    var cats := CategoryRows(statsOf);
    for k := 0 to |Ranked|
      invariant st.rows == cats[..k]
    {
      assert !HasKey(st.rows, Ranked[k]) by {
        forall i | 0 <= i < k ensures st.rows[i].key != Ranked[k] {
          assert st.rows[i] == cats[i];
        }
      }
      st.Put(Ranked[k], statsOf(Ranked[k]));
      assert cats[..k + 1] == cats[..k] + [cats[k]];
    }
    assert cats[..|Ranked|] == cats;
    st.SortByMedian();
    SortedCategoryRows(statsOf);
    ghost var sorted := st.rows;
    st.Put(Rest, statsOf(Rest));
    assert !HasKey(st.rows, All) by {
      forall i | 0 <= i < |st.rows| ensures st.rows[i].key != All {
        if i < |sorted| {
          assert st.rows[i] == sorted[i];
        }
      }
    }
    st.Put(All, statsOf(All));
  }

  /**
   * The first eight rows of the table are the category rows, each exactly
   * once, by non-increasing median with the undefined medians last.
   */
  lemma TableHead(statsOf: Category -> Stats)
    ensures var t := Table(statsOf);
      && |t| == 10
      && multiset(t[..8]) == multiset(CategoryRows(statsOf))
      && (forall c :: c in Ranked ==> SummaryRow(c, statsOf(c)) in t[..8])
      && (forall i, j :: 0 <= i < j < 8 && t[j].stats.median.Some? ==>
            t[i].stats.median.Some? && t[i].stats.median.value >= t[j].stats.median.value)
  {
    var cats := CategoryRows(statsOf);
    var sorted := SortRows(cats);
    var t := Table(statsOf);
    SortRowsSpec(cats);
    assert t[..8] == sorted;
    forall c | c in Ranked ensures SummaryRow(c, statsOf(c)) in sorted {
      var k :| 0 <= k < |Ranked| && Ranked[k] == c;
      assert cats[k] in multiset(cats);
    }
    forall i, j | 0 <= i < j < 8 && t[j].stats.median.Some?
      ensures t[i].stats.median.Some? && t[i].stats.median.value >= t[j].stats.median.value
    {
      assert t[i] == sorted[i] && t[j] == sorted[j];
    }
  }

  /**
   * The table ends with `rest` and then `all`, whatever their medians, and
   * no label occurs twice.
   */
  lemma TableTail(statsOf: Category -> Stats)
    ensures var t := Table(statsOf);
      && |t| == 10
      && t[8] == SummaryRow(Rest, statsOf(Rest))
      && t[9] == SummaryRow(All, statsOf(All))
      && DistinctKeys(t)
  {
    var sorted := SortRows(CategoryRows(statsOf));
    var t := Table(statsOf);
    SortedCategoryRows(statsOf);
    forall i, j | 0 <= i < j < |t| ensures t[i].key != t[j].key {
      if j < 8 {
        assert t[i] == sorted[i] && t[j] == sorted[j];
      } else if i < 8 {
        assert t[i] == sorted[i];
        assert sorted[i].key in Ranked;
      }
    }
  }

  /** A permutation of rows with distinct keys has distinct keys. */
  lemma DistinctKeysPermutation(a: seq<SummaryRow>, b: seq<SummaryRow>, i: nat, j: nat)
    requires DistinctKeys(a)
    requires multiset(a) == multiset(b)
    requires i < j < |b|
    ensures b[i].key != b[j].key
  {
    assert b[i] in multiset(a) && b[j] in multiset(a);
    var p :| 0 <= p < |a| && a[p] == b[i];
    var q :| 0 <= q < |a| && a[q] == b[j];
    if p == q {
      OccursOnce(a, p);
      AtLeastTwice(b, i, j);
      assert false;
    }
  }

  /** A row at two positions occurs at least twice. */
  lemma AtLeastTwice(b: seq<SummaryRow>, i: nat, j: nat)
    requires i < j < |b| && b[i] == b[j]
    ensures multiset(b)[b[i]] >= 2
  {
    assert b == b[..i] + [b[i]] + b[i + 1..j] + [b[j]] + b[j + 1..];
  }

  /** In rows with distinct keys, the row at `p` occurs once. */
  lemma {:induction false} OccursOnce(a: seq<SummaryRow>, p: nat)
    requires DistinctKeys(a)
    requires p < |a|
    ensures multiset(a)[a[p]] == 1
  {
    if p == 0 {
      assert a == [a[0]] + a[1..];
      assert a[0] !in a[1..] by {
        forall k | 0 <= k < |a[1..]| ensures a[1..][k] != a[0] {
          assert a[1..][k] == a[k + 1];
        }
      }
    } else {
      assert a == [a[0]] + a[1..];
      assert DistinctKeys(a[1..]) by {
        forall i, j | 0 <= i < j < |a[1..]| ensures a[1..][i].key != a[1..][j].key {
          assert a[1..][i] == a[i + 1] && a[1..][j] == a[j + 1];
        }
      }
      OccursOnce(a[1..], p - 1);
      assert a[1..][p - 1] == a[p];
      assert a[0].key != a[p].key;
    }
  }

  /**
   * `bus-pt` is aggregated above the fixed floor of 100, whatever the
   * caller's threshold: its statistics do not change with the threshold
   * and its selection holds only salaries above 100.
   */
  lemma PartTimeFloorIgnoresLowerThreshold(data: seq<Row>, t1: real, t2: real)
    ensures CategoryStats(data, BusPartTime, t1) == CategoryStats(data, BusPartTime, t2)
    ensures forall x :: x in Selection(Salaries(data), Mask(data, BusPartTime), Floor(BusPartTime, t1)) ==> x > 100.0
  {
    var sel := Selection(Salaries(data), Mask(data, BusPartTime), PartTimeFloor);
    assert sel == Above(Members(Salaries(data), Mask(data, BusPartTime)), PartTimeFloor);
  }

  /**
   * Every other bucket is aggregated above the caller's threshold: over
   * positive salaries, raising it never adds to the bucket's total or
   * its maximum, and leaves its count unchanged.
   */
  lemma LowerThresholdMonotone(data: seq<Row>, c: Category, t1: real, t2: real)
    requires c != BusPartTime
    requires forall r :: r in data ==> r.salary > 0.0
    requires t1 <= t2
    ensures CategoryStats(data, c, t2).num == CategoryStats(data, c, t1).num
    ensures CategoryStats(data, c, t2).subtot <= CategoryStats(data, c, t1).subtot
    ensures CategoryStats(data, c, t2).max.Some? ==>
      CategoryStats(data, c, t1).max.Some? && CategoryStats(data, c, t2).max.value <= CategoryStats(data, c, t1).max.value
  {
    var s := Salaries(data);
    forall i | 0 <= i < |s| ensures s[i] > 0.0 {
      assert data[i] in data;
    }
    RaisingFloor(s, Mask(data, c), t1, t2);
  }

  /**
   * The counts in the table: `all` counts every loaded row, `rest` counts
   * the rows in no named bucket, and the two bus rows together count the
   * bus operators; none of them depends on the threshold.
   */
  lemma SummaryCounts(data: seq<Row>, lowerthres: real)
    ensures var t := Summary(data, lowerthres);
      && t[9].stats.num == |data|
      && t[8].stats.num + CountTrue(UnionMask(data)) == |data|
      && CategoryStats(data, BusFullTime, lowerthres).num + CategoryStats(data, BusPartTime, lowerthres).num
         == CountTrue(Mask(data, BusOps))
  {
    var t := Summary(data, lowerthres);
    AllIsUniversal(data);
    RestIsComplement(data);
    BusOperatorsSplit(data);
    DoplotSpec(Salaries(data), Mask(data, All), Floor(All, lowerthres));
    DoplotSpec(Salaries(data), Mask(data, Rest), Floor(Rest, lowerthres));
    DoplotSpec(Salaries(data), Mask(data, BusFullTime), Floor(BusFullTime, lowerthres));
    DoplotSpec(Salaries(data), Mask(data, BusPartTime), Floor(BusPartTime, lowerthres));
  }

  /** What `parsefilt` returns: the summary table and the loaded rows. */
  datatype Report = Report(table: SummaryTable, data: seq<Row>)

  /** Why `parsefilt` gives no report: the loader's error, or no row left to name the highest earner of. */
  datatype ParsefiltError = LoadFailed(err: LoadError) | NoRows

  /**
   * `data['Salary'].idxmax()` in `summaryplot`: the first row with the
   * highest salary. pandas raises ValueError when there is no row, which
   * is `None` here.
   */
  function MaxEarner(data: seq<Row>): (r: Option<nat>)
    ensures r.None? <==> data == []
    ensures r.Some? ==> r.value < |data| && forall j :: 0 <= j < |data| ==> data[j].salary <= data[r.value].salary
    ensures r.Some? ==> forall j :: 0 <= j < r.value ==> data[j].salary < data[r.value].salary
  {
    if data == [] then None
    else
      match MaxEarner(data[1..])
      case None => Some(0)
      case Some(k) =>
        assert forall j :: 1 <= j < |data| ==> data[j] == data[1..][j - 1];
        if data[1..][k].salary > data[0].salary then Some(k + 1) else Some(0)
  }

  /**
   * Load the file, drop rows without a positive salary, classify and
   * aggregate, then name the highest earner. A rejected suffix, an
   * unsupported year or an unreadable file is returned as the loader's
   * error; when no row is left, `idxmax` fails and so does the call. In
   * the source `lowerthres` defaults to 0.0; here the caller always gives
   * it.
   */
  method Parsefilt(path: string, year: int, content: FileContent, lowerthres: real)
    returns (r: Result<Report, ParsefiltError>)
    ensures Load(path, year, content).Failure? ==> r == Failure(LoadFailed(Load(path, year, content).error))
    ensures Load(path, year, content).Success? && Load(path, year, content).value == [] ==> r == Failure(NoRows)
    ensures Load(path, year, content).Success? && Load(path, year, content).value != [] ==>
      && r.Success?
      && r.value.data == Load(path, year, content).value
      && (forall x :: x in r.value.data ==> x.salary > 0.0)
      && fresh(r.value.table)
      && r.value.table.rows == Summary(r.value.data, lowerthres)
  {
    var loaded := Load(path, year, content);
    if loaded.Failure? {
      return Failure(LoadFailed(loaded.error));
    }
    var data := loaded.value;
    var st := BuildSummary(BucketStats(data, lowerthres));
    if MaxEarner(data).None? {
      return Failure(NoRows);
    }
    return Success(Report(st, data));
  }

  /**
   * The membership vectors the older script also returns, keyed by bucket
   * name, each aligned with the loaded rows.
   */
  function ReturnedMasks(data: seq<Row>): (m: map<string, seq<bool>>)
    ensures m.Keys == {"maint", "police", "signals"}
    ensures forall k :: k in m ==> |m[k]| == |data|
    ensures forall i :: 0 <= i < |data| ==>
      && (m["police"][i] <==> data[i].deptId == Num(PoliceDeptId as real))
      && (m["signals"][i] <==> IsSignals(data[i]))
      && (m["maint"][i] <==> IsMaint(data[i]))
  {
    map["maint" := Mask(data, Maint), "police" := Mask(data, Police), "signals" := Mask(data, Signals)]
  }

  datatype ScriptReport = ScriptReport(table: SummaryTable, data: seq<Row>, masks: map<string, seq<bool>>)

  /** The older script's `parsefilt`: the same work, and the three membership vectors. */
  method ParsefiltScript(path: string, year: int, content: FileContent, lowerthres: real)
    returns (r: Result<ScriptReport, ParsefiltError>)
    ensures Load(path, year, content).Failure? ==> r == Failure(LoadFailed(Load(path, year, content).error))
    ensures Load(path, year, content).Success? && Load(path, year, content).value == [] ==> r == Failure(NoRows)
    ensures Load(path, year, content).Success? && Load(path, year, content).value != [] ==>
      && r.Success?
      && r.value.data == Load(path, year, content).value
      && fresh(r.value.table)
      && r.value.table.rows == Summary(r.value.data, lowerthres)
      && r.value.masks == ReturnedMasks(r.value.data)
  {
    var report := Parsefilt(path, year, content, lowerthres);
    if report.Failure? {
      return Failure(report.error);
    }
    var data := report.value.data;
    return Success(ScriptReport(report.value.table, data, ReturnedMasks(data)));
  }
}
