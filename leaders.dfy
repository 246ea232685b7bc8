/**
 * The two summaries the scripts report: the ten restaurants with the
 * highest value of a metric (select the name and metric columns, sort by
 * the metric in descending order, keep the first ten), and the ten most
 * frequent values of a column (`value_counts`, first ten).
 */
module Leaders {
  import opened Wrappers
  import opened Cells
  import opened Tables
  import opened Ranking

  /** Both summaries keep this many entries. */
  const TopCount: nat := 10

  // ---------------------------------------------------------------- top rows

  /** The sort key of a row: its number in `metric`; a missing cell is NaN. */
  function MetricKey(metric: string): Row -> Option<real> {
    r => if Get(r, metric).Some? && Get(r, metric).value.Num? then Some(Get(r, metric).value.x) else None
  }

  /** The row restricted to the columns `cols`. */
  function Project(r: Row, cols: set<string>): (r': Row)
    ensures r'.Keys == r.Keys * cols
    ensures forall k :: k in r' ==> r'[k] == r[k]
  {
    map k | k in r.Keys && k in cols :: r[k]
  }

  /** Selecting the name and metric columns: every row restricted to the two, in order. */
  function Projected(rows: seq<Row>, labelCol: string, metric: string): (r: seq<Row>)
    ensures |r| == |rows|
    ensures forall i :: 0 <= i < |rows| ==> r[i] == Project(rows[i], {labelCol, metric})
  {
    seq(|rows|, i requires 0 <= i < |rows| => Project(rows[i], {labelCol, metric}))
  }

  /** Some row holds text in `metric`, which pandas cannot order against numbers. */
  predicate HasTextIn(rows: seq<Row>, metric: string) {
    exists i :: 0 <= i < |rows| && Get(rows[i], metric).Some? && Get(rows[i], metric).value.Text?
  }

  /**
   * The ten rows with the highest `metric`, projected onto `labelCol` and
   * `metric`. Selecting an absent column raises KeyError (the label is looked
   * up first); a text cell in the metric column makes the sort raise.
   */
  function TopRows(t: Table, labelCol: string, metric: string): (res: Result<Table, Error>)
    ensures res.Failure? <==> labelCol !in t.columns || metric !in t.columns || HasTextIn(t.rows, metric)
    ensures labelCol !in t.columns ==> res == Failure(KeyError(labelCol))
    ensures labelCol in t.columns && metric !in t.columns ==> res == Failure(KeyError(metric))
    ensures res.Success? ==>
      var top := res.value.rows;
      var all := Projected(t.rows, labelCol, metric);
      && res.value.columns == [labelCol, metric]
      && |top| == (if TopCount < |t.rows| then TopCount else |t.rows|)
      && multiset(top) <= multiset(all)
      && (forall i, j :: 0 <= i < j < |top| ==> AtLeast(MetricKey(metric)(top[i]), MetricKey(metric)(top[j])))
      && forall x, i :: x in multiset(all) - multiset(top) && 0 <= i < |top| ==>
           AtLeast(MetricKey(metric)(top[i]), MetricKey(metric)(x))
  {
    if labelCol !in t.columns then Failure(KeyError(labelCol))
    else if metric !in t.columns then Failure(KeyError(metric))
    else if HasTextIn(t.rows, metric) then Failure(CellError(TypeError, metric))
    else Success(Table([labelCol, metric], TopK(Projected(t.rows, labelCol, metric), MetricKey(metric), TopCount)))
  }

  /** A row keyed by the table's columns, cut down to two of them, is keyed by those two. */
  lemma ProjectKeys(r: Row, columns: seq<string>, labelCol: string, metric: string)
    requires r.Keys == (set c | c in columns) && labelCol in columns && metric in columns
    ensures Project(r, {labelCol, metric}).Keys == set c | c in [labelCol, metric]
  {
    assert (set c | c in [labelCol, metric]) == {labelCol, metric};
  }

  /** Each ranked row is one input row cut down to the label and the metric, so it is well-formed for them. */
  lemma TopRowsWellFormed(t: Table, labelCol: string, metric: string)
    requires WellFormed(t) && labelCol != metric
    requires labelCol in t.columns && metric in t.columns && !HasTextIn(t.rows, metric)
    ensures WellFormed(TopRows(t, labelCol, metric).value)
    ensures forall i :: 0 <= i < |TopRows(t, labelCol, metric).value.rows| ==>
      exists j :: 0 <= j < |t.rows| && TopRows(t, labelCol, metric).value.rows[i] == Project(t.rows[j], {labelCol, metric})
  {
    var out := TopRows(t, labelCol, metric).value;
    var all := Projected(t.rows, labelCol, metric);
    assert out.columns == [labelCol, metric];
    forall i | 0 <= i < |out.rows|
      ensures exists j :: 0 <= j < |t.rows| && out.rows[i] == Project(t.rows[j], {labelCol, metric})
      ensures out.rows[i].Keys == set c | c in out.columns
    {
      assert out.rows[i] in multiset(all);
      var j :| 0 <= j < |all| && all[j] == out.rows[i];
      ProjectKeys(t.rows[j], t.columns, labelCol, metric);
    }
  }

  // ---------------------------------------------------------------- value counts

  /** One line of `value_counts()`: a value and how many times it occurs. */
  datatype Count = Count(value: Cell, n: nat)

  /** The values present (not missing) in a series, each once, in order of first appearance. */
  function Present(vals: seq<Option<Cell>>): (r: seq<Cell>)
    ensures forall v :: v in r <==> Some(v) in vals
    ensures forall i, j :: 0 <= i < j < |r| ==> r[i] != r[j]
    decreases |vals|
  {
    if vals == [] then []
    else
      var rest := Present(vals[..|vals| - 1]);
      var last := vals[|vals| - 1];
      assert vals == vals[..|vals| - 1] + [last];
      if last.Some? && last.value !in rest then rest + [last.value] else rest
  }

  /** Every present value with its number of occurrences. */
  function Tallies(vals: seq<Option<Cell>>): (r: seq<Count>)
    ensures |r| == |Present(vals)|
    ensures forall i :: 0 <= i < |r| ==> r[i] == Count(Present(vals)[i], multiset(vals)[Some(Present(vals)[i])])
  {
    var ps := Present(vals);
    seq(|ps|, i requires 0 <= i < |ps| => Count(ps[i], multiset(vals)[Some(ps[i])]))
  }

  /** The sort key of a count line: its count. */
  function CountKey(c: Count): Option<real> {
    Some(c.n as real)
  }

  /** `value_counts().head(10)`: missing values are not counted; the ten most frequent values, most frequent first. */
  function ValueCounts(vals: seq<Option<Cell>>): (r: seq<Count>)
    ensures |r| == if TopCount < |Present(vals)| then TopCount else |Present(vals)|
    ensures NonIncreasing(r, CountKey)
  {
    TopK(Tallies(vals), CountKey, TopCount)
  }

  /** Whether `v` has a line among `counts`. */
  predicate Listed(counts: seq<Count>, v: Cell) {
    exists j :: 0 <= j < |counts| && counts[j].value == v
  }

  /** A sequence whose elements are pairwise different holds each value at most once. */
  lemma {:induction false} AtMostOnce<T>(s: seq<T>, x: T)
    requires forall i, j :: 0 <= i < j < |s| ==> s[i] != s[j]
    ensures multiset(s)[x] <= 1
    decreases |s|
  {
    if s != [] {
      assert s == [s[0]] + s[1..];
      AtMostOnce(s[1..], x);
      if x == s[0] {
        assert x !in s[1..] by {
          forall k | 0 <= k < |s[1..]| ensures s[1..][k] != x {
            assert s[1..][k] == s[k + 1];
          }
        }
      }
    }
  }

  /** A value found at two positions occurs at least twice. */
  lemma TwiceAtLeast<T>(s: seq<T>, i: nat, j: nat)
    requires i < j < |s| && s[i] == s[j]
    ensures multiset(s)[s[i]] >= 2
  {
    assert s == s[..j] + s[j..];
    assert s[i] == s[..j][i];
    assert s[j..][0] == s[j];
  }

  /**
   * The counting summary has at most ten lines, one per distinct present
   * value up to ten; each count is the number of times its value occurs,
   * so at least one, and a missing value never gets a line.
   */
  lemma ValueCountsEntries(vals: seq<Option<Cell>>)
    ensures var r := ValueCounts(vals);
      |r| == if TopCount < |Present(vals)| then TopCount else |Present(vals)|
    ensures var r := ValueCounts(vals);
      forall i :: 0 <= i < |r| ==> Some(r[i].value) in vals && r[i].n == multiset(vals)[Some(r[i].value)] && r[i].n > 0
  {
    var r := ValueCounts(vals);
    var ts := Tallies(vals);
    var ps := Present(vals);
    forall i | 0 <= i < |r|
      ensures Some(r[i].value) in vals && r[i].n == multiset(vals)[Some(r[i].value)] && r[i].n > 0
    {
      assert r[i] in multiset(r);
      assert r[i] in ts;
      var m :| 0 <= m < |ts| && ts[m] == r[i];
      assert ps[m] in ps;
    }
  }

  /** No value has two lines, and counts never increase down the list. */
  lemma ValueCountsOrdered(vals: seq<Option<Cell>>)
    ensures var r := ValueCounts(vals);
      forall i, j :: 0 <= i < j < |r| ==> r[i].value != r[j].value && r[j].n <= r[i].n
  {
    var r := ValueCounts(vals);
    var ts := Tallies(vals);
    var ps := Present(vals);
    forall i, j | 0 <= i < j < |r|
      ensures r[i].value != r[j].value && r[j].n <= r[i].n
    {
      assert AtLeast(CountKey(r[i]), CountKey(r[j]));
      if r[i].value == r[j].value {
        ValueCountsEntries(vals);
        assert r[i] == r[j];
        TwiceAtLeast(r, i, j);
        assert forall a, b :: 0 <= a < b < |ts| ==> ts[a] != ts[b] by {
          forall a, b | 0 <= a < b < |ts| ensures ts[a] != ts[b] {
            assert ts[a].value == ps[a];
          }
        }
        AtMostOnce(ts, r[i]);
        assert false;
      }
    }
  }

  /** A present value without a line occurs no more often than any value with one. */
  lemma ValueCountsDominates(vals: seq<Option<Cell>>)
    ensures var r := ValueCounts(vals);
      forall v, i :: Some(v) in vals && !Listed(r, v) && 0 <= i < |r| ==> multiset(vals)[Some(v)] <= r[i].n
  {
    var r := ValueCounts(vals);
    var ts := Tallies(vals);
    var ps := Present(vals);
    forall v, i | Some(v) in vals && !Listed(r, v) && 0 <= i < |r|
      ensures multiset(vals)[Some(v)] <= r[i].n
    {
      assert v in ps;
      var m :| 0 <= m < |ps| && ps[m] == v;
      var c := ts[m];
      assert c.value == v;
      assert c in multiset(ts);
      assert c !in r;
      assert c in multiset(ts) - multiset(r);
      assert AtLeast(CountKey(r[i]), CountKey(c));
    }
  }

  /** The counting summary of one column of a table: KeyError when the column is absent. */
  function CountColumn(t: Table, col: string): (res: Result<seq<Count>, Error>)
    ensures res.Failure? <==> col !in t.columns
    ensures res.Failure? ==> res.error == KeyError(col)
    ensures res.Success? ==> res.value == ValueCounts(ColumnOf(t.rows, col))
  {
    if col in t.columns then Success(ValueCounts(ColumnOf(t.rows, col))) else Failure(KeyError(col))
  }
}
