/**
 * The table the analysis scripts clean: an ordered list of columns and a
 * sequence of rows, each row a map from column name to an optional cell.
 * Cleaning is a list of steps applied in order; each of the three scripts
 * is one such list (see module Profiles).
 */
module Tables {
  import opened Wrappers
  import opened Cells

  type Row = map<string, Option<Cell>>

  datatype Table = Table(columns: seq<string>, rows: seq<Row>)

  /** The errors a cleaning step raises: a column that is absent, or a cell that cannot be converted. */
  datatype Error = KeyError(col: string) | CellError(kind: ErrKind, col: string)

  ghost predicate Distinct(cols: seq<string>) {
    forall i, j :: 0 <= i < j < |cols| ==> cols[i] != cols[j]
  }

  /** Columns are distinct and every row has a cell, possibly missing, in each of them. */
  ghost predicate WellFormed(t: Table) {
    Distinct(t.columns) && forall i :: 0 <= i < |t.rows| ==> t.rows[i].Keys == set c | c in t.columns
  }

  /** The cell a row holds in a column; a column the row lacks reads as missing. */
  function Get(r: Row, col: string): Option<Cell> {
    if col in r then r[col] else None
  }

  /** A row with no missing cell. */
  predicate Complete(r: Row) {
    forall k :: k in r ==> r[k].Some?
  }

  /** `dropna()`: the rows that have no missing cell, in their original order. */
  function DropIncomplete(rows: seq<Row>): (r: seq<Row>)
    ensures forall i :: 0 <= i < |r| ==> Complete(r[i])
    ensures multiset(r) <= multiset(rows)
    ensures |r| <= |rows|
  {
    if rows == [] then []
    else
      assert rows == [rows[0]] + rows[1..];
      (if Complete(rows[0]) then [rows[0]] else []) + DropIncomplete(rows[1..])
  }

  /** The column `col` as a series, one optional cell per row. */
  function ColumnOf(rows: seq<Row>, col: string): (vals: seq<Option<Cell>>)
    ensures |vals| == |rows|
    ensures forall i :: 0 <= i < |rows| ==> vals[i] == Get(rows[i], col)
  {
    seq(|rows|, i requires 0 <= i < |rows| => Get(rows[i], col))
  }

  /**
   * An element-wise conversion of a series, as pandas evaluates `astype`,
   * `str.rstrip`, `map` and `apply`: it fails if any cell fails.
   */
  function MapSeries(vals: seq<Option<Cell>>, f: Option<Cell> -> Result<Option<Cell>, ErrKind>): (r: Result<seq<Option<Cell>>, ErrKind>)
    ensures r.Success? <==> forall i :: 0 <= i < |vals| ==> f(vals[i]).Success?
    ensures r.Success? ==> |r.value| == |vals|
    ensures r.Success? ==> forall i :: 0 <= i < |vals| ==> f(vals[i]).Success? && r.value[i] == f(vals[i]).value
    ensures r.Failure? ==> exists i :: 0 <= i < |vals| && f(vals[i]) == Failure(r.error)
  {
    if vals == [] then Success([])
    else
      match f(vals[0])
      case Failure(e) => Failure(e)
      case Success(c) =>
        match MapSeries(vals[1..], f)
        case Failure(e) => Failure(e)
        case Success(rest) => Success([c] + rest)
  }

  /** Assigning a series to column `dst`: row i gets `vals[i]` there. */
  function Assigned(rows: seq<Row>, dst: string, vals: seq<Option<Cell>>): (r: seq<Row>)
    requires |vals| == |rows|
    ensures |r| == |rows|
    ensures forall i :: 0 <= i < |rows| ==> r[i] == rows[i][dst := vals[i]]
  {
    seq(|rows|, i requires 0 <= i < |rows| => rows[i][dst := vals[i]])
  }

  /** Assigning to a column that does not exist yet appends it. */
  function AddColumn(cols: seq<string>, c: string): (r: seq<string>)
    ensures c in r && forall d :: d in r <==> d in cols || d == c
    ensures Distinct(cols) ==> Distinct(r)
    ensures |r| == if c in cols then |cols| else |cols| + 1
    ensures r[..|cols|] == cols
  {
    if c in cols then cols else cols + [c]
  }

  /** One cleaning statement of the scripts, parameterised by its column(s). */
  datatype Step =
    | DropMissing                    // drop, in place, every row with a missing cell
    | Float(col: string)             // cast the column to float
    | Percent(col: string)           // strip trailing '%' from the column's text, then cast to float
    | Whole(col: string)             // cast the column to int
    | Flag(col: string)              // map "Yes" to 1 and "No" to 0
    | City(src: string, dst: string) // store in dst the text of src before its first comma
  {
    /** The column a column step reads. */
    function Source(): string
      requires IsColumnStep(this)
    {
      if City? then src else col
    }

    /** The column a column step writes. */
    function Target(): string
      requires IsColumnStep(this)
    {
      if City? then dst else col
    }
  }

  /** The conversion a column step applies to one cell. */
  function ConvertCell(step: Step, p: Parsers, c: Option<Cell>): Result<Option<Cell>, ErrKind>
    requires IsColumnStep(step)
  {
    match step
    case Float(_) => FloatCell(c, p.parseFloat)
    case Percent(_) => PercentCell(c, p.parseFloat)
    case Whole(_) => WholeCell(c, p.parseInt)
    case Flag(_) => Success(FlagCell(c))
    case City(_, _) => CityCell(c)
  }

  /** The element-wise conversion a column step applies to its series. */
  function Convert(step: Step, p: Parsers): Option<Cell> -> Result<Option<Cell>, ErrKind>
    requires IsColumnStep(step)
  {
    c => ConvertCell(step, p, c)
  }

  /** The effect of one step on the table, or the error it raises. */
  function ApplyStep(t: Table, step: Step, p: Parsers): (r: Result<Table, Error>)
    ensures step.DropMissing? ==> r.Success? && r.value.columns == t.columns
    ensures r.Success? ==> |r.value.rows| <= |t.rows|
    ensures r.Success? && IsColumnStep(step) ==>
      r.value.columns == AddColumn(t.columns, step.Target()) && |r.value.rows| == |t.rows|
    ensures IsColumnStep(step) && step.Source() !in t.columns ==> r == Failure(KeyError(step.Source()))
    ensures r.Failure? ==> IsColumnStep(step) && r.error.col == step.Source()
  {
    if step.DropMissing? then Success(Table(t.columns, DropIncomplete(t.rows)))
    else if step.Source() !in t.columns then Failure(KeyError(step.Source()))
    else
      match MapSeries(ColumnOf(t.rows, step.Source()), Convert(step, p))
      case Failure(k) => Failure(CellError(k, step.Source()))
      case Success(vals) => Success(Table(AddColumn(t.columns, step.Target()), Assigned(t.rows, step.Target(), vals)))
  }

  /** What a column step does to one row. */
  function RowStep(r: Row, step: Step, p: Parsers): Result<Row, ErrKind>
    requires IsColumnStep(step)
  {
    match ConvertCell(step, p, Get(r, step.Source()))
    case Failure(k) => Failure(k)
    case Success(c) => Success(r[step.Target() := c])
  }

  /** The steps applied in order; the first error stops the run. */
  function Normalize(t: Table, steps: seq<Step>, p: Parsers): (r: Result<Table, Error>)
    ensures r.Success? ==> |r.value.rows| <= |t.rows|
    ensures r.Success? ==> forall c :: c in t.columns ==> c in r.value.columns
    decreases |steps|
  {
    if steps == [] then Success(t)
    else
      match Normalize(t, steps[..|steps| - 1], p)
      case Failure(e) => Failure(e)
      case Success(t') => ApplyStep(t', steps[|steps| - 1], p)
  }

  /** A step other than `dropna`: it rewrites or adds one column. */
  predicate IsColumnStep(step: Step) {
    !step.DropMissing?
  }

  /** Column steps applied in order to a single row. */
  function RowSteps(r: Row, steps: seq<Step>, p: Parsers): Result<Row, ErrKind>
    requires forall j :: 0 <= j < |steps| ==> IsColumnStep(steps[j])
    decreases |steps|
  {
    if steps == [] then Success(r)
    else
      match RowSteps(r, steps[..|steps| - 1], p)
      case Failure(k) => Failure(k)
      case Success(r') => RowStep(r', steps[|steps| - 1], p)
  }

  /** The columns after a run of steps: each column step's target not yet present is appended. */
  function ColumnsAfter(cols: seq<string>, steps: seq<Step>): seq<string>
    decreases |steps|
  {
    if steps == [] then cols
    else
      var prev, last := ColumnsAfter(cols, steps[..|steps| - 1]), steps[|steps| - 1];
      if IsColumnStep(last) then AddColumn(prev, last.Target()) else prev
  }

  /** Every column step reads a column that exists when it runs. */
  ghost predicate SourcesPresent(cols: seq<string>, steps: seq<Step>) {
    forall j :: 0 <= j < |steps| && IsColumnStep(steps[j]) ==> steps[j].Source() in ColumnsAfter(cols, steps[..j])
  }

  /** Each step keeps the table well formed. */
  lemma ApplyStepWellFormed(t: Table, step: Step, p: Parsers)
    requires WellFormed(t) && ApplyStep(t, step, p).Success?
    ensures WellFormed(ApplyStep(t, step, p).value)
  {
    if step.DropMissing? {
      var r := DropIncomplete(t.rows);
      forall i | 0 <= i < |r| ensures r[i].Keys == set c | c in t.columns {
        assert r[i] in multiset(t.rows);
      }
    } else {
      var t' := ApplyStep(t, step, p).value;
      assert t'.columns == AddColumn(t.columns, step.Target());
      forall i | 0 <= i < |t'.rows| ensures t'.rows[i].Keys == set c | c in t'.columns {
        assert t'.rows[i].Keys == t.rows[i].Keys + {step.Target()};
      }
    }
  }

  /** A whole run of steps keeps the table well formed. */
  lemma {:induction false} NormalizeWellFormed(t: Table, steps: seq<Step>, p: Parsers)
    requires WellFormed(t) && Normalize(t, steps, p).Success?
    ensures WellFormed(Normalize(t, steps, p).value)
    decreases |steps|
  {
    if steps != [] {
      NormalizeWellFormed(t, steps[..|steps| - 1], p);
      ApplyStepWellFormed(Normalize(t, steps[..|steps| - 1], p).value, steps[|steps| - 1], p);
    }
  }

  /** Running one more step continues from where the shorter run ended. */
  lemma NormalizeSnoc(t: Table, steps: seq<Step>, step: Step, p: Parsers)
    ensures Normalize(t, steps + [step], p) ==
      match Normalize(t, steps, p)
      case Failure(e) => Failure(e)
      case Success(t') => ApplyStep(t', step, p)
  {
    assert (steps + [step])[..|steps|] == steps;
  }

  /** `dropna` distributes over concatenation: it keeps rows in their original order. */
  lemma {:induction false} DropIncompleteAppend(a: seq<Row>, b: seq<Row>)
    ensures DropIncomplete(a + b) == DropIncomplete(a) + DropIncomplete(b)
    decreases |a|
  {
    if a == [] {
      assert a + b == b;
    } else {
      assert (a + b)[1..] == a[1..] + b;
      DropIncompleteAppend(a[1..], b);
    }
  }

  /** `dropna` keeps a row exactly when it is complete. */
  lemma DropIncompleteSingle(r: Row)
    ensures DropIncomplete([r]) == if Complete(r) then [r] else []
  {
  }

  /** A row survives `dropna` if and only if it was in the table and is complete. */
  lemma {:induction false} DropIncompleteMember(rows: seq<Row>, r: Row)
    ensures r in DropIncomplete(rows) <==> r in rows && Complete(r)
    decreases |rows|
  {
    if rows != [] {
      DropIncompleteMember(rows[1..], r);
      assert rows == [rows[0]] + rows[1..];
    }
  }

  /** A table with no missing cell loses no row. */
  lemma {:induction false} DropIncompleteAllComplete(rows: seq<Row>)
    requires forall i :: 0 <= i < |rows| ==> Complete(rows[i])
    ensures DropIncomplete(rows) == rows
    decreases |rows|
  {
    if rows != [] {
      DropIncompleteAllComplete(rows[1..]);
    }
  }

  /** A column step succeeds exactly when its source exists and every row converts; it then acts row by row. */
  lemma ColumnStepRows(t: Table, step: Step, p: Parsers)
    requires IsColumnStep(step)
    ensures ApplyStep(t, step, p).Success? <==>
      step.Source() in t.columns && forall i :: 0 <= i < |t.rows| ==> RowStep(t.rows[i], step, p).Success?
    ensures ApplyStep(t, step, p).Success? ==>
      var t' := ApplyStep(t, step, p).value;
      && t'.columns == AddColumn(t.columns, step.Target())
      && |t'.rows| == |t.rows|
      && forall i :: 0 <= i < |t.rows| ==> RowStep(t.rows[i], step, p) == Success(t'.rows[i])
  {
    if step.Source() in t.columns {
      var vals := ColumnOf(t.rows, step.Source());
      var m := MapSeries(vals, Convert(step, p));
      if m.Failure? {
        var i :| 0 <= i < |vals| && Convert(step, p)(vals[i]) == Failure(m.error);
        assert !RowStep(t.rows[i], step, p).Success?;
      } else {
        forall i | 0 <= i < |t.rows| ensures RowStep(t.rows[i], step, p).Success? {
          assert Convert(step, p)(vals[i]).Success?;
        }
      }
    }
  }

  /** A run of column steps finds its sources exactly when the shorter run does and the last step finds its own. */
  lemma SourcesPresentSnoc(cols: seq<string>, steps: seq<Step>)
    requires steps != [] && forall j :: 0 <= j < |steps| ==> IsColumnStep(steps[j])
    ensures SourcesPresent(cols, steps) <==>
      SourcesPresent(cols, steps[..|steps| - 1]) &&
      steps[|steps| - 1].Source() in ColumnsAfter(cols, steps[..|steps| - 1])
  {
    var init := steps[..|steps| - 1];
    forall j | 0 <= j < |init|
      ensures init[j] == steps[j] && init[..j] == steps[..j]
    {
    }
  }

  /**
   * A run of column steps succeeds exactly when every step finds its source
   * column and every row converts; the result is then the rows each taken
   * through the steps, in the same order.
   */
  lemma {:induction false} NormalizeColumnSteps(t: Table, steps: seq<Step>, p: Parsers)
    requires forall j :: 0 <= j < |steps| ==> IsColumnStep(steps[j])
    ensures Normalize(t, steps, p).Success? <==>
      SourcesPresent(t.columns, steps) && forall i :: 0 <= i < |t.rows| ==> RowSteps(t.rows[i], steps, p).Success?
    ensures Normalize(t, steps, p).Success? ==>
      var out := Normalize(t, steps, p).value;
      && out.columns == ColumnsAfter(t.columns, steps)
      && |out.rows| == |t.rows|
      && forall i :: 0 <= i < |t.rows| ==> RowSteps(t.rows[i], steps, p) == Success(out.rows[i])
    decreases |steps|
  {
    if steps != [] {
      var init, last := steps[..|steps| - 1], steps[|steps| - 1];
      NormalizeColumnSteps(t, init, p);
      SourcesPresentSnoc(t.columns, steps);
      if Normalize(t, init, p).Success? {
        NormalizeColumnStepsLast(t, steps, p);
      } else if SourcesPresent(t.columns, init) {
        var i :| 0 <= i < |t.rows| && !RowSteps(t.rows[i], init, p).Success?;
        assert !RowSteps(t.rows[i], steps, p).Success?;
      }
    }
  }

  /** The inductive step of NormalizeColumnSteps, when the shorter run succeeds. */
  lemma NormalizeColumnStepsLast(t: Table, steps: seq<Step>, p: Parsers)
    requires steps != [] && forall j :: 0 <= j < |steps| ==> IsColumnStep(steps[j])
    requires Normalize(t, steps[..|steps| - 1], p).Success?
    requires var out := Normalize(t, steps[..|steps| - 1], p).value;
      && out.columns == ColumnsAfter(t.columns, steps[..|steps| - 1])
      && |out.rows| == |t.rows|
      && forall i :: 0 <= i < |t.rows| ==> RowSteps(t.rows[i], steps[..|steps| - 1], p) == Success(out.rows[i])
    ensures Normalize(t, steps, p).Success? <==>
      steps[|steps| - 1].Source() in ColumnsAfter(t.columns, steps[..|steps| - 1]) &&
      forall i :: 0 <= i < |t.rows| ==> RowSteps(t.rows[i], steps, p).Success?
    ensures Normalize(t, steps, p).Success? ==>
      var out := Normalize(t, steps, p).value;
      && out.columns == ColumnsAfter(t.columns, steps)
      && |out.rows| == |t.rows|
      && forall i :: 0 <= i < |t.rows| ==> RowSteps(t.rows[i], steps, p) == Success(out.rows[i])
  {
    var init, last := steps[..|steps| - 1], steps[|steps| - 1];
    var t' := Normalize(t, init, p).value;
    ColumnStepRows(t', last, p);
    assert forall i :: 0 <= i < |t.rows| ==> RowSteps(t.rows[i], steps, p) == RowStep(t'.rows[i], last, p);
  }

  /** Cleaning that starts with `dropna` runs the remaining steps on the complete rows. */
  lemma {:induction false} NormalizeAfterDrop(t: Table, steps: seq<Step>, p: Parsers)
    ensures Normalize(t, [DropMissing] + steps, p) == Normalize(Table(t.columns, DropIncomplete(t.rows)), steps, p)
    decreases |steps|
  {
    if steps == [] {
      assert [DropMissing] + steps == [] + [DropMissing];
      NormalizeSnoc(t, [], DropMissing, p);
    } else {
      var init, last := steps[..|steps| - 1], steps[|steps| - 1];
      assert [DropMissing] + steps == ([DropMissing] + init) + [last];
      NormalizeSnoc(t, [DropMissing] + init, last, p);
      NormalizeAfterDrop(t, init, p);
    }
  }
}
