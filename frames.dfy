/**
 * The DataFrame each script loads and cleans in place: `dropna(inplace=True)`
 * drops rows from it and every column assignment replaces or adds a column
 * of it. Each script's cleaning is a fixed sequence of such statements; the
 * first one that raises ends the script.
 */
module Frames {
  import opened Wrappers
  import opened Cells
  import opened Tables
  import opened Profiles

  /** A run that failed stays failed however many steps follow it. */
  lemma {:induction false} NormalizeAfterFailure(t: Table, steps: seq<Step>, more: seq<Step>, p: Parsers)
    requires Normalize(t, steps, p).Failure?
    ensures Normalize(t, steps + more, p) == Normalize(t, steps, p)
    decreases |more|
  {
    if more != [] {
      var init := more[..|more| - 1];
      NormalizeAfterFailure(t, steps, init, p);
      assert steps + more == (steps + init) + [more[|more| - 1]];
      NormalizeSnoc(t, steps + init, more[|more| - 1], p);
    } else {
      assert steps + more == steps;
    }
  }

  class DataFrame {
    var columns: seq<string>
    var rows: seq<Row>

    /** The frame as a value. */
    function Value(): Table
      reads this
    {
      Table(columns, rows)
    }

    /**
     * Columns are distinct and every row has a cell in each column. The
     * constructor establishes it and every method that succeeds keeps it. It
     * is tracked for the `WellFormed`-based lemmas; no method needs it to run.
     */
    ghost predicate Valid()
      reads this
    {
      WellFormed(Value())
    }

    /** The frame `read_csv` returns; reading the file is not modelled. */
    constructor(t: Table)
      requires WellFormed(t)
      ensures Value() == t
      ensures Valid()
    {
      columns := t.columns;
      rows := t.rows;
    }

    /** `dropna(inplace=True)`: every row with a missing cell goes; the columns stay. */
    method DropNa()
      modifies this
      ensures columns == old(columns)
      ensures rows == DropIncomplete(old(rows))
      ensures old(Valid()) ==> Valid()
    {
      if Valid() {
        ApplyStepWellFormed(Value(), DropMissing, Parsers(_ => None, _ => None));
      }
      rows := DropIncomplete(rows);
    }

    /**
     * Assigning a converted column: the whole series is converted
     * first, so a KeyError or a failed cell leaves the frame as it was;
     * otherwise column `dst` is replaced, or appended when new.
     */
    method Assign(step: Step, p: Parsers) returns (err: Option<Error>)
      requires IsColumnStep(step)
      modifies this
      ensures err.None? ==> ApplyStep(old(Value()), step, p) == Success(Value())
      ensures err.Some? ==> ApplyStep(old(Value()), step, p) == Failure(err.value) && Value() == old(Value())
      ensures old(Valid()) ==> Valid()
    {
      var src, dst := step.Source(), step.Target();
      if src !in columns {
        return Some(KeyError(src));
      }
      var series := MapSeries(ColumnOf(rows, src), Convert(step, p));
      if series.Failure? {
        return Some(CellError(series.error, src));
      }
      if Valid() {
        ApplyStepWellFormed(Value(), step, p);
      }
      rows := Assigned(rows, dst, series.value);
      columns := AddColumn(columns, dst);
      err := None;
    }

    /**
     * One cleaning statement of a script, continuing a run of `done` from
     * the table `t0`: the run extended by `step` ends in the new frame, or
     * in the error the statement raises.
     */
    method Apply(step: Step, p: Parsers, ghost t0: Table, ghost done: seq<Step>) returns (err: Option<Error>)
      requires Normalize(t0, done, p) == Success(Value())
      modifies this
      ensures err.None? ==> Normalize(t0, done + [step], p) == Success(Value())
      ensures err.Some? ==> Normalize(t0, done + [step], p) == Failure(err.value)
    {
      NormalizeSnoc(t0, done, step, p);
      if step.DropMissing? {
        DropNa();
        err := None;
      } else {
        err := Assign(step, p);
      }
    }

    /**
     * A script's cleaning statements, run in order on the frame: the first
     * one that raises stops the run with its error; otherwise the frame ends
     * as the whole list makes it.
     */
    method Run(steps: seq<Step>, p: Parsers) returns (err: Option<Error>)
      modifies this
      ensures err.None? ==> Normalize(old(Value()), steps, p) == Success(Value())
      ensures err.Some? ==> Normalize(old(Value()), steps, p) == Failure(err.value)
      ensures old(Valid()) && err.None? ==> Valid()
    {
      ghost var t0 := Value();
      var k := 0;
      err := None;
      while k < |steps|
        invariant 0 <= k <= |steps|
        invariant Normalize(t0, steps[..k], p) == Success(Value())
        invariant err.None?
      {
        assert steps[..k] + [steps[k]] == steps[..k + 1];
        err := Apply(steps[k], p, t0, steps[..k]);
        if err.Some? {
          assert steps[..k + 1] + steps[k + 1..] == steps;
          NormalizeAfterFailure(t0, steps[..k + 1], steps[k + 1..], p);
          return;
        }
        k := k + 1;
      }
      assert steps[..k] == steps;
      if WellFormed(t0) {
        NormalizeWellFormed(t0, steps, p);
      }
    }

    /** Lines 38-41 of future50_analysis.py. */
    method CleanFuture50(p: Parsers) returns (err: Option<Error>)
      modifies this
      ensures err.None? ==> Normalize(old(Value()), Future50, p) == Success(Value())
      ensures err.Some? ==> Normalize(old(Value()), Future50, p) == Failure(err.value)
      ensures old(Valid()) && err.None? ==> Valid()
    {
      err := Run(Future50, p);
    }

    /** Lines 37-41 of top250_analysis.py. */
    method CleanTop250(p: Parsers) returns (err: Option<Error>)
      modifies this
      ensures err.None? ==> Normalize(old(Value()), Top250, p) == Success(Value())
      ensures err.Some? ==> Normalize(old(Value()), Top250, p) == Failure(err.value)
      ensures old(Valid()) && err.None? ==> Valid()
    {
      err := Run(Top250, p);
    }

    /** Lines 37-40 of independence100_analysis.py. */
    method CleanIndependent100(p: Parsers) returns (err: Option<Error>)
      modifies this
      ensures err.None? ==> Normalize(old(Value()), Independent100, p) == Success(Value())
      ensures err.Some? ==> Normalize(old(Value()), Independent100, p) == Failure(err.value)
      ensures old(Valid()) && err.None? ==> Valid()
    {
      err := Run(Independent100, p);
    }
  }
}
