/**
 * The cleaning statements of the three scripts as step lists, and what each
 * list does to a table.
 */
module Profiles {
  import opened Wrappers
  import opened Cells
  import opened Tables

  /** future50_analysis.py: no dropna; two percentages, the franchising flag and the derived city. */
  const Future50: seq<Step> :=
    [Percent("YOY_Sales"), Percent("YOY_Units"), Flag("Franchising"), City("Location", "City")]

  /** The four column statements of top250_analysis.py, which run after its dropna. */
  const Top250Columns: seq<Step> :=
    [Float("Sales"), Percent("YOY_Sales"), Whole("Units"), Percent("YOY_Units")]

  /** top250_analysis.py: dropna, then sales, two percentages and the unit count. */
  const Top250: seq<Step> := [DropMissing] + Top250Columns

  /** The three column statements of independence100_analysis.py, which run after its dropna. */
  const Independent100Columns: seq<Step> :=
    [Float("Sales"), Float("Average Check"), Whole("Meals Served")]

  /** independence100_analysis.py: dropna, then sales, average check and meals served. */
  const Independent100: seq<Step> := [DropMissing] + Independent100Columns

  // ---------------------------------------------------------------- Future 50

  /** Every cell the Future 50 script converts in this row converts. */
  predicate Future50RowReady(r: Row, p: Parsers) {
    && PercentCell(Get(r, "YOY_Sales"), p.parseFloat).Success?
    && PercentCell(Get(r, "YOY_Units"), p.parseFloat).Success?
    && CityCell(Get(r, "Location")).Success?
  }

  /**
   * `r'` is `r` after the Future 50 statements: YOY_Sales and YOY_Units hold
   * the parsed percentages, Franchising the mapped flag, City the part of
   * Location before its first comma, and every other cell is unchanged.
   */
  ghost predicate Future50Converted(r: Row, r': Row, p: Parsers) {
    && r'.Keys == r.Keys + {"YOY_Sales", "YOY_Units", "Franchising", "City"}
    && PercentCell(Get(r, "YOY_Sales"), p.parseFloat) == Success(Get(r', "YOY_Sales"))
    && PercentCell(Get(r, "YOY_Units"), p.parseFloat) == Success(Get(r', "YOY_Units"))
    && FlagCell(Get(r, "Franchising")) == Get(r', "Franchising")
    && CityCell(Get(r, "Location")) == Success(Get(r', "City"))
    && forall k :: k !in {"YOY_Sales", "YOY_Units", "Franchising", "City"} ==> Get(r', k) == Get(r, k)
  }

  /** The Future 50 statements one after another on one row. */
  lemma Future50Unfold(r: Row, p: Parsers)
    ensures RowSteps(r, Future50, p) ==
      match RowStep(r, Percent("YOY_Sales"), p)
      case Failure(k) => Failure(k)
      case Success(r1) =>
        match RowStep(r1, Percent("YOY_Units"), p)
        case Failure(k) => Failure(k)
        case Success(r2) => RowStep(r2["Franchising" := FlagCell(Get(r2, "Franchising"))], City("Location", "City"), p)
  {
    assert Future50[..3][..2] == Future50[..2];
    assert Future50[..2][..1] == Future50[..1];
    assert Future50[..1][..0] == [];
    assert RowSteps(r, Future50[..1], p) == RowStep(r, Percent("YOY_Sales"), p);
    assert RowSteps(r, Future50[..2], p) ==
      match RowSteps(r, Future50[..1], p)
      case Failure(k) => Failure(k)
      case Success(r1) => RowStep(r1, Percent("YOY_Units"), p);
    assert RowSteps(r, Future50[..3], p) ==
      match RowSteps(r, Future50[..2], p)
      case Failure(k) => Failure(k)
      case Success(r2) => RowStep(r2, Flag("Franchising"), p);
    assert RowSteps(r, Future50, p) ==
      match RowSteps(r, Future50[..3], p)
      case Failure(k) => Failure(k)
      case Success(r3) => RowStep(r3, City("Location", "City"), p);
  }

  /** The Future 50 statements succeed on a row exactly when its percentages parse and its location is text. */
  lemma Future50OnRowSucceeds(r: Row, p: Parsers)
    ensures RowSteps(r, Future50, p).Success? <==> Future50RowReady(r, p)
  {
    Future50Unfold(r, p);
    if RowStep(r, Percent("YOY_Sales"), p).Success? {
      var r1 := RowStep(r, Percent("YOY_Sales"), p).value;
      assert Get(r1, "YOY_Units") == Get(r, "YOY_Units");
      assert Get(r1, "Location") == Get(r, "Location");
    }
  }

  /** What the Future 50 statements make of a row whose percentages parse and whose location is text. */
  function Future50Row(r: Row, p: Parsers): Row
    requires Future50RowReady(r, p)
  {
    r["YOY_Sales" := PercentCell(Get(r, "YOY_Sales"), p.parseFloat).value]
     ["YOY_Units" := PercentCell(Get(r, "YOY_Units"), p.parseFloat).value]
     ["Franchising" := FlagCell(Get(r, "Franchising"))]
     ["City" := CityCell(Get(r, "Location")).value]
  }

  /** The four statements, one at a time, reach `Future50Row`. */
  lemma Future50Chain(r: Row, p: Parsers)
    requires Future50RowReady(r, p)
    ensures RowSteps(r, Future50, p) == Success(Future50Row(r, p))
  {
    var r1 := r["YOY_Sales" := PercentCell(Get(r, "YOY_Sales"), p.parseFloat).value];
    var r2 := r1["YOY_Units" := PercentCell(Get(r, "YOY_Units"), p.parseFloat).value];
    var r3 := r2["Franchising" := FlagCell(Get(r, "Franchising"))];
    assert Future50[..3][..2] == Future50[..2];
    assert Future50[..2][..1] == Future50[..1];
    assert Future50[..1][..0] == [];
    assert RowSteps(r, Future50[..1], p) == Success(r1);
    assert Get(r1, "YOY_Units") == Get(r, "YOY_Units");
    assert RowSteps(r, Future50[..2], p) == Success(r2);
    assert Get(r2, "Franchising") == Get(r, "Franchising");
    assert RowSteps(r, Future50[..3], p) == Success(r3);
    assert Get(r3, "Location") == Get(r, "Location");
  }

  /** `Future50Row` converts the four cells and keeps the others. */
  lemma Future50RowConverted(r: Row, p: Parsers)
    requires Future50RowReady(r, p)
    ensures Future50Converted(r, Future50Row(r, p), p)
  {
    var r4 := Future50Row(r, p);
    assert r4.Keys == r.Keys + {"YOY_Sales"} + {"YOY_Units"} + {"Franchising"} + {"City"};
  }

  /** The Future 50 statements on a row whose percentages parse and whose location is text. */
  lemma Future50OnRow(r: Row, p: Parsers)
    requires Future50RowReady(r, p)
    ensures RowSteps(r, Future50, p).Success?
    ensures Future50Converted(r, RowSteps(r, Future50, p).value, p)
  {
    Future50Chain(r, p);
    Future50RowConverted(r, p);
  }

  /** The Future 50 statements find their columns exactly when the table has the four it reads. */
  lemma Future50Columns(cols: seq<string>)
    ensures SourcesPresent(cols, Future50) <==>
      "YOY_Sales" in cols && "YOY_Units" in cols && "Franchising" in cols && "Location" in cols
    ensures SourcesPresent(cols, Future50) ==> ColumnsAfter(cols, Future50) == AddColumn(cols, "City")
  {
    assert Future50[..3][..2] == Future50[..2];
    assert Future50[..2][..1] == Future50[..1];
    assert Future50[..1][..0] == [];
    assert SourcesPresent(cols, Future50) <==>
      && Future50[0].Source() in ColumnsAfter(cols, Future50[..0])
      && Future50[1].Source() in ColumnsAfter(cols, Future50[..1])
      && Future50[2].Source() in ColumnsAfter(cols, Future50[..2])
      && Future50[3].Source() in ColumnsAfter(cols, Future50[..3]);
  }

  /**
   * Cleaning the Future 50 table fails exactly when one of the four columns
   * it reads is absent, a percentage does not parse or a location is not
   * text. Otherwise it keeps every row, in order: it rewrites YOY_Sales,
   * YOY_Units and Franchising, adds City from Location, and leaves every
   * other cell as it was.
   */
  lemma Future50Clean(t: Table, p: Parsers)
    ensures Normalize(t, Future50, p).Success? <==>
      && "YOY_Sales" in t.columns && "YOY_Units" in t.columns
      && "Franchising" in t.columns && "Location" in t.columns
      && forall i :: 0 <= i < |t.rows| ==> Future50RowReady(t.rows[i], p)
    ensures Normalize(t, Future50, p).Success? ==>
      var out := Normalize(t, Future50, p).value;
      && out.columns == AddColumn(t.columns, "City")
      && |out.rows| == |t.rows|
      && forall i :: 0 <= i < |t.rows| ==> Future50Converted(t.rows[i], out.rows[i], p)
  {
    NormalizeColumnSteps(t, Future50, p);
    Future50Columns(t.columns);
    forall i | 0 <= i < |t.rows|
      ensures RowSteps(t.rows[i], Future50, p).Success? <==> Future50RowReady(t.rows[i], p)
      ensures Future50RowReady(t.rows[i], p) ==>
        Future50Converted(t.rows[i], RowSteps(t.rows[i], Future50, p).value, p)
    {
      Future50OnRowSucceeds(t.rows[i], p);
      if Future50RowReady(t.rows[i], p) {
        Future50OnRow(t.rows[i], p);
      }
    }
  }

  // ---------------------------------------------------------------- Top 250

  /** Every cell the Top 250 script converts in this row converts. */
  predicate Top250RowReady(r: Row, p: Parsers) {
    && FloatCell(Get(r, "Sales"), p.parseFloat).Success?
    && PercentCell(Get(r, "YOY_Sales"), p.parseFloat).Success?
    && WholeCell(Get(r, "Units"), p.parseInt).Success?
    && PercentCell(Get(r, "YOY_Units"), p.parseFloat).Success?
  }

  /**
   * `r'` is `r` after the Top 250 column statements: Sales holds the parsed
   * number, YOY_Sales and YOY_Units the parsed percentages, Units the whole
   * number, and every other cell is unchanged.
   */
  ghost predicate Top250Converted(r: Row, r': Row, p: Parsers) {
    && r'.Keys == r.Keys + {"Sales", "YOY_Sales", "Units", "YOY_Units"}
    && FloatCell(Get(r, "Sales"), p.parseFloat) == Success(Get(r', "Sales"))
    && PercentCell(Get(r, "YOY_Sales"), p.parseFloat) == Success(Get(r', "YOY_Sales"))
    && WholeCell(Get(r, "Units"), p.parseInt) == Success(Get(r', "Units"))
    && PercentCell(Get(r, "YOY_Units"), p.parseFloat) == Success(Get(r', "YOY_Units"))
    && forall k :: k !in {"Sales", "YOY_Sales", "Units", "YOY_Units"} ==> Get(r', k) == Get(r, k)
  }

  /** The Top 250 column statements one after another on one row. */
  lemma Top250Unfold(r: Row, p: Parsers)
    ensures RowSteps(r, Top250Columns, p) ==
      match RowStep(r, Float("Sales"), p)
      case Failure(k) => Failure(k)
      case Success(r1) =>
        match RowStep(r1, Percent("YOY_Sales"), p)
        case Failure(k) => Failure(k)
        case Success(r2) =>
          match RowStep(r2, Whole("Units"), p)
          case Failure(k) => Failure(k)
          case Success(r3) => RowStep(r3, Percent("YOY_Units"), p)
  {
    var s := Top250Columns;
    assert s[..3][..2] == s[..2];
    assert s[..2][..1] == s[..1];
    assert s[..1][..0] == [];
    assert RowSteps(r, s[..1], p) == RowStep(r, Float("Sales"), p);
    assert RowSteps(r, s[..2], p) ==
      match RowSteps(r, s[..1], p)
      case Failure(k) => Failure(k)
      case Success(r1) => RowStep(r1, Percent("YOY_Sales"), p);
    assert RowSteps(r, s[..3], p) ==
      match RowSteps(r, s[..2], p)
      case Failure(k) => Failure(k)
      case Success(r2) => RowStep(r2, Whole("Units"), p);
    assert RowSteps(r, s, p) ==
      match RowSteps(r, s[..3], p)
      case Failure(k) => Failure(k)
      case Success(r3) => RowStep(r3, Percent("YOY_Units"), p);
  }

  /** The Top 250 column statements succeed on a row exactly when each of its four cells converts. */
  lemma Top250OnRowSucceeds(r: Row, p: Parsers)
    ensures RowSteps(r, Top250Columns, p).Success? <==> Top250RowReady(r, p)
  {
    Top250Unfold(r, p);
    if RowStep(r, Float("Sales"), p).Success? {
      var r1 := RowStep(r, Float("Sales"), p).value;
      assert Get(r1, "YOY_Sales") == Get(r, "YOY_Sales");
      if RowStep(r1, Percent("YOY_Sales"), p).Success? {
        var r2 := RowStep(r1, Percent("YOY_Sales"), p).value;
        assert Get(r2, "Units") == Get(r, "Units");
        assert Get(r2, "YOY_Units") == Get(r, "YOY_Units");
      }
    }
  }

  /** What the Top 250 column statements make of a row whose four cells convert. */
  function Top250Row(r: Row, p: Parsers): Row
    requires Top250RowReady(r, p)
  {
    r["Sales" := FloatCell(Get(r, "Sales"), p.parseFloat).value]
     ["YOY_Sales" := PercentCell(Get(r, "YOY_Sales"), p.parseFloat).value]
     ["Units" := WholeCell(Get(r, "Units"), p.parseInt).value]
     ["YOY_Units" := PercentCell(Get(r, "YOY_Units"), p.parseFloat).value]
  }

  /** The four column statements, one at a time, reach `Top250Row`. */
  lemma Top250Chain(r: Row, p: Parsers)
    requires Top250RowReady(r, p)
    ensures RowSteps(r, Top250Columns, p) == Success(Top250Row(r, p))
  {
    var s := Top250Columns;
    var r1 := r["Sales" := FloatCell(Get(r, "Sales"), p.parseFloat).value];
    var r2 := r1["YOY_Sales" := PercentCell(Get(r, "YOY_Sales"), p.parseFloat).value];
    var r3 := r2["Units" := WholeCell(Get(r, "Units"), p.parseInt).value];
    assert s[..3][..2] == s[..2];
    assert s[..2][..1] == s[..1];
    assert s[..1][..0] == [];
    assert RowSteps(r, s[..1], p) == Success(r1);
    assert Get(r1, "YOY_Sales") == Get(r, "YOY_Sales");
    assert RowSteps(r, s[..2], p) == Success(r2);
    assert Get(r2, "Units") == Get(r, "Units");
    assert RowSteps(r, s[..3], p) == Success(r3);
    assert Get(r3, "YOY_Units") == Get(r, "YOY_Units");
  }

  /** `Top250Row` converts the four cells and keeps the others. */
  lemma Top250RowConverted(r: Row, p: Parsers)
    requires Top250RowReady(r, p)
    ensures Top250Converted(r, Top250Row(r, p), p)
  {
    var r4 := Top250Row(r, p);
    assert r4.Keys == r.Keys + {"Sales"} + {"YOY_Sales"} + {"Units"} + {"YOY_Units"};
  }

  /** The Top 250 column statements on a row whose four cells convert. */
  lemma Top250OnRow(r: Row, p: Parsers)
    requires Top250RowReady(r, p)
    ensures RowSteps(r, Top250Columns, p).Success?
    ensures Top250Converted(r, RowSteps(r, Top250Columns, p).value, p)
  {
    Top250Chain(r, p);
    Top250RowConverted(r, p);
  }

  /** The Top 250 column statements find their columns exactly when the table has the four they read, and add none. */
  lemma Top250Columns4(cols: seq<string>)
    ensures SourcesPresent(cols, Top250Columns) <==>
      "Sales" in cols && "YOY_Sales" in cols && "Units" in cols && "YOY_Units" in cols
    ensures SourcesPresent(cols, Top250Columns) ==> ColumnsAfter(cols, Top250Columns) == cols
  {
    var s := Top250Columns;
    assert s[..3][..2] == s[..2];
    assert s[..2][..1] == s[..1];
    assert s[..1][..0] == [];
    assert SourcesPresent(cols, s) <==>
      && s[0].Source() in ColumnsAfter(cols, s[..0])
      && s[1].Source() in ColumnsAfter(cols, s[..1])
      && s[2].Source() in ColumnsAfter(cols, s[..2])
      && s[3].Source() in ColumnsAfter(cols, s[..3]);
  }

  /** The Top 250 column statements on a table: they succeed exactly when the columns are there and every row converts. */
  lemma Top250CleanKept(t: Table, p: Parsers)
    ensures Normalize(t, Top250Columns, p).Success? <==>
      && "Sales" in t.columns && "YOY_Sales" in t.columns
      && "Units" in t.columns && "YOY_Units" in t.columns
      && forall i :: 0 <= i < |t.rows| ==> Top250RowReady(t.rows[i], p)
    ensures Normalize(t, Top250Columns, p).Success? ==>
      var out := Normalize(t, Top250Columns, p).value;
      && out.columns == t.columns
      && |out.rows| == |t.rows|
      && forall i :: 0 <= i < |t.rows| ==> Top250Converted(t.rows[i], out.rows[i], p)
  {
    NormalizeColumnSteps(t, Top250Columns, p);
    Top250Columns4(t.columns);
    forall i | 0 <= i < |t.rows|
      ensures RowSteps(t.rows[i], Top250Columns, p).Success? <==> Top250RowReady(t.rows[i], p)
      ensures Top250RowReady(t.rows[i], p) ==>
        Top250Converted(t.rows[i], RowSteps(t.rows[i], Top250Columns, p).value, p)
    {
      Top250OnRowSucceeds(t.rows[i], p);
      if Top250RowReady(t.rows[i], p) {
        Top250OnRow(t.rows[i], p);
      }
    }
  }

  /**
   * Cleaning the Top 250 table first drops every row with a missing cell;
   * it then fails exactly when one of the four columns it converts is
   * absent or a kept row has a cell that does not convert. Otherwise the
   * columns stay as they were, and each kept row, in order, has its four
   * cells converted and every other cell unchanged.
   */
  lemma Top250Clean(t: Table, p: Parsers)
    ensures Normalize(t, Top250, p).Success? <==>
      && "Sales" in t.columns && "YOY_Sales" in t.columns
      && "Units" in t.columns && "YOY_Units" in t.columns
      && forall i :: 0 <= i < |DropIncomplete(t.rows)| ==> Top250RowReady(DropIncomplete(t.rows)[i], p)
    ensures Normalize(t, Top250, p).Success? ==>
      var out := Normalize(t, Top250, p).value;
      var kept := DropIncomplete(t.rows);
      && out.columns == t.columns
      && |out.rows| == |kept|
      && forall i :: 0 <= i < |kept| ==> Top250Converted(kept[i], out.rows[i], p)
  {
    NormalizeAfterDrop(t, Top250Columns, p);
    Top250CleanKept(Table(t.columns, DropIncomplete(t.rows)), p);
  }

  /**
   * After a successful Top 250 cleaning of a well-formed table, every row
   * has a number in Sales and a whole number in Units, the two columns the
   * script ranks by besides the percentages.
   */
  lemma Top250Metrics(t: Table, p: Parsers)
    requires WellFormed(t) && Normalize(t, Top250, p).Success?
    ensures forall i :: 0 <= i < |Normalize(t, Top250, p).value.rows| ==>
      var r := Normalize(t, Top250, p).value.rows[i];
      IsNumber(Get(r, "Sales")) && IsNumber(Get(r, "Units")) && IsWhole(Get(r, "Units").value.x)
  {
    Top250Clean(t, p);
    var kept := DropIncomplete(t.rows);
    forall i | 0 <= i < |kept| ensures Get(kept[i], "Sales").Some? {
      assert kept[i] in kept;
      DropIncompleteMember(t.rows, kept[i]);
    }
  }

  // ---------------------------------------------------------------- Independent 100

  /** Every cell the Independent 100 script converts in this row converts. */
  predicate Independent100RowReady(r: Row, p: Parsers) {
    && FloatCell(Get(r, "Sales"), p.parseFloat).Success?
    && FloatCell(Get(r, "Average Check"), p.parseFloat).Success?
    && WholeCell(Get(r, "Meals Served"), p.parseInt).Success?
  }

  /**
   * `r'` is `r` after the Independent 100 column statements: Sales and
   * Average Check hold the parsed numbers, Meals Served the whole number,
   * and every other cell is unchanged.
   */
  ghost predicate Independent100Converted(r: Row, r': Row, p: Parsers) {
    && r'.Keys == r.Keys + {"Sales", "Average Check", "Meals Served"}
    && FloatCell(Get(r, "Sales"), p.parseFloat) == Success(Get(r', "Sales"))
    && FloatCell(Get(r, "Average Check"), p.parseFloat) == Success(Get(r', "Average Check"))
    && WholeCell(Get(r, "Meals Served"), p.parseInt) == Success(Get(r', "Meals Served"))
    && forall k :: k !in {"Sales", "Average Check", "Meals Served"} ==> Get(r', k) == Get(r, k)
  }

  /** The Independent 100 column statements one after another on one row. */
  lemma Independent100Unfold(r: Row, p: Parsers)
    ensures RowSteps(r, Independent100Columns, p) ==
      match RowStep(r, Float("Sales"), p)
      case Failure(k) => Failure(k)
      case Success(r1) =>
        match RowStep(r1, Float("Average Check"), p)
        case Failure(k) => Failure(k)
        case Success(r2) => RowStep(r2, Whole("Meals Served"), p)
  {
    var s := Independent100Columns;
    assert s[..2][..1] == s[..1];
    assert s[..1][..0] == [];
    assert RowSteps(r, s[..1], p) == RowStep(r, Float("Sales"), p);
    assert RowSteps(r, s[..2], p) ==
      match RowSteps(r, s[..1], p)
      case Failure(k) => Failure(k)
      case Success(r1) => RowStep(r1, Float("Average Check"), p);
    assert RowSteps(r, s, p) ==
      match RowSteps(r, s[..2], p)
      case Failure(k) => Failure(k)
      case Success(r2) => RowStep(r2, Whole("Meals Served"), p);
  }

  /** The Independent 100 column statements succeed on a row exactly when each of its three cells converts. */
  lemma Independent100OnRowSucceeds(r: Row, p: Parsers)
    ensures RowSteps(r, Independent100Columns, p).Success? <==> Independent100RowReady(r, p)
  {
    Independent100Unfold(r, p);
    if RowStep(r, Float("Sales"), p).Success? {
      var r1 := RowStep(r, Float("Sales"), p).value;
      assert Get(r1, "Average Check") == Get(r, "Average Check");
      assert Get(r1, "Meals Served") == Get(r, "Meals Served");
    }
  }

  /** What the Independent 100 column statements make of a row whose three cells convert. */
  function Independent100Row(r: Row, p: Parsers): Row
    requires Independent100RowReady(r, p)
  {
    r["Sales" := FloatCell(Get(r, "Sales"), p.parseFloat).value]
     ["Average Check" := FloatCell(Get(r, "Average Check"), p.parseFloat).value]
     ["Meals Served" := WholeCell(Get(r, "Meals Served"), p.parseInt).value]
  }

  /** The three column statements, one at a time, reach `Independent100Row`. */
  lemma Independent100Chain(r: Row, p: Parsers)
    requires Independent100RowReady(r, p)
    ensures RowSteps(r, Independent100Columns, p) == Success(Independent100Row(r, p))
  {
    var s := Independent100Columns;
    var r1 := r["Sales" := FloatCell(Get(r, "Sales"), p.parseFloat).value];
    var r2 := r1["Average Check" := FloatCell(Get(r, "Average Check"), p.parseFloat).value];
    assert s[..2][..1] == s[..1];
    assert s[..1][..0] == [];
    assert RowSteps(r, s[..1], p) == Success(r1);
    assert Get(r1, "Average Check") == Get(r, "Average Check");
    assert RowSteps(r, s[..2], p) == Success(r2);
    assert Get(r2, "Meals Served") == Get(r, "Meals Served");
  }

  /** `Independent100Row` converts the three cells and keeps the others. */
  lemma Independent100RowConverted(r: Row, p: Parsers)
    requires Independent100RowReady(r, p)
    ensures Independent100Converted(r, Independent100Row(r, p), p)
  {
    var r3 := Independent100Row(r, p);
    assert r3.Keys == r.Keys + {"Sales"} + {"Average Check"} + {"Meals Served"};
  }

  /** The Independent 100 column statements on a row whose three cells convert. */
  lemma Independent100OnRow(r: Row, p: Parsers)
    requires Independent100RowReady(r, p)
    ensures RowSteps(r, Independent100Columns, p).Success?
    ensures Independent100Converted(r, RowSteps(r, Independent100Columns, p).value, p)
  {
    Independent100Chain(r, p);
    Independent100RowConverted(r, p);
  }

  /** The Independent 100 column statements find their columns exactly when the table has the three they read, and add none. */
  lemma Independent100Columns3(cols: seq<string>)
    ensures SourcesPresent(cols, Independent100Columns) <==>
      "Sales" in cols && "Average Check" in cols && "Meals Served" in cols
    ensures SourcesPresent(cols, Independent100Columns) ==> ColumnsAfter(cols, Independent100Columns) == cols
  {
    var s := Independent100Columns;
    assert s[..2][..1] == s[..1];
    assert s[..1][..0] == [];
    assert SourcesPresent(cols, s) <==>
      && s[0].Source() in ColumnsAfter(cols, s[..0])
      && s[1].Source() in ColumnsAfter(cols, s[..1])
      && s[2].Source() in ColumnsAfter(cols, s[..2]);
  }

  /** The Independent 100 column statements on a table: they succeed exactly when the columns are there and every row converts. */
  lemma Independent100CleanKept(t: Table, p: Parsers)
    ensures Normalize(t, Independent100Columns, p).Success? <==>
      && "Sales" in t.columns && "Average Check" in t.columns && "Meals Served" in t.columns
      && forall i :: 0 <= i < |t.rows| ==> Independent100RowReady(t.rows[i], p)
    ensures Normalize(t, Independent100Columns, p).Success? ==>
      var out := Normalize(t, Independent100Columns, p).value;
      && out.columns == t.columns
      && |out.rows| == |t.rows|
      && forall i :: 0 <= i < |t.rows| ==> Independent100Converted(t.rows[i], out.rows[i], p)
  {
    NormalizeColumnSteps(t, Independent100Columns, p);
    Independent100Columns3(t.columns);
    forall i | 0 <= i < |t.rows|
      ensures RowSteps(t.rows[i], Independent100Columns, p).Success? <==> Independent100RowReady(t.rows[i], p)
      ensures Independent100RowReady(t.rows[i], p) ==>
        Independent100Converted(t.rows[i], RowSteps(t.rows[i], Independent100Columns, p).value, p)
    {
      Independent100OnRowSucceeds(t.rows[i], p);
      if Independent100RowReady(t.rows[i], p) {
        Independent100OnRow(t.rows[i], p);
      }
    }
  }

  /**
   * Cleaning the Independent 100 table first drops every row with a missing
   * cell; it then fails exactly when one of the three columns it converts
   * is absent or a kept row has a cell that does not convert. Otherwise the
   * columns stay as they were, and each kept row, in order, has its three
   * cells converted and every other cell unchanged.
   */
  lemma Independent100Clean(t: Table, p: Parsers)
    ensures Normalize(t, Independent100, p).Success? <==>
      && "Sales" in t.columns && "Average Check" in t.columns && "Meals Served" in t.columns
      && forall i :: 0 <= i < |DropIncomplete(t.rows)| ==> Independent100RowReady(DropIncomplete(t.rows)[i], p)
    ensures Normalize(t, Independent100, p).Success? ==>
      var out := Normalize(t, Independent100, p).value;
      var kept := DropIncomplete(t.rows);
      && out.columns == t.columns
      && |out.rows| == |kept|
      && forall i :: 0 <= i < |kept| ==> Independent100Converted(kept[i], out.rows[i], p)
  {
    NormalizeAfterDrop(t, Independent100Columns, p);
    Independent100CleanKept(Table(t.columns, DropIncomplete(t.rows)), p);
  }

  /**
   * After a successful Independent 100 cleaning of a well-formed table,
   * every row has a number in Sales and Average Check and a whole number in
   * Meals Served, the three columns the script ranks by.
   */
  lemma Independent100Metrics(t: Table, p: Parsers)
    requires WellFormed(t) && Normalize(t, Independent100, p).Success?
    ensures forall i :: 0 <= i < |Normalize(t, Independent100, p).value.rows| ==>
      var r := Normalize(t, Independent100, p).value.rows[i];
      && IsNumber(Get(r, "Sales")) && IsNumber(Get(r, "Average Check"))
      && IsNumber(Get(r, "Meals Served")) && IsWhole(Get(r, "Meals Served").value.x)
  {
    Independent100Clean(t, p);
    var kept := DropIncomplete(t.rows);
    forall i | 0 <= i < |kept| ensures Get(kept[i], "Sales").Some? && Get(kept[i], "Average Check").Some? {
      assert kept[i] in kept;
      DropIncompleteMember(t.rows, kept[i]);
    }
  }
}
