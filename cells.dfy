/**
 * The cell-level cleaning transforms of the three analysis scripts: the
 * trailing-'%' strip, the float and integer casts, the Yes/No flag mapping
 * and the city extraction. Each works on one optional cell, as pandas applies
 * it element by element to a column.
 */
module Cells {
  import opened Wrappers

  /** A table cell: text as read from the CSV file, or a number. */
  datatype Cell = Text(s: string) | Num(x: real)

  /** The exceptions a cell conversion can raise. */
  datatype ErrKind =
    | ValueError      // a cast that cannot convert the cell
    | AttributeError  // a string method called on a cell that is not a string
    | TypeError       // a text value compared with a number while sorting

  /**
   * Text-to-number parsing is not modelled: `parseFloat` plays Python's
   * `float(s)` and `parseInt` plays `int(s)`, each giving `None` where Python
   * raises.
   */
  datatype Parsers = Parsers(parseFloat: string -> Option<real>, parseInt: string -> Option<int>)

  predicate EndsWithPercent(s: string) {
    |s| > 0 && s[|s| - 1] == '%'
  }

  /** `s.rstrip('%')`: every trailing '%' is removed, nothing else. */
  function RStripPercent(s: string): (r: string)
    ensures r <= s
    ensures !EndsWithPercent(r)
    ensures forall i :: |r| <= i < |s| ==> s[i] == '%'
    decreases |s|
  {
    if EndsWithPercent(s) then RStripPercent(s[..|s| - 1]) else s
  }

  /** `s.split(',')[0]`: the text before the first comma. */
  function BeforeComma(s: string): (r: string)
    ensures r <= s
    ensures ',' !in r
    ensures |r| < |s| ==> s[|r|] == ','
  {
    if s == [] || s[0] == ',' then [] else [s[0]] + BeforeComma(s[1..])
  }

  /** A cell that holds a number. */
  predicate IsNumber(c: Option<Cell>) {
    c.Some? && c.value.Num?
  }

  predicate IsWhole(x: real) {
    x == x.Floor as real
  }

  /** Python's `int(x)` on a float: truncation toward zero. */
  function Truncate(x: real): (n: int)
    ensures 0.0 <= x ==> 0 <= n && n as real <= x < n as real + 1.0
    ensures x < 0.0 ==> n <= 0 && n as real - 1.0 < x <= n as real
    ensures IsWhole(x) ==> n as real == x
  {
    if 0.0 <= x then x.Floor
    else
      var m := (-x).Floor;
      assert IsWhole(x) ==> m == -(x.Floor);
      -m
  }

  /** One cell of `column.astype(float)`: numbers stay, text is parsed, missing stays missing. */
  function FloatCell(c: Option<Cell>, parse: string -> Option<real>): (r: Result<Option<Cell>, ErrKind>)
    ensures r.Failure? <==> c.Some? && c.value.Text? && parse(c.value.s).None?
    ensures r.Success? ==> (r.value.None? <==> c.None?) && (r.value.Some? ==> r.value.value.Num?)
    ensures c.Some? && c.value.Num? ==> r == Success(c)
    ensures c.Some? && c.value.Text? && parse(c.value.s).Some? ==>
      r == Success(Some(Num(parse(c.value.s).value)))
  {
    match c
    case None => Success(None)
    case Some(Num(x)) => Success(Some(Num(x)))
    case Some(Text(s)) =>
      match parse(s)
      case None => Failure(ValueError)
      case Some(x) => Success(Some(Num(x)))
  }

  /**
   * One cell of `column.str.rstrip('%').astype(float)`. The `.str` accessor
   * turns a cell that is not a string into a missing one.
   */
  function PercentCell(c: Option<Cell>, parse: string -> Option<real>): (r: Result<Option<Cell>, ErrKind>)
    ensures r.Failure? <==> c.Some? && c.value.Text? && parse(RStripPercent(c.value.s)).None?
    ensures r.Success? && r.value.Some? ==>
      c.Some? && c.value.Text? && r.value.value == Num(parse(RStripPercent(c.value.s)).value)
    ensures c.Some? && c.value.Text? && parse(RStripPercent(c.value.s)).Some? ==>
      r == Success(Some(Num(parse(RStripPercent(c.value.s)).value)))
  {
    match c
    case Some(Text(s)) => FloatCell(Some(Text(RStripPercent(s))), parse)
    case _ => Success(None)
  }

  /**
   * One cell of `column.astype(int)`: a number is truncated toward zero, text
   * is parsed as an integer, and a missing cell cannot be converted.
   */
  function WholeCell(c: Option<Cell>, parse: string -> Option<int>): (r: Result<Option<Cell>, ErrKind>)
    ensures r.Failure? <==> c.None? || (c.value.Text? && parse(c.value.s).None?)
    ensures r.Success? ==> r.value.Some? && r.value.value.Num? && IsWhole(r.value.value.x)
    ensures r.Success? && c.value.Num? && IsWhole(c.value.x) ==> r.value == c
    ensures c.Some? && c.value.Num? ==> r == Success(Some(Num(Truncate(c.value.x) as real)))
    ensures c.Some? && c.value.Text? && parse(c.value.s).Some? ==>
      r == Success(Some(Num(parse(c.value.s).value as real)))
  {
    match c
    case None => Failure(ValueError)
    case Some(Num(x)) => WholeNum(Truncate(x))
    case Some(Text(s)) =>
      match parse(s)
      case None => Failure(ValueError)
      case Some(n) => WholeNum(n)
  }

  function WholeNum(n: int): (r: Result<Option<Cell>, ErrKind>)
    ensures r.Success? && r.value.Some? && r.value.value.Num? && IsWhole(r.value.value.x)
  {
    assert (n as real).Floor == n;
    Success(Some(Num(n as real)))
  }

  /** One cell of the Yes/No mapping: "Yes" is 1, "No" is 0, any other value becomes missing. */
  function FlagCell(c: Option<Cell>): (r: Option<Cell>)
    ensures r == Some(Num(1.0)) <==> c == Some(Text("Yes"))
    ensures r == Some(Num(0.0)) <==> c == Some(Text("No"))
    ensures r.None? <==> c != Some(Text("Yes")) && c != Some(Text("No"))
  {
    if c == Some(Text("Yes")) then Some(Num(1.0))
    else if c == Some(Text("No")) then Some(Num(0.0))
    else None
  }

  /**
   * One cell of the city extraction (text before the first comma): a missing or
   * numeric cell has no `split` method.
   */
  function CityCell(c: Option<Cell>): (r: Result<Option<Cell>, ErrKind>)
    ensures r.Failure? <==> !(c.Some? && c.value.Text?)
    ensures r.Success? ==>
      r.value.Some? && r.value.value.Text? && r.value.value.s <= c.value.s && ',' !in r.value.value.s
    ensures r.Success? ==> r.value == Some(Text(BeforeComma(c.value.s)))
  {
    match c
    case Some(Text(s)) => Success(Some(Text(BeforeComma(s))))
    case _ => Failure(AttributeError)
  }

  /** Whatever run of '%' follows a text, `rstrip('%')` gives the text back. */
  lemma {:induction false} RStripPercentSuffix(x: string, t: string)
    requires !EndsWithPercent(x)
    requires forall i :: 0 <= i < |t| ==> t[i] == '%'
    ensures RStripPercent(x + t) == x
    decreases |t|
  {
    if t == [] {
      assert x + t == x;
    } else {
      var t' := t[..|t| - 1];
      assert (x + t)[..|x + t| - 1] == x + t';
      RStripPercentSuffix(x, t');
    }
  }

  /**
   * The cleaned percentage is the number written before the '%', not that
   * number divided by 100.
   */
  lemma PercentNotScaled(x: string, parse: string -> Option<real>, v: real)
    requires !EndsWithPercent(x) && parse(x) == Some(v)
    ensures PercentCell(Some(Text(x + "%")), parse) == Success(Some(Num(v)))
  {
    RStripPercentSuffix(x, "%");
  }

  /**
   * The city of "x,y" is x when x has no comma, whatever y holds; a location
   * without a comma is its own city.
   */
  lemma {:induction false} BeforeCommaSplit(x: string, y: string)
    requires ',' !in x
    ensures BeforeComma(x + [','] + y) == x
    ensures BeforeComma(x) == x
    decreases |x|
  {
    if x != [] {
      assert (x + [','] + y)[1..] == x[1..] + [','] + y;
      BeforeCommaSplit(x[1..], y);
      assert x == [x[0]] + x[1..];
    }
  }

  /**
   * `astype(float)` on a column it has already converted changes nothing: a
   * converted cell is a number or missing, and both convert to themselves.
   */
  lemma FloatCellStable(c: Option<Cell>, parse: string -> Option<real>)
    requires FloatCell(c, parse).Success?
    ensures FloatCell(FloatCell(c, parse).value, parse) == FloatCell(c, parse)
  {
  }

  /**
   * `astype(int)` on a column it has already converted changes nothing, and a
   * converted cell is the integer nearest to the original toward zero.
   */
  lemma WholeCellStable(c: Option<Cell>, parse: string -> Option<int>)
    requires WholeCell(c, parse).Success?
    ensures WholeCell(WholeCell(c, parse).value, parse) == WholeCell(c, parse)
    ensures c.value.Num? ==>
      var y := WholeCell(c, parse).value.value.x;
      if 0.0 <= c.value.x then 0.0 <= y <= c.value.x < y + 1.0 else y - 1.0 < c.value.x <= y <= 0.0
  {
  }

  /**
   * The Yes/No mapping is not idempotent: mapping a mapped cell again turns
   * the 1 or 0 it produced into a missing value.
   */
  lemma FlagCellNotIdempotent()
    ensures FlagCell(Some(Text("Yes"))) == Some(Num(1.0))
    ensures FlagCell(FlagCell(Some(Text("Yes")))) == None
    ensures FlagCell(FlagCell(Some(Text("No")))) == None
  {
  }
}
