# Restaurant analysis: a Dafny model of the cleaning and ranking core

Three pandas scripts analyse three restaurant datasets: Future 50
(`future_50/future50_analysis.py`), Top 250 (`Top_250/top250_analysis.py`)
and Independent 100 (`Independence_100/independence100_analysis.py`). Each
script does the following:

- It installs a `Logger` as standard output, which copies every message to
  the console and to a report file.
- It loads a CSV file into a DataFrame and cleans it in place. The steps are
  `dropna` (Top 250 and Independent 100 only) and column assignments. Those
  assignments strip a trailing `%` and cast to float, cast to float or int,
  map Yes/No to 1/0, and take the city from the location.
- It reports the ten most frequent values of a category column and several
  "top 10 restaurants by metric" tables.

The project models that core:

- `wrappers.dfy` (`Wrappers`): `Option` and `Result`.
- `cells.dfy` (`Cells`): cells (`Text` or `Num`, with a missing cell as
  `None`) and the per-cell conversions. Each conversion either gives the
  converted cell or raises the exception pandas raises.
- `tables.dfy` (`Tables`): tables, the cleaning steps, and `Normalize`, which
  runs a list of steps in order and stops at the first error. It also holds
  the generic lemmas that cut a run of column steps down to its effect on one
  row.
- `profiles.dfy` (`Profiles`): each script's cleaning as a step list. For each
  script it proves exactly when cleaning fails, and what every cell of every
  kept row becomes when it succeeds.
- `ranking.dfy` (`Ranking`): the descending sort with missing keys last, and
  "the first k after sorting".
- `leaders.dfy` (`Leaders`): the top 10 rows by a metric and the top 10
  value counts.
- `frames.dfy` (`Frames`): the DataFrame as a class whose fields the cleaning
  statements update. Its methods are proved against `Normalize`. A script's
  cleaning statements are given as a step list, and `Run` executes them one
  after another, as the script does.
- `logging.dfy` (`Logging`): the `Logger` class.

Parsing text into numbers is a parameter (`Parsers`). Reading the CSV file is
also a parameter: the loaded table is passed to the `DataFrame` constructor.

Behaviour of the code worth noting:

- The Yes/No mapping turns any other value into a missing value (pandas `map`
  with a dictionary). It does not raise.
- A column a statement needs but the table lacks raises `KeyError` at that
  statement. Nothing checks the columns up front.
- The scripts' sort does not promise to keep ties in input order, so no
  property here depends on tie order.
- The Yes/No mapping is not idempotent: mapping the 1 it produced again
  gives a missing value (`Cells.FlagCellNotIdempotent`). A second Future 50
  cleaning as a whole raises AttributeError at the `.str` strip, because the
  column already holds floats; the model does not capture that (see
  `Cells.PercentCell` under "Left out").
- Future 50 cleaning has no `dropna`, so its rows may keep missing cells.

## Model

| member | source | states |
|---|---|---|
| Cells.RStripPercent | future_50/future50_analysis.py:38 | the result is a prefix of the text with no trailing '%', and everything removed was '%' |
| Cells.RStripPercentSuffix | future_50/future50_analysis.py:38 | stripping any run of '%' after a text without a trailing '%' gives that text back |
| Cells.PercentNotScaled | future_50/future50_analysis.py:38-39 | "x%" is cleaned to the number x, not x/100 |
| Cells.PercentCell | Top_250/top250_analysis.py:39 | fails exactly on text whose stripped form does not parse; text whose stripped form parses becomes that number; a non-text cell becomes missing |
| Cells.FloatCell | Top_250/top250_analysis.py:38 | fails exactly on text that does not parse; missing stays missing; a number keeps its value; parseable text becomes its parsed value |
| Cells.FloatCellStable | Top_250/top250_analysis.py:38 | casting an already cast cell to float again gives the same cell |
| Cells.Truncate | Top_250/top250_analysis.py:40 | the float-to-int cast truncates toward zero and leaves whole numbers unchanged |
| Cells.WholeCell | Independence_100/independence100_analysis.py:40 | fails exactly on a missing cell or unparseable text; a number becomes its truncation toward zero; parseable text becomes its parsed integer; a whole number is unchanged |
| Cells.WholeCellStable | Independence_100/independence100_analysis.py:40 | casting an already cast cell to int again gives the same cell, and a cast number lies within 1 of the original, toward zero |
| Cells.FlagCell | future_50/future50_analysis.py:40 | "Yes" maps to 1, "No" maps to 0, and every other value (missing included) maps to missing |
| Cells.FlagCellNotIdempotent | future_50/future50_analysis.py:40 | mapping an already mapped "Yes" or "No" again gives a missing value |
| Cells.BeforeComma | future_50/future50_analysis.py:41 | the city is a prefix of the location without a comma, cut exactly at the first comma |
| Cells.BeforeCommaSplit | future_50/future50_analysis.py:41 | the city of "x,y" is x for a comma-free x, and a comma-free location is its own city |
| Cells.CityCell | future_50/future50_analysis.py:41 | raises AttributeError exactly on a missing or numeric location; otherwise gives the location's text cut at its first comma |
| Tables.DropIncomplete | Top_250/top250_analysis.py:37 | every kept row is complete and every kept row comes from the input |
| Tables.DropIncompleteMember | Top_250/top250_analysis.py:37 | a row is kept if and only if it is an input row with no missing cell |
| Tables.DropIncompleteAppend | Independence_100/independence100_analysis.py:37 | dropping distributes over concatenation, so kept rows keep their order |
| Tables.DropIncompleteAllComplete | Independence_100/independence100_analysis.py:37 | a table without missing cells loses no row |
| Tables.MapSeries | future_50/future50_analysis.py:38-41 | an element-wise conversion succeeds exactly when every cell converts; its result is converted cell by cell, and a failure is some cell's failure |
| Tables.AddColumn | future_50/future50_analysis.py:41 | the existing columns keep their order, a new column goes last (one more column), an existing one stays in place, and names stay distinct |
| Tables.ApplyStep | Top_250/top250_analysis.py:37-41 | `dropna` never fails and keeps the columns; a column statement on an absent column raises KeyError; a failure names the statement's source column; a column statement keeps every row and gives the columns `AddColumn` gives (partner lemmas: ApplyStepWellFormed, ColumnStepRows) |
| Tables.Normalize | Top_250/top250_analysis.py:37-41 | running the statements in order never adds rows and never loses a column (partner lemmas: NormalizeWellFormed, NormalizeColumnSteps, NormalizeAfterDrop) |
| Tables.ApplyStepWellFormed | Top_250/top250_analysis.py:37-41 | each statement keeps every row keyed by exactly the table's columns |
| Tables.NormalizeWellFormed | Top_250/top250_analysis.py:37-41 | a whole cleaning run keeps the table well formed |
| Tables.ColumnStepRows | future_50/future50_analysis.py:38-41 | a column statement succeeds exactly when its source column exists and every row converts, and it then acts row by row |
| Tables.NormalizeColumnSteps | future_50/future50_analysis.py:38-41 | a run of column statements succeeds exactly when each source column exists when its statement runs and every row converts; each output row is its input row run through the statements |
| Tables.NormalizeAfterDrop | Top_250/top250_analysis.py:37-41 | `dropna` followed by column statements is the column statements on the complete rows |
| Profiles.Future50OnRowSucceeds | future_50/future50_analysis.py:38-41 | the Future 50 statements succeed on a row exactly when both percentages convert and the location is text |
| Profiles.Future50OnRow | future_50/future50_analysis.py:38-41 | on such a row: both percentages are converted, Franchising is mapped, City is the location before its comma, and other cells are unchanged |
| Profiles.Future50Columns | future_50/future50_analysis.py:38-41 | the statements find their columns exactly when YOY_Sales, YOY_Units, Franchising and Location exist, and they add City |
| Profiles.Future50Clean | future_50/future50_analysis.py:38-41 | cleaning fails exactly on an absent column or an unconvertible row; otherwise every row is kept in order and converted as above |
| Profiles.Top250OnRowSucceeds | Top_250/top250_analysis.py:38-41 | the Top 250 column statements succeed on a row exactly when its four cells convert |
| Profiles.Top250OnRow | Top_250/top250_analysis.py:38-41 | on such a row: Sales, the two percentages and Units are converted, and other cells are unchanged |
| Profiles.Top250Columns4 | Top_250/top250_analysis.py:38-41 | the statements find their columns exactly when Sales, YOY_Sales, Units and YOY_Units exist, and they add none |
| Profiles.Top250CleanKept | Top_250/top250_analysis.py:38-41 | on any table: success exactly when the columns exist and every row converts, with the columns unchanged and each row converted in place |
| Profiles.Top250Clean | Top_250/top250_analysis.py:37-41 | cleaning drops incomplete rows, then fails exactly on an absent column or an unconvertible kept row; otherwise each kept row is converted, in order |
| Profiles.Top250Metrics | Top_250/top250_analysis.py:84-99 | after cleaning a well-formed table, every row has a number in Sales and a whole number in Units |
| Profiles.Independent100OnRowSucceeds | Independence_100/independence100_analysis.py:38-40 | the Independent 100 column statements succeed on a row exactly when its three cells convert |
| Profiles.Independent100OnRow | Independence_100/independence100_analysis.py:38-40 | on such a row: Sales and Average Check are parsed, Meals Served is whole, and other cells are unchanged |
| Profiles.Independent100Columns3 | Independence_100/independence100_analysis.py:38-40 | the statements find their columns exactly when Sales, Average Check and Meals Served exist, and they add none |
| Profiles.Independent100CleanKept | Independence_100/independence100_analysis.py:38-40 | on any table: success exactly when the columns exist and every row converts, with each row converted in place |
| Profiles.Independent100Clean | Independence_100/independence100_analysis.py:37-40 | cleaning drops incomplete rows, then fails exactly on an absent column or an unconvertible kept row; otherwise each kept row is converted, in order |
| Profiles.Independent100Metrics | Independence_100/independence100_analysis.py:83-93 | after cleaning a well-formed table, Sales and Average Check are numbers and Meals Served is a whole number in every row |
| Ranking.Insert | Top_250/top250_analysis.py:84 | insertion adds exactly the one element |
| Ranking.SortDesc | Top_250/top250_analysis.py:84 | the sort is a permutation of its input |
| Ranking.InsertSorted | Top_250/top250_analysis.py:84 | inserting into a descending sequence keeps it descending |
| Ranking.SortDescSorted | Top_250/top250_analysis.py:84 | the sort's result is in descending key order, with missing keys last |
| Ranking.PrefixDominates | Top_250/top250_analysis.py:84 | in a sorted sequence, each of the first k elements ranks at least as high as every later one |
| Ranking.TopK | Top_250/top250_analysis.py:84 | the first k after sorting: min(k, n) elements drawn from the input, in descending order, each ranking at least as high as every element left out |
| Leaders.TopRows | Top_250/top250_analysis.py:84-99 | KeyError for an absent name or metric column, and an error for text in the metric column; otherwise min(10, n) projected input rows, metric descending, each beating every row left out |
| Leaders.TopRowsWellFormed | future_50/future50_analysis.py:94-99 | each ranked row is some input row cut down to the name and the metric |
| Leaders.Present | future_50/future50_analysis.py:82 | the present values are exactly the non-missing values of the series, each once |
| Leaders.ValueCountsEntries | future_50/future50_analysis.py:82 | at most ten lines, one per distinct present value up to ten; each count is that value's number of occurrences, at least one, and missing values get no line |
| Leaders.ValueCountsOrdered | Top_250/top250_analysis.py:72 | no value has two lines, and counts never increase down the list |
| Leaders.ValueCountsDominates | Independence_100/independence100_analysis.py:71 | a present value without a line occurs no more often than any listed value |
| Leaders.ValueCounts | Top_250/top250_analysis.py:72 | `value_counts().head(10)` gives min(10, number of distinct present values) lines with counts that never increase (partner lemmas: ValueCountsEntries, ValueCountsOrdered, ValueCountsDominates) |
| Leaders.CountColumn | Independence_100/independence100_analysis.py:71 | counting an absent column raises KeyError; otherwise it counts that column's cells |
| Frames.NormalizeAfterFailure | Top_250/top250_analysis.py:37-41 | once a statement raises, the later statements change nothing |
| Frames.DataFrame.constructor | Top_250/top250_analysis.py:32 | the frame holds the loaded table, which is well formed as `read_csv` gives it |
| Frames.DataFrame.DropNa | Top_250/top250_analysis.py:37 | in place: columns unchanged, rows become the complete rows in order, well-formedness kept |
| Frames.DataFrame.Assign | Top_250/top250_analysis.py:38-41 | in place: on success the frame becomes the statement's result; on KeyError or a failed cell it is left unchanged |
| Frames.DataFrame.Apply | Top_250/top250_analysis.py:37-41 | one more statement extends the run so far, with the new frame or the statement's error |
| Frames.DataFrame.Run | Independence_100/independence100_analysis.py:37-40 | running the statements in order leaves the frame as `Normalize` says, or returns the first error; well-formedness is kept |
| Frames.DataFrame.CleanFuture50 | future_50/future50_analysis.py:38-41 | the frame after the Future 50 cleaning is the `Normalize` result, or the error it raises |
| Frames.DataFrame.CleanTop250 | Top_250/top250_analysis.py:37-41 | the frame after the Top 250 cleaning is the `Normalize` result, or the error it raises |
| Frames.DataFrame.CleanIndependent100 | Independence_100/independence100_analysis.py:37-40 | the frame after the Independent 100 cleaning is the `Normalize` result, or the error it raises |
| Logging.Logger.constructor | future_50/future50_analysis.py:16-18 | the report file starts empty (write mode), the console is kept, and the file equals the console text written since creation |
| Logging.Logger.Write | future_50/future50_analysis.py:20-22 | the message is appended unchanged to both the console and the file, so the file still mirrors the console written since the logger was created |
| Logging.Logger.Flush | Top_250/top250_analysis.py:23-24 | flushing changes nothing |
| Logging.Logger.Print | future_50/future50_analysis.py:30 | printing a message appends it and a newline to both outputs |

## Left out

- Charts: histograms, box plots, bar charts, the scatter plot, `savefig` and `show`. They are presentation only.
- Reading the CSV files and writing the cleaned and ranked CSV files. Creating the output directories. These are file I/O, and the loaded table is a parameter.
- Parsing text as float or int. This is the `Parsers` parameter, with `None` where Python raises.
- Formatting printed tables (`head()`, `to_string`). The Logger carries whatever text it is given.
- Restoring standard output at the end of a script, and closing the report file.
- Cells.PercentCell: pandas raises AttributeError when the `.str` accessor is used on a column that holds no text at all. The model treats each non-text cell as missing instead, which is what pandas does in a column of mixed objects.
- Leaders.TopRows: the order of rows with equal metrics is not stated. The model's sort keeps ties in input order, but no contract relies on that.
- Leaders.TopRows: any text cell in the metric column is modelled as an error. Pandas would sort a column made only of text lexicographically instead.
- Leaders.TopRows: selecting the same column twice (name equal to metric) is not modelled.
- Leaders.ValueCountsOrdered: the order of values with equal counts is not stated.
- Cells.FlagCell: the numbers 1 and 0 are reals. Whether pandas stores the column as int or float is not modelled.
- Frames.DataFrame.Run: the frame's state after a statement fails is not stated. The script ends there.
- No up-front column check and no file-not-found or write errors are modelled: the code raises KeyError at the first use of an absent column, and the rest is file I/O.
- Cells.FloatCell: Python's `float` also gives NaN or infinity for text such as "nan" or "inf". The parser's result is a real, so these values are not modelled.
- Cells.WholeCell: `astype(int)` gives 64-bit integers. The model's integers are unbounded, so overflow is not modelled.
