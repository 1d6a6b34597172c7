# Funeral-home charts: a verified model of the data logic

The repository holds two chart-drawing scripts about the Massachusetts
funeral and cemetery industry. `charts_and_grapsh.py` loads a table of
funeral homes and cleans its price and coordinate columns. It then draws,
among other charts, a hybrid violin/swarm chart of a price by ownership
category, with the median, highest and lowest price of each category
written on the chart. `lobbying_chart.py` compares the lobbying spending of
the funeral-home interests with that of the cemetery interests, year by
year, from data embedded in the script.

This project models the data logic behind those charts and proves what it
promises:

- **Cleaning** (`Cleaning`, with the number grammar in `Decimal`):
  `clean_and_convert_to_numeric`.
  - A numeric column is returned unchanged.
  - A text column has every `$`, `,` and `%` deleted and surrounding
    whitespace stripped.
  - `""`, `"N/A"` and `"nan"` become missing; the rest is parsed as a
    decimal number, and any failure becomes missing.
  - A missing text cell behaves as `"nan"`, which is how `astype(str)`
    renders it.
- **The hybrid chart** (`HybridPlot` for the specification, `HybridChart`
  for the methods; `Stats` holds minimum, median and maximum; `Categories`
  holds the string order and the sorted distinct categories):
  - The caller's axes are an `Axes` object whose state is the ordered log
    of the drawing commands issued on it.
  - `DrawHybridPlot` does what `create_hybrid_plot` does:
    1. drop incomplete rows;
    2. draw a placeholder text when no row is left; otherwise draw the
       violin if some kept row is `Independent`, then the swarm;
    3. in a loop over the sorted categories, draw each category's
       annotations;
    4. set the title and the axis labels.
  - Each method is proved to append exactly the commands a specification
    function describes. The properties of the chart are proved about
    those functions.
- **Table preparation** (`TablePrep`): the two loops at the start of
  `main`.
  - A `Frame` class holds the table's column names, its columns by name
    and its height.
  - `StripText` strips every text column in place.
  - `AddCleanedColumns` adds `<name>_cleaned` for each listed column that
    is present and returns one warning per absent column.
- **Lobbying aggregation** (`Lobbying`): the script's steps as functions
  over already-parsed rows:
  - the year is the first run of four digits in the `Year` text;
  - the years 2017 to 2024 are kept;
  - the three funeral columns and the two cemetery columns are summed per
    row;
  - the rows are ordered by year.

  The embedded data is included and its aggregated table is proved.

`Wrappers` holds the `Option` type.

## Model

| member | source | states |
|---|---|---|
| Cleaning.Clean | charts_and_grapsh.py:8-25 | The result is numeric and as long as the input. A numeric column comes back unchanged. A text column is cleaned cell by cell. |
| Cleaning.CleanIdempotent | charts_and_grapsh.py:14-15 | Cleaning a column twice gives the same column as cleaning it once. |
| Cleaning.AsText | charts_and_grapsh.py:19 | A present text is kept as it is, and a missing cell becomes a placeholder text (`"nan"`). |
| Cleaning.CleanCell | charts_and_grapsh.py:18-25 | A missing cell stays missing. A number comes only from a cell that holds a digit. |
| Cleaning.RemoveSymbols | charts_and_grapsh.py:20 | No `$`, `,` or `%` is left, and the text never grows. |
| Cleaning.RemoveSymbolsAppend | charts_and_grapsh.py:20 | Deleting symbols from two joined texts is deleting them from each part and joining the results. |
| Cleaning.SymbolIgnored | charts_and_grapsh.py:20 | A `$`, `,` or `%` anywhere in a cell does not change how the cell is cleaned. |
| Cleaning.SymbolsIgnored | charts_and_grapsh.py:20 | A cell cleans as it does after all of its symbols are deleted. |
| Cleaning.Strip | charts_and_grapsh.py:21 | The stripped text is no longer than the input, and it neither starts nor ends with whitespace. |
| Cleaning.ParseTrimmed | charts_and_grapsh.py:22-25 | The placeholder texts give a missing value, and a number comes only from a text that holds a digit. The accepted numbers are those of the `Decimal` rows. |
| Cleaning.StripIdempotent | charts_and_grapsh.py:21 | Stripping twice is stripping once. |
| Cleaning.StripParts | charts_and_grapsh.py:21 | Every text is whitespace, then its stripped text, then whitespace. |
| Cleaning.PaddingIgnored | charts_and_grapsh.py:21 | Whitespace around a cell does not change how it is cleaned. |
| Cleaning.StripBeforeClean | charts_and_grapsh.py:21 | Stripping a cell first does not change how it is cleaned. |
| Cleaning.PlaceholdersAreMissing | charts_and_grapsh.py:19-22 | `""`, `"N/A"`, `"nan"` and a missing cell all clean to missing. |
| Cleaning.BlanksAreMissing | charts_and_grapsh.py:21-22 | A cell holding only whitespace cleans to missing. |
| Cleaning.SymbolsOnlyAreMissing | charts_and_grapsh.py:20-22 | `"$"` and `" $ % "` clean to missing. |
| Cleaning.NumeralCleans | charts_and_grapsh.py:25 | A cell holding the decimal digits of a natural number cleans to that number. |
| Cleaning.PlainAmount | charts_and_grapsh.py:25 | Digits, a point and digits clean to the exact fixed-point value. |
| Cleaning.DollarText | charts_and_grapsh.py:20-25 | `$` plus digits, a comma, more digits, a point and cents cleans to the fixed-point number whose whole part joins the two digit runs. |
| Cleaning.CurrencyExample | charts_and_grapsh.py:20-25 | `"$1,234.50"` cleans to 1234.5. |
| Cleaning.PercentExample | charts_and_grapsh.py:20-25 | `"12%"` cleans to 12. |
| Cleaning.PaddedExample | charts_and_grapsh.py:21-25 | `" 7 "` cleans to 7. |
| Cleaning.SeparatorsExample | charts_and_grapsh.py:20-25 | `"1,2,3"` cleans to 123, because a comma is dropped wherever it stands. |
| Decimal.ParseDecimal | charts_and_grapsh.py:25 | A parsed text holds a digit, has only digits and points after its first character, and starts with a digit, a sign or a point. A negative result comes only from a leading `-`. |
| Decimal.WholeAccepted | charts_and_grapsh.py:25 | Every digit string, with no sign, `+` or `-`, is accepted with the value of its digits, negated under `-`. |
| Decimal.FixedAccepted | charts_and_grapsh.py:25 | Every `digits.digits` with at least one digit, with no sign, `+` or `-`, is accepted with the whole part plus the fraction, negated under `-`. |
| Decimal.GrammarOnly | charts_and_grapsh.py:25 | Conversely, every accepted text is such a sign, digits and an optional point with more digits, and its value is the one that form denotes. |
| Decimal.SecondPointRejected | charts_and_grapsh.py:25 | A text with two points is rejected, wherever they stand. |
| Decimal.NumeralValue | charts_and_grapsh.py:25 | The decimal digits written for n have the value n. |
| Decimal.ParseNumeral | charts_and_grapsh.py:25 | The digits of n parse as n. |
| Decimal.ParseNegativeNumeral | charts_and_grapsh.py:25 | `-` followed by the digits of n parses as -n. |
| Decimal.ParseFixedPoint | charts_and_grapsh.py:25 | The digits of n, a point and the digits f parse as n + value(f) / 10^\|f\|. |
| Decimal.DigitsValueAppend | charts_and_grapsh.py:25 | The value of two joined digit runs is the first run's value shifted left by the second run's length, plus the second run's value. |
| Stats.Min | charts_and_grapsh.py:69 | The minimum is one of the values and is at most every value. |
| Stats.Max | charts_and_grapsh.py:70 | The maximum is one of the values and is at least every value. |
| Stats.AscendingSorted | charts_and_grapsh.py:68 | The ascending order of the values is sorted and is a permutation of them. |
| Stats.AscendingUnique | charts_and_grapsh.py:68 | Any sorted permutation of the values is their ascending order. |
| Stats.Median | charts_and_grapsh.py:68 | The median lies between the minimum and the maximum. |
| Stats.MedianOfPermutation | charts_and_grapsh.py:68 | The median does not depend on the order of the values. |
| Stats.MedianOfAscending | charts_and_grapsh.py:68 | For sorted values, the median is the middle value, or the mean of the two middle values when the count is even. |
| Stats.PairMedian | charts_and_grapsh.py:68 | The median of two values is their mean. |
| Stats.ConstantSummary | charts_and_grapsh.py:62-70 | When all values are equal, their minimum, median and maximum are that value. |
| Categories.BelowTransitive | charts_and_grapsh.py:40 | The string order is transitive. |
| Categories.BelowTotal | charts_and_grapsh.py:40 | Of two different strings, one is below the other. |
| Categories.SortedDistinct | charts_and_grapsh.py:40 | The sorted distinct categories are strictly increasing and hold exactly the input's categories. |
| Categories.IncreasingUnique | charts_and_grapsh.py:40 | Two strictly increasing sequences with the same members are equal. |
| HybridPlot.Axes.Issue | charts_and_grapsh.py:37 | Issuing a drawing call appends exactly that command to the axes' log. |
| HybridPlot.Complete | charts_and_grapsh.py:35 | No more rows are kept than there are. Which rows, and in what order, is stated by `CompleteMembers` and `CompleteAppend`. |
| HybridPlot.Where | charts_and_grapsh.py:57 | No more rows are selected than are kept. `WhereMembers` and `WhereAppend` state which rows and in what order. |
| HybridPlot.Order | charts_and_grapsh.py:40 | The order is strictly increasing. `OrderMembers` and `OrderIsSortedUnique` state that it is the sorted distinct categories. |
| HybridPlot.Opening | charts_and_grapsh.py:43-53 | The opening ends with the swarm over the kept rows and the order. A violin over the `Independent` rows, with the same order, comes before it exactly when some kept row is `Independent`. |
| HybridPlot.CategoryAnnotations | charts_and_grapsh.py:56-86 | A category with no values gets nothing, and any other gets one to four commands. `SingleAnnotation` and `SummaryAnnotations` give the commands. |
| HybridPlot.PlotCommands | charts_and_grapsh.py:27-90 | The chart is never empty. It is the placeholder, or it ends with the y-axis label. `PlaceholderIffNoRows` and `SomethingToDraw` state the rest. |
| HybridPlot.Values | charts_and_grapsh.py:57 | The values of a category are the value cells of its rows, in order. |
| HybridPlot.CompleteMembers | charts_and_grapsh.py:35 | A row is kept exactly when both its value and its category are present. |
| HybridPlot.WhereMembers | charts_and_grapsh.py:43 | The rows of a category are exactly the kept rows with that category. |
| HybridPlot.CompleteAppend | charts_and_grapsh.py:35 | Dropping incomplete rows keeps the table order: the kept rows of two parts are those of the first part followed by those of the second. |
| HybridPlot.WhereAppend | charts_and_grapsh.py:43 | Selecting a category keeps the order of the kept rows in the same way. |
| HybridPlot.OrderMembers | charts_and_grapsh.py:40 | A category is in the order exactly when some kept row has it. |
| HybridPlot.OrderIsSortedUnique | charts_and_grapsh.py:40 | The order is the only strictly increasing sequence of the kept rows' categories. |
| HybridPlot.DistinctCheckRedundant | charts_and_grapsh.py:36 | When some row is kept, the order is not empty, so the `nunique() == 0` test never succeeds on its own. |
| HybridPlot.EveryCategoryHasValues | charts_and_grapsh.py:56-59 | Every category in the order has at least one value, so the skip for an empty category is never taken. |
| HybridPlot.NothingToDraw | charts_and_grapsh.py:35-38 | When no row is complete, the axes receive only the "No data available" text. |
| HybridPlot.PlaceholderIffNoRows | charts_and_grapsh.py:35-38 | The chart is just the placeholder exactly when no row is complete. |
| HybridPlot.SomethingToDraw | charts_and_grapsh.py:40-90 | Otherwise, the chart is the opening, the annotations of every category in order, then the title and the two axis labels. |
| HybridPlot.ViolinIffIndependent | charts_and_grapsh.py:43-49 | A violin is drawn exactly when some kept row is `Independent`. It is then the first command and draws only those rows. |
| HybridPlot.DrawnViolin | charts_and_grapsh.py:43-49 | Of the opening, the annotations and the closing labels, there is a violin exactly when some row is `Independent`. |
| HybridPlot.SwarmOverKeptRows | charts_and_grapsh.py:52-53 | When rows remain, a swarm of all kept rows in the category order is drawn. |
| HybridPlot.AnnotationsAreMarks | charts_and_grapsh.py:56-86 | The annotation loop draws no violin. |
| HybridPlot.SingleAnnotation | charts_and_grapsh.py:62-66 | When all `FPG Beers & Story` values are equal, the category gets only one label, at that value. |
| HybridPlot.SummaryAnnotations | charts_and_grapsh.py:67-86 | Any other category gets a median tick from i-0.2 to i+0.2, then median, highest and lowest labels at i. |
| HybridPlot.CategoryAnnotationsPlaced | charts_and_grapsh.py:56-86 | Category i's annotations are ticks and labels at x = i. Each label's value lies between the category's minimum and maximum, and each tick is at the median. |
| HybridPlot.LabelsPlaced | charts_and_grapsh.py:56-86 | Every label the loop draws belongs to an earlier category in the order, and its value lies within that category's minimum and maximum. |
| HybridChart.AnnotateCategory | charts_and_grapsh.py:57-86 | One pass of the loop appends that category's annotations to the log. |
| HybridChart.AnnotateSummary | charts_and_grapsh.py:67-86 | For a category that is not a single-price group, the log gains exactly the median tick and the median, highest and lowest labels. |
| HybridChart.AnnotateAll | charts_and_grapsh.py:56-86 | The loop appends the annotations of every category in the order. |
| HybridChart.DrawOpening | charts_and_grapsh.py:43-53 | The violin, if any, then the swarm, is appended. |
| HybridChart.DrawHybridPlot | charts_and_grapsh.py:27-90 | The log gains exactly the chart's commands. |
| TablePrep.StripTable | charts_and_grapsh.py:104-105 | The names and the height are kept, and a well-formed table stays well formed. `StripKeepsKeys` and `StripTableCols` state the columns: the same names, each column its original passed through `StripColumn`. |
| TablePrep.StripColumn | charts_and_grapsh.py:104-105 | Stripping keeps a column's length and its kind. A numeric column is unchanged, and each cell of a text column is that cell stripped. |
| TablePrep.StripCell | charts_and_grapsh.py:105 | A missing cell stays missing, and a present text is replaced by its stripped text. |
| TablePrep.StripColumnIdempotent | charts_and_grapsh.py:104-105 | Stripping a column twice is stripping it once. |
| TablePrep.CleanIgnoresStrip | charts_and_grapsh.py:104-115 | Cleaning a stripped column gives what cleaning the original gives. |
| TablePrep.StripTableCols | charts_and_grapsh.py:104-105 | Every column of the stripped table is its original column, stripped. |
| TablePrep.StripKeepsKeys | charts_and_grapsh.py:104-105 | The whitespace loop adds or removes no column. |
| TablePrep.Frame.Assign | charts_and_grapsh.py:115 | Assigning a column replaces it where it stands or appends it after the others. |
| TablePrep.Frame.StripText | charts_and_grapsh.py:104-105 | The frame afterwards holds its old table with every text column stripped. |
| TablePrep.Frame.AddCleanedColumns | charts_and_grapsh.py:113-117 | The frame and the warnings are those of the cleaning loop over the listed columns. |
| TablePrep.PrepareFrame | charts_and_grapsh.py:104-117 | Both loops together: the text columns are stripped, then the six listed columns are cleaned. |
| TablePrep.CleanedNameInjective | charts_and_grapsh.py:115 | Two columns get the same cleaned name exactly when they are the same column. |
| TablePrep.Present | charts_and_grapsh.py:114 | Holds exactly the listed columns that the table has. |
| TablePrep.Absent | charts_and_grapsh.py:116-117 | Holds exactly the listed columns that the table lacks. |
| TablePrep.CleanedMembers | charts_and_grapsh.py:115 | A cleaned name is among the new names exactly when its column is among the ones cleaned. |
| TablePrep.AddCleaned | charts_and_grapsh.py:113-117 | The height is kept, the old names stay in front, and there is at most one warning per listed column. `Frame.AddCleanedColumns` keeps the frame well formed, and `AddCleanedFresh` states the rest. |
| TablePrep.AddCleanedFresh | charts_and_grapsh.py:113-117 | With distinct listed columns, none of them the cleaned name of another listed column, and no cleaned name already in the table: the height is kept, and a cleaned column is appended for each present listed column, in list order. Every old column is kept as it was, and each new column is the cleaning of its original. There is one warning per absent listed column. |
| TablePrep.MainPreparation | charts_and_grapsh.py:104-117 | With no cleaned name already in the table, on the table `main` reads: the names gained are exactly the cleaned names of the present listed columns. Each holds the cleaning of the original column, which the stripping does not change. Every original column is kept, stripped, and the warnings name the absent columns. |
| Lobbying.GroupsPartitionColumns | lobbying_chart.py:12 | The header is `Year`, the three funeral columns, the two cemetery columns and `Total`, all distinct. The two groups are disjoint. |
| Lobbying.ColumnAmounts | lobbying_chart.py:12 | Selecting a column by its header name gives that column's amount. |
| Lobbying.FuneralSpending | lobbying_chart.py:39-43 | Funeral Group Spending is the sum of the three funeral columns. |
| Lobbying.CemeterySpending | lobbying_chart.py:44-47 | Cemetery Group Spending is the sum of the two cemetery columns. |
| Lobbying.FirstRun | lobbying_chart.py:33 | The match found is a run of four digits, and no earlier position starts one. No match means no position does. |
| Lobbying.ExtractYear | lobbying_chart.py:33 | There is no year exactly when the text has no four-digit run. Otherwise the year is the value of the leftmost run, below 10000. |
| Lobbying.YearAtStart | lobbying_chart.py:33 | A text starting with four digits has them as its year, whatever follows. |
| Lobbying.YearText | lobbying_chart.py:33 | A four-digit year written out, followed by anything, is read back as that year. |
| Lobbying.PartialYearExample | lobbying_chart.py:13 | `"2025(*Jan-June)"` is read as 2025. |
| Lobbying.PlainYearExample | lobbying_chart.py:14 | `"2024"` is read as 2024. |
| Lobbying.DateAll | lobbying_chart.py:33 | The dating fails exactly when some row has no year. Otherwise each row gets its own year. |
| Lobbying.KeepRange | lobbying_chart.py:36 | Every kept row is dated 2017 to 2024, and no more rows are kept than there are. |
| Lobbying.KeepRangeMembers | lobbying_chart.py:36 | Exactly the rows of 2017 to 2024 are kept. |
| Lobbying.KeepRangeAppend | lobbying_chart.py:36 | The filter keeps table order: filtering joined tables joins the filtered parts. |
| Lobbying.SpendAll | lobbying_chart.py:50-51 | There is one aggregated row per row, with that row's year. `SpendAllAt` states the sums. |
| Lobbying.SpendAllAt | lobbying_chart.py:50-51 | Each aggregated row carries its row's year and the two group sums. |
| Lobbying.SortByYear | lobbying_chart.py:55 | The sort keeps the number of rows. `SortByYearSorted` states the order and the permutation. |
| Lobbying.SortByYearSorted | lobbying_chart.py:55 | The sort gives rows ascending by year, a permutation of its input. |
| Lobbying.SortFalling | lobbying_chart.py:55 | Rows whose years strictly fall come out of the sort reversed. |
| Lobbying.Aggregate | lobbying_chart.py:33-55 | There is no table exactly when the dating fails. Otherwise there are no more rows than entries. `AggregateSpec` states the rest. |
| Lobbying.AggregateSpec | lobbying_chart.py:33-55 | There is no table exactly when some row has no year. Otherwise it has one row per kept row, each kept row's sums, ascending years, and only years from 2017 to 2024. |
| Lobbying.EmbeddedYears | lobbying_chart.py:13-23 | The embedded rows' years count down from 2025 to 2015. |
| Lobbying.KeptCountdown | lobbying_chart.py:36 | Of eleven rows dated 2025 down to 2015, the second to the ninth are kept. |
| Lobbying.AggregateCountdown | lobbying_chart.py:33-55 | Such rows aggregate to eight rows, 2017 to 2024 ascending, each with its row's two sums. |
| Lobbying.EmbeddedAggregate | lobbying_chart.py:13-55 | The embedded data aggregates to eight rows for 2017 to 2024. 2015, 2016 and 2025 are dropped, and 2024 has Funeral 92166 and Cemetery 78000. |

## Left out

- Rendering is not modelled: the violin's shape, the swarm's jitter, colours, font sizes, the theme, the layout and the other charts of `main`. A drawing call is recorded as a command in the axes' log with the data and positions it is given.
- The label text (`${v:,.0f}` and `Median: $…`) is not modelled. A label carries the numeric value it shows and its kind.
- Reading the CSV files and the embedded string, saving figures and the console are not modelled. The model starts from parsed rows, and `main`'s warnings are returned instead of printed.
- The `try/except` around `main` is not modelled, and neither is the `KeyError` raised when a later chart asks for a `_cleaned` column that was never added.
- Decimal.ParseDecimal: the number grammar is an optional sign, then digits with at most one point and at least one digit (`5`, `5.`, `.5`, `5.25`). Values are exact reals. It does not model the exponent, `inf` and `nan` forms that `pd.to_numeric` also accepts, or rounding to binary doubles.
- Stats.Median: the minimum, the maximum, the median (with the mean `(a + b) / 2` of the two middle values) and the values the labels carry are exact reals, not 64-bit floats. Rounding in the mean is not modelled.
- Cleaning.IsSpace: the whitespace set is Python's `str.isspace`, listed explicitly. Digits are ASCII only, whereas the regular expression `\d` on line 33 of lobbying_chart.py also matches other Unicode digits.
- Cleaning.Clean: a text column is assumed to hold only strings and missing cells. Other Python objects in an object column are not modelled.
- TablePrep.MainPreparation: stated only for a table with no `<name>_cleaned` column. When one exists, line 115 replaces it where it stands and the names do not grow. `AddCleaned` and `Frame.Assign` model that case, but no summary lemma states it.
- Lobbying.SortByYear: a stable insertion sort. pandas' `sort_index` does not promise any order among equal years. The embedded data has no equal years.
- Lobbying.Aggregate: when a row has no four-digit year, the `astype(int)` on line 33 raises. The model returns nothing for the whole pipeline.
- The `Total` column of the lobbying data is carried but nothing is stated about it. It is not the sum of the other columns (2024: 172190 against 170166), and the script does not use it.
- The lobbying chart's drawing (its loop over the two series, the axis formatter and the limits) is not modelled.
