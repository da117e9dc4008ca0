# Gold prices in Egypt: the extraction pipeline

`gold_prices_app.py` is a Streamlit page. It fetches a gold-price site, reads two HTML
tables and shows three things: the current prices, a per-gram cost calculator, and a
chart with the price range of the previous days. This project models that page's data
pipeline once the HTML tree is set aside and every table row is given as its cell
texts:

- `CurrentPrices`: the current-price table. A row of three cells becomes a
  (category, sell, buy) record of stripped texts. A row of two cells becomes
  (category, sell, ""). Any other row is skipped. `ExtractCurrent` is the loop
  that appends the records.
- `Calculator`: the categories the calculator offers, which are those whose sell
  text contains the currency word "جنيه", in table order. It also covers the
  first-row lookup of the selected category's sell text and the normalisation
  `int(text.replace("جنيه", "").strip())`.
- `History`: the previous-days table. The day label is the stripped text of the
  row's th cell. A row with at least five td cells gives the integers of td 0, 2,
  3 and 4. A shorter row is dropped. A row without a th cell, or a value that is
  not an integer, fails the whole extraction. `ExtractHistorical` is the loop and `ReadRow` its body.
- `LongSeries`: `melt` of the daily records into four points per day. The points
  are series-major: every day's 24-carat price, then 21, then 18, then the ounce.
  Each point carries its series' column label (`Label`). This module also gives the
  minimum and maximum over all points.
- `App`: the computations of one run of the script's `try` block. `Pipeline` is its
  specification and `Run` is the step-by-step method. The first exception ends the
  computation with that exception's error, which the blanket handler reports below
  whatever the page had already shown. The category selector is an input of the run,
  constrained by `SelectorValue` to what a selectbox over the offered categories can
  hold: nothing when nothing is offered, and otherwise one of the offered categories.
- `PyText`: the Python string operations the script relies on:
  - `str.strip()` over the exact `str.isspace` character set;
  - the `in` test;
  - `str.replace(m, "")` as a single left-to-right scan;
  - `int()` on a string.
- `Failures`: the error values. Each exception the script can raise becomes an `Err`.

Three behaviours of the code follow from the way it is written:

- **Bad values.** A historical value or a price that is not an integer is never
  skipped: `int()` raises, and the blanket handler ends the run.
  `History.SucceedsIffEveryRow`, `History.FirstFailureReported` and
  `App.HistoryFailureAborts` state this.
- **Empty current-price table.** The code builds an empty frame without complaint.
  The calculator then has nothing to offer and the lookup fails with an IndexError,
  so the run fails at that step (`App.NoPriceRowsAborts`, `App.NothingOfferedAborts`).
- **Empty history.** The code gives an empty long table whose min and max are NaN.
  The model has no range there (`LongSeries.EmptyHistoryHasNoRange`, `App.LongForm`).

`Calculator.DuplicateCategoryLookup` records a further behaviour of the code. The
lookup takes the first row of the selected category, not the row the filter
offered. With a repeated category label, that row's text need not be a number.

## Model

| member | source | states |
|---|---|---|
| CurrentPrices.RowRecords | gold_prices_app.py:68-72 | a row yields one record exactly when it has two or three cells, and that record's category and sell are its stripped cells 0 and 1 |
| CurrentPrices.CurrentRecords | gold_prices_app.py:66-72 | the table holds one record per two- or three-cell row |
| CurrentPrices.ExtractCurrent | gold_prices_app.py:66-73 | the loop's records are exactly those of the row-by-row specification, appended in row order |
| CurrentPrices.CurrentAppend | gold_prices_app.py:66-73 | rows are processed independently: the records of two consecutive groups of rows are the first group's followed by the second's |
| CurrentPrices.ThreeCellRow | gold_prices_app.py:69-70 | a three-cell row contributes one record of its three stripped texts, in order, at its own place between its neighbours' records |
| CurrentPrices.TwoCellRow | gold_prices_app.py:71-72 | a two-cell row contributes (stripped cell 0, stripped cell 1, "") at its place |
| CurrentPrices.SkippedRow | gold_prices_app.py:67-72 | a row of 0, 1 or more than 3 cells contributes nothing and leaves its neighbours' records unchanged |
| CurrentPrices.CurrentCount | gold_prices_app.py:66-73 | the number of records equals the number of two- or three-cell rows, so it never exceeds the number of rows |
| CurrentPrices.FewerWhenSkipped | gold_prices_app.py:67-72 | a table with a skipped row yields strictly fewer records than rows |
| PyText.StripShape | gold_prices_app.py:70 | the stripped text starts and ends with a non-whitespace character, and is empty exactly when the text is all whitespace |
| PyText.StripPadded | gold_prices_app.py:70 | stripping whitespace padding off a text without surrounding whitespace gives the text back |
| PyText.StripUnpadded | gold_prices_app.py:70 | strip leaves a text that neither starts nor ends with whitespace unchanged |
| PyText.StripIdempotent | gold_prices_app.py:70 | stripping twice is stripping once |
| PyText.StripKeeps | gold_prices_app.py:70 | every non-whitespace character survives stripping, moved left by the length of the leading whitespace |
| PyText.Contains | gold_prices_app.py:85 | the empty marker is in every text, and a marker found is no longer than the text |
| PyText.ContainsIff | gold_prices_app.py:85 | the `in` test holds exactly when the marker occurs at some position of the text |
| PyText.RemoveAll | gold_prices_app.py:88 | replace never lengthens the text, and shortens it exactly when the marker occurs in it |
| PyText.RemoveAbsent | gold_prices_app.py:88 | replace leaves a text without the marker unchanged |
| PyText.RemoveAfter | gold_prices_app.py:88 | replace removes an occurrence of the marker preceded by text that cannot start one, and keeps that text |
| PyText.ParseInt | gold_prices_app.py:88 | int() fails with an error naming the text, and succeeds only on a text that has no information separator and is not blank |
| PyText.ParseSigned | gold_prices_app.py:88 | int() reads back any integer written in decimal, whatever whitespace other than the information separators surrounds it |
| PyText.SignedValue | gold_prices_app.py:88 | the literal str() writes for an integer has that integer's value |
| PyText.ParseDigitRun | gold_prices_app.py:104-107 | int() of a text without information separators that strips to digits (single underscores between them allowed) is the value of those digits |
| PyText.ParseNegativeRun | gold_prices_app.py:104-107 | int() of a text without information separators that strips to a minus sign and digits is the negated value |
| PyText.ParseRejectsForeign | gold_prices_app.py:88 | a character that is not whitespace, a sign, a digit or an underscore makes int() fail |
| PyText.ParseRejectsSeparator | gold_prices_app.py:88 | an information separator (U+001C to U+001F) makes int() fail wherever it stands, although strip() would trim it |
| PyText.ParseRejectsBlank | gold_prices_app.py:88 | int() of an empty or all-whitespace text fails |
| Calculator.AvailableItems | gold_prices_app.py:85 | the filter offers at most one category per row |
| Calculator.AvailableAppend | gold_prices_app.py:85 | the filter treats rows independently and keeps table order |
| Calculator.AvailableMember | gold_prices_app.py:85 | a category is offered if and only if some row with that category has the currency word in its sell text |
| Calculator.SellPriceOf | gold_prices_app.py:87 | the lookup succeeds if and only if some row carries the category, and otherwise fails with the IndexError |
| Calculator.LookupFindsFirst | gold_prices_app.py:87 | the lookup returns the sell text of the first row carrying the category |
| Calculator.LookupMissing | gold_prices_app.py:87 | the lookup fails (IndexError) when no row carries the category |
| Calculator.Normalize | gold_prices_app.py:88 | normalisation fails only with int()'s ValueError |
| Calculator.CalculatorPrice | gold_prices_app.py:86-88 | no selection fails the lookup, and a price is only produced for a selected category that some row carries |
| Calculator.OfferedIsFound | gold_prices_app.py:85-87 | every offered category is found by the lookup |
| Calculator.UniqueOfferedHasMarker | gold_prices_app.py:85-87 | with distinct category labels, the text found for an offered category contains the currency word |
| Calculator.DuplicateCategoryLookup | gold_prices_app.py:85-88 | with a repeated label, an offered category can resolve to an unmarked row whose text is not an integer, and the price fails |
| Calculator.NormalizeUnmarked | gold_prices_app.py:88 | a text without the currency word normalises to int() of its stripped form |
| Calculator.NormalizeWithUnit | gold_prices_app.py:88 | any integer in decimal, whitespace and the currency word normalise to that integer |
| Calculator.NormalizeBare | gold_prices_app.py:88 | any integer in decimal normalises to itself |
| Calculator.NormalizeDash | gold_prices_app.py:88 | a sell text of a lone dash is not an integer |
| Calculator.NormalizeExampleWithUnit | gold_prices_app.py:88 | "1234 جنيه" normalises to 1234 |
| Calculator.NormalizeExampleRejects | gold_prices_app.py:88 | "abc" is not an integer |
| History.RowOutcome | gold_prices_app.py:101-108 | a row that does not fail yields one record if it has at least five td cells and none otherwise; a failing row fails for a missing th or a value that is not an integer |
| History.HistoricalRecords | gold_prices_app.py:99-108 | a successful extraction has at most one record per row |
| History.ExtractHistorical | gold_prices_app.py:99-108 | the loop returns exactly the row-by-row specification: the records of every row in order, or the error of the first failing row |
| History.ReadRow | gold_prices_app.py:101-108 | one pass of the loop body (day label, width test, the four int() calls in column order) yields exactly the row's specified outcome |
| History.HistoricalAppend | gold_prices_app.py:99-108 | rows are processed independently and in order; an earlier failure wins over a later one |
| History.FailureSticks | gold_prices_app.py:99-108 | once a prefix of the rows fails, the whole table fails with that prefix's error |
| History.RowContribution | gold_prices_app.py:101-108 | a wide row that does not fail has a th, all four of td 0, 2, 3 and 4 parse, and its record is its stripped th text with those four values |
| History.ShortRowDropped | gold_prices_app.py:103 | a row with a th and fewer than five td cells is dropped without affecting its siblings |
| History.AcceptedRow | gold_prices_app.py:101-108 | a row with a th and at least five td cells whose td 0, 2, 3 and 4 are integers yields (stripped th, td0, td2, td3, td4) at its place |
| History.SecondCellIgnored | gold_prices_app.py:104-107 | changing td 1 never changes a row's outcome |
| History.SecondCellIgnoredInTable | gold_prices_app.py:99-108 | changing td 1 of any row never changes the table's outcome |
| History.SucceedsIffEveryRow | gold_prices_app.py:99-108 | the extraction succeeds if and only if no row fails: a failing row is never skipped |
| History.FirstFailureReported | gold_prices_app.py:102-107 | the error of the extraction is that of the first failing row |
| History.MissingHeaderAborts | gold_prices_app.py:102 | a row without a th fails the extraction, whatever its width |
| LongSeries.SeriesLabels | gold_prices_app.py:110-111 | the four series carry distinct labels, which in melt's order are the frame's value columns as the script names them |
| LongSeries.Melt | gold_prices_app.py:111 | N records melt to exactly 4 × N points |
| LongSeries.MeltAt | gold_prices_app.py:111 | point k·N + i is day i's value of the k-th series, labelled with day i: series-major, days in input order |
| LongSeries.UnmeltMelt | gold_prices_app.py:111 | melting loses nothing: the records can be read back from the points |
| LongSeries.PointOf | gold_prices_app.py:111 | every value of every day appears among the points |
| LongSeries.PointOrigin | gold_prices_app.py:111 | every point's value is some day's value of some series |
| LongSeries.MinOf | gold_prices_app.py:113 | the minimum is an element of the column and no element is below it |
| LongSeries.MaxOf | gold_prices_app.py:114 | the maximum is an element of the column and no element is above it |
| LongSeries.LeastIs | gold_prices_app.py:113 | the minimum is the unique value that is an element and below no element |
| LongSeries.GreatestIs | gold_prices_app.py:114 | the maximum is the unique value that is an element and above no element |
| LongSeries.PriceRange | gold_prices_app.py:113-114 | there is a range exactly when there is a point; it bounds every point's price and both ends are attained |
| LongSeries.RangeBounds | gold_prices_app.py:113-114 | over a non-empty history every value lies in [min, max], and both are attained by some day and series |
| LongSeries.EmptyHistoryHasNoRange | gold_prices_app.py:113-114 | an empty history melts to no points and has no range |
| LongSeries.ReshapeExample | gold_prices_app.py:110-114 | two days melt to the eight points listed, series-major, with range (80, 520) |
| App.Pipeline | gold_prices_app.py:58-126 | a successful run offers at least one category and has selected one of them; its long form has four points per day and a range exactly when there is a day |
| App.Run | gold_prices_app.py:58-126 | the step-by-step run gives exactly the result of the pipeline specification |
| App.SuccessfulRun | gold_prices_app.py:66-114 | a successful run prices an offered category, at the normalised sell text of the first row carrying it, and its range bounds every point of the chart |
| App.OfferedPrice | gold_prices_app.py:85-88 | the price the calculator gives for an offered category is the normalised sell text of the first row carrying it |
| App.PriceFailureAborts | gold_prices_app.py:88 | a price that cannot be read ends the run with that error, before the history is read |
| App.NothingOfferedAborts | gold_prices_app.py:85-87 | when no category is offered the selector holds nothing and the run fails at the lookup |
| App.ShortSellAborts | gold_prices_app.py:85-87 | a table of one row whose sell text is too short for the currency word, such as [["a", "1"]], leaves the selector empty and fails the run |
| App.NoPriceRowsAborts | gold_prices_app.py:87 | a current table without two- or three-cell rows ends the run with a failed lookup |
| App.HistoryFailureAborts | gold_prices_app.py:99-108 | a failing historical row ends the run with the first failing row's error even after the calculator succeeded |
| App.LongForm | gold_prices_app.py:111-114 | the chart's data has four points per day, from which the days read back, and a range if and only if there is a day, bounding every value |

## Left out

- Fetching the page with `requests.get` (gold_prices_app.py:59) is left out because it is network I/O.
- Parsing the HTML is left out. This covers BeautifulSoup, the `prices-table` class selector, the caption search for "الأيام السابقة", `find_parent` and `tbody`. The model takes each table as an optional sequence of rows. `None` stands for a table or body that is missing, which the code hits as an AttributeError.
- The Streamlit interface is left out: theme, refresh button, widgets and display. The selector's value is an input of the run, limited by `App.SelectorValue` to what the selectbox can hold.
- What the page shows before a failing step is left out. A run that fails at the lookup or the price has already shown the success message, the price table and the calculator's heading; one that fails at the history has also shown the cost line and the chart's heading. The model gives only the error.
- The cost `grams * price_per_gram` and its `,.0f` formatting are left out because they are floating point.
- The chart and its ±2% scale padding are left out because they are rendering and floating point. Only the exact minimum and maximum are modelled.
- The Cairo timestamp is left out because it is a clock and time-zone database.
- PyText.ParseInt: the digits are limited to ASCII, Arabic-Indic (U+0660–0669) and Extended Arabic-Indic (U+06F0–06F9); Python accepts every Unicode decimal digit. Python also refuses a literal of more than 4300 digits (its integer string conversion limit), which the model accepts.
- The integers are unbounded. pandas stores the parsed values as int64, and a value beyond that range is not modelled.
- Calculator.AvailableItems uses a plain substring test. pandas `str.contains` treats the marker as a regular expression, but "جنيه" has no metacharacters, so the two agree.
