/** One run of the price page, from the two tables' rows to what the page computes.
    The first exception along the way ends the run with that exception's error. */
module App {
  import opened Failures
  import opened PyText
  import opened CurrentPrices
  import opened Calculator
  import opened History
  import opened LongSeries

  /** What a successful run shows. */
  datatype Page = Page(
    prices: seq<PriceRecord>,    // the current-price table
    choices: seq<string>,        // the categories the calculator offers
    pricePerGram: int,           // the selected category's sell price
    history: seq<HistRecord>,    // the historical frame, one record per day
    points: seq<Point>,          // its long form
    range: Option<(int, int)>)   // minimum and maximum price of the long form

  /** What a selectbox over `choices` can hold: nothing when it offers nothing, and
      otherwise one of the offered entries. */
  predicate SelectorValue(choices: seq<string>, selected: Option<string>) {
    && (selected.None? <==> choices == [])
    && (selected.Some? ==> selected.value in choices)
  }

  /** One run. A table is None when the page has no such table or it has no body;
      `selected` is what the category selector over the offered categories holds. */
  function Pipeline(currentTable: Option<seq<Row>>, selected: Option<string>,
                    historyTable: Option<seq<HistRow>>): (r: Result<Page>)
    requires currentTable.Some? ==>
               SelectorValue(AvailableItems(CurrentRecords(currentTable.value)), selected)
    ensures r.Ok? ==> r.value.choices != [] && selected.Some? && selected.value in r.value.choices
    ensures r.Ok? ==> |r.value.points| == 4 * |r.value.history|
                      && (r.value.range.None? <==> r.value.history == [])
  {
    if currentTable.None? then Err(TableMissing)
    else
      var prices := CurrentRecords(currentTable.value);
      var price :- CalculatorPrice(prices, selected);
      if historyTable.None? then Err(TableMissing)
      else
        var history :- HistoricalRecords(historyTable.value);
        var points := Melt(history);
        Ok(Page(prices, AvailableItems(prices), price, history, points, PriceRange(points)))
  }

  /** The script's body inside its try block: each step in source order, the first
      failure ending the run. */
  method Run(currentTable: Option<seq<Row>>, selected: Option<string>,
             historyTable: Option<seq<HistRow>>) returns (r: Result<Page>)
    requires currentTable.Some? ==>
               SelectorValue(AvailableItems(CurrentRecords(currentTable.value)), selected)
    ensures r == Pipeline(currentTable, selected, historyTable)
  {
    if currentTable.None? {
      return Err(TableMissing);
    }
    var prices := ExtractCurrent(currentTable.value);
    var choices := AvailableItems(prices);
    var price := CalculatorPrice(prices, selected);
    if price.Err? {
      return Err(price.error);
    }
    if historyTable.None? {
      return Err(TableMissing);
    }
    var history := ExtractHistorical(historyTable.value);
    if history.Err? {
      return Err(history.error);
    }
    var points := Melt(history.value);
    r := Ok(Page(prices, choices, price.value, history.value, points, PriceRange(points)));
  }

  /** A price the calculator cannot read stops the run before the history is read. */
  lemma {:induction false} PriceFailureAborts(rows: seq<Row>, selected: Option<string>, historyTable: Option<seq<HistRow>>)
    requires SelectorValue(AvailableItems(CurrentRecords(rows)), selected)
    requires CalculatorPrice(CurrentRecords(rows), selected).Err?
    ensures Pipeline(Some(rows), selected, historyTable)
         == Err(CalculatorPrice(CurrentRecords(rows), selected).error)
  {
  }

  /** When no sell text carries the currency word the selector holds nothing, and the
      lookup of nothing fails: the run ends there. */
  lemma {:induction false} NothingOfferedAborts(rows: seq<Row>, selected: Option<string>,
                             historyTable: Option<seq<HistRow>>)
    requires SelectorValue(AvailableItems(CurrentRecords(rows)), selected)
    requires AvailableItems(CurrentRecords(rows)) == []
    ensures Pipeline(Some(rows), selected, historyTable) == Err(CategoryNotFound)
  {
  }

  /** A table of one two-cell row whose sell text is too short to hold the currency
      word, such as [["a", "1"]], offers nothing: the selector holds nothing and the
      run fails. */
  lemma {:induction false} ShortSellAborts(category: string, sell: string, selected: Option<string>,
                                           historyTable: Option<seq<HistRow>>)
    requires |sell| < |Marker|
    requires SelectorValue(AvailableItems(CurrentRecords([[category, sell]])), selected)
    ensures selected == None
    ensures Pipeline(Some([[category, sell]]), selected, historyTable) == Err(CategoryNotFound)
  {
    ShortSellOffersNothing(category, sell);
    NothingOfferedAborts([[category, sell]], selected, historyTable);
  }

  lemma {:induction false} ShortSellOffersNothing(category: string, sell: string)
    requires |sell| < |Marker|
    ensures AvailableItems(CurrentRecords([[category, sell]])) == []
  {
    var record := OneRowRecord(category, sell);
    assert !Contains(record.sell, Marker);
    assert [record][..0] == [];
  }

  lemma {:induction false} OneRowRecord(category: string, sell: string) returns (record: PriceRecord)
    ensures record == PriceRecord(Strip(category), Strip(sell), "")
    ensures CurrentRecords([[category, sell]]) == [record]
  {
    var rows: seq<Row> := [[category, sell]];
    record := PriceRecord(Strip(category), Strip(sell), "");
    assert rows[..0] == [];
  }

  /** A current-price table without any two- or three-cell row leaves the calculator
      nothing to offer, so the run fails. */
  lemma {:induction false} NoPriceRowsAborts(rows: seq<Row>, selected: Option<string>, historyTable: Option<seq<HistRow>>)
    requires SelectorValue(AvailableItems(CurrentRecords(rows)), selected)
    requires forall i :: 0 <= i < |rows| ==> !Accepted(rows[i])
    ensures Pipeline(Some(rows), selected, historyTable) == Err(CategoryNotFound)
  {
    NoChoices(rows);
    NothingOfferedAborts(rows, selected, historyTable);
  }

  /** Without two- or three-cell rows there are no records, so nothing is offered. */
  lemma {:induction false} NoChoices(rows: seq<Row>)
    requires forall i :: 0 <= i < |rows| ==> !Accepted(rows[i])
    ensures AvailableItems(CurrentRecords(rows)) == []
  {
    CurrentCount(rows);
    NoAccepted(rows);
  }

  lemma {:induction false} NoAccepted(rows: seq<Row>)
    requires forall i :: 0 <= i < |rows| ==> !Accepted(rows[i])
    ensures AcceptedCount(rows) == 0
  {
    if rows != [] {
      var n := |rows| - 1;
      assert forall i :: 0 <= i < n ==> rows[..n][i] == rows[i];
      NoAccepted(rows[..n]);
    }
  }

  /** A failing historical row stops the run with the first failing row's error, even
      when the calculator succeeded: the chart is not drawn. */
  lemma {:induction false} HistoryFailureAborts(rows: seq<Row>, selected: Option<string>, hist: seq<HistRow>, k: nat)
    requires SelectorValue(AvailableItems(CurrentRecords(rows)), selected)
    requires CalculatorPrice(CurrentRecords(rows), selected).Ok?
    requires k < |hist| && RowOutcome(hist[k]).Err?
    requires forall j :: 0 <= j < k ==> RowOutcome(hist[j]).Ok?
    ensures Pipeline(Some(rows), selected, Some(hist)) == Err(RowOutcome(hist[k]).error)
  {
    FirstFailureReported(hist, k);
  }

  /** The chart's data drawn from a history: four points per day from which the days
      can be read back, and the exact range of their prices (none for no days). */
  lemma {:induction false} LongForm(history: seq<HistRecord>)
    ensures var points := Melt(history);
            && |points| == 4 * |history|
            && Unmelt(points) == history
            && (history == [] <==> PriceRange(points).None?)
            && (PriceRange(points).Some? ==>
                  forall i, s :: 0 <= i < |history| ==>
                    PriceRange(points).value.0 <= Field(history[i], s) <= PriceRange(points).value.1)
  {
    UnmeltMelt(history);
    if history != [] {
      RangeBounds(history);
    }
  }

  /** A successful run prices an offered category: the selection is one of the offered
      categories, the price is the normalised sell text of the first row carrying it,
      and the range bounds every point of the chart. */
  lemma {:induction false} SuccessfulRun(currentTable: Option<seq<Row>>, selected: Option<string>,
                                         historyTable: Option<seq<HistRow>>, page: Page)
    requires currentTable.Some? ==>
               SelectorValue(AvailableItems(CurrentRecords(currentTable.value)), selected)
    requires Pipeline(currentTable, selected, historyTable) == Ok(page)
    ensures selected.Some? && selected.value in page.choices
    ensures PricedFromFirstRow(page.prices, selected.value, page.pricePerGram)
    ensures page.range.Some? ==>
              forall j :: 0 <= j < |page.points| ==>
                page.range.value.0 <= page.points[j].value <= page.range.value.1
  {
    PageParts(currentTable, selected, historyTable, page);
    PageFacts(page, selected);
  }

  lemma {:induction false} PageFacts(page: Page, selected: Option<string>)
    requires selected.Some? && selected.value in page.choices
    requires page.choices == AvailableItems(page.prices)
    requires CalculatorPrice(page.prices, selected) == Ok(page.pricePerGram)
    requires page.range == PriceRange(page.points)
    ensures PricedFromFirstRow(page.prices, selected.value, page.pricePerGram)
    ensures page.range.Some? ==>
              forall j :: 0 <= j < |page.points| ==>
                page.range.value.0 <= page.points[j].value <= page.range.value.1
  {
    OfferedPrice(page.prices, selected.value, page.pricePerGram);
  }

  /** Category c is priced at `price` as the calculator does it: some row of c carries
      the currency word, and `price` is the normalised sell text of the first row of c. */
  predicate PricedFromFirstRow(prices: seq<PriceRecord>, c: string, price: int) {
    && (exists i :: 0 <= i < |prices| && prices[i].category == c && Contains(prices[i].sell, Marker))
    && (exists i :: && 0 <= i < |prices|
                    && prices[i].category == c
                    && (forall j :: 0 <= j < i ==> prices[j].category != c)
                    && Normalize(prices[i].sell) == Ok(price))
  }

  /** The price the calculator gives for an offered category comes from the first row
      carrying it. */
  lemma {:induction false} OfferedPrice(prices: seq<PriceRecord>, c: string, price: int)
    requires c in AvailableItems(prices)
    requires CalculatorPrice(prices, Some(c)) == Ok(price)
    ensures PricedFromFirstRow(prices, c, price)
  {
    AvailableMember(prices, c);
    var i :| 0 <= i < |prices| && prices[i].category == c && Contains(prices[i].sell, Marker);
    var k := FirstOf(prices, c, i);
    LookupFindsFirst(prices, c, k);
  }

  /** The fields of a successful run's page, as the steps computed them. */
  lemma {:induction false} PageParts(currentTable: Option<seq<Row>>, selected: Option<string>,
                                     historyTable: Option<seq<HistRow>>, page: Page)
    requires currentTable.Some? ==>
               SelectorValue(AvailableItems(CurrentRecords(currentTable.value)), selected)
    requires Pipeline(currentTable, selected, historyTable) == Ok(page)
    ensures currentTable.Some? && historyTable.Some?
    ensures selected.Some? && selected.value in page.choices
    ensures page.prices == CurrentRecords(currentTable.value)
    ensures page.choices == AvailableItems(page.prices)
    ensures CalculatorPrice(page.prices, selected) == Ok(page.pricePerGram)
    ensures page.points == Melt(page.history)
    ensures page.range == PriceRange(page.points)
  {
  }
}
