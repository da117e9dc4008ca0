/** The historical table ("previous days"): each body row with at least five td cells
    becomes a day record of four integers read by position; a row without a th
    cell, or a value that is not an integer, stops the whole run. */
module History {
  import opened Failures
  import opened PyText

  /** One body row: the text of its first th cell, if there is one, and the texts of
      its td cells in document order. */
  datatype HistRow = HistRow(header: Option<string>, cells: seq<string>)

  /** One day of the table: gold of 24, 21 and 18 carats per gram, and the ounce. */
  datatype HistRecord = HistRecord(day: string, gold24: int, gold21: int, gold18: int, ounce: int)

  // Column mapping of the site's layout: the td index of each value. The td at
  // index 1 holds no value read here.
  const Gold24Column: nat := 0
  const Gold21Column: nat := 2
  const Gold18Column: nat := 3
  const OunceColumn: nat := 4
  /** Rows with fewer td cells are dropped. */
  const MinCells: nat := 5

  /** int(cells[k].text.strip()). */
  function Cell(cells: seq<string>, k: nat): Result<int>
    requires k < |cells|
  {
    ParseInt(Strip(cells[k]))
  }

  /** What one row contributes: a missing th is an error even for a short row, since
      the day label is read first; a short row contributes nothing; otherwise the four
      values of columns 0, 2, 3 and 4 make one record. */
  function RowOutcome(row: HistRow): (r: Result<seq<HistRecord>>)
    ensures r.Ok? ==> |r.value| == (if |row.cells| >= MinCells then 1 else 0)
    ensures r.Err? ==> r.error == MissingDayHeader || r.error.NotAnInteger?
  {
    match row.header
    case None => Err(MissingDayHeader)
    case Some(th) =>
      if |row.cells| < MinCells then Ok([])
      else
        var day := Strip(th);
        var g24, g21, g18, oz := Cell(row.cells, Gold24Column), Cell(row.cells, Gold21Column),
                                 Cell(row.cells, Gold18Column), Cell(row.cells, OunceColumn);
        DayRecordOne(day, g24, g21, g18, oz);
        DayRecord(day, g24, g21, g18, oz)
  }

  /** The record of one accepted row: the values are parsed in column order and the
      first failure is the error. */
  function DayRecord(day: string, gold24: Result<int>, gold21: Result<int>,
                     gold18: Result<int>, ounce: Result<int>): Result<seq<HistRecord>> {
    var g24 :- gold24;
    var g21 :- gold21;
    var g18 :- gold18;
    var oz :- ounce;
    Ok([HistRecord(day, g24, g21, g18, oz)])
  }

  /** f applied to each element, in order. */
  function Each<A, B>(f: A -> B, xs: seq<A>): seq<B> {
    seq(|xs|, i requires 0 <= i < |xs| => f(xs[i]))
  }

  /** The outcome of each row, in document order. */
  function Outcomes(rows: seq<HistRow>): seq<Result<seq<HistRecord>>> {
    Each(RowOutcome, rows)
  }

  /** Collects row outcomes left to right; the first error, in document order, wins. */
  function Gather(outs: seq<Result<seq<HistRecord>>>): Result<seq<HistRecord>> {
    if outs == [] then Ok([])
    else
      var earlier :- Gather(outs[..|outs| - 1]);
      var last :- outs[|outs| - 1];
      Ok(earlier + last)
  }

  /** The records of the table's rows, or the error of its first failing row. */
  function HistoricalRecords(rows: seq<HistRow>): (r: Result<seq<HistRecord>>)
    ensures r.Ok? ==> |r.value| <= |rows|
  {
    OutcomesCount(rows);
    Gather(Outcomes(rows))
  }

  /** A successful gathering holds at most one record per row. */
  lemma {:induction false} OutcomesCount(rows: seq<HistRow>)
    ensures Gather(Outcomes(rows)).Ok? ==> |Gather(Outcomes(rows)).value| <= |rows|
  {
    var outs := Outcomes(rows);
    GatherOkIff(outs);
    if Gather(outs).Ok? {
      forall i | 0 <= i < |outs| ensures outs[i].Ok? && |outs[i].value| <= 1 {
        assert outs[i] == RowOutcome(rows[i]);
      }
      GatherSize(outs);
    }
  }

  /** One pass of the extraction loop's body: reads the day label, and for a row of at
      least five td cells parses columns 0, 2, 3 and 4, in that order. */
  method ReadRow(row: HistRow) returns (out: Result<seq<HistRecord>>)
    ensures out == RowOutcome(row)
  {
    if row.header.None? {
      return Err(MissingDayHeader);
    }
    var day := Strip(row.header.value);
    if |row.cells| < MinCells {
      return Ok([]);
    }
    var gold24 := ParseInt(Strip(row.cells[Gold24Column]));
    if gold24.Err? {
      return Err(gold24.error);
    }
    var gold21 := ParseInt(Strip(row.cells[Gold21Column]));
    if gold21.Err? {
      return Err(gold21.error);
    }
    var gold18 := ParseInt(Strip(row.cells[Gold18Column]));
    if gold18.Err? {
      return Err(gold18.error);
    }
    var ounce := ParseInt(Strip(row.cells[OunceColumn]));
    if ounce.Err? {
      return Err(ounce.error);
    }
    out := Ok([HistRecord(day, gold24.value, gold21.value, gold18.value, ounce.value)]);
  }

  /** The extraction loop: walks the rows in order and appends what each row yields.
      An exception leaves the loop at once. */
  method ExtractHistorical(rows: seq<HistRow>) returns (r: Result<seq<HistRecord>>)
    ensures r == HistoricalRecords(rows)
  {
    var hist: seq<HistRecord> := [];
    var i := 0;
    while i < |rows|
      invariant 0 <= i <= |rows|
      invariant HistoricalRecords(rows[..i]) == Ok(hist)
    {
      var row := rows[i];
      assert rows[..i + 1] == rows[..i] + [row];
      HistoricalSnoc(rows[..i], row);
      var out := ReadRow(row);
      if out.Err? {
        FailureSticks(rows, i + 1);
        return Err(out.error);
      }
      hist := hist + out.value;
      i := i + 1;
    }
    assert rows[..i] == rows;
    r := Ok(hist);
  }

  /** Combining the outcomes of two consecutive groups of rows: the earlier error wins. */
  function Join(x: Result<seq<HistRecord>>, y: Result<seq<HistRecord>>): Result<seq<HistRecord>> {
    match x
    case Err(e) => Err(e)
    case Ok(a) =>
      match y
      case Err(e) => Err(e)
      case Ok(b) => Ok(a + b)
  }

  // ---------------------------------------------------------------------------
  // Gathering row outcomes, whatever the rows are

  /** Outcomes of consecutive groups combine by Join. */
  lemma {:induction false} GatherAppend(x: seq<Result<seq<HistRecord>>>, y: seq<Result<seq<HistRecord>>>)
    ensures Gather(x + y) == Join(Gather(x), Gather(y))
    decreases |y|
  {
    if y == [] {
      assert x + y == x;
      match Gather(x)
      case Err(_) =>
      case Ok(u) => assert u + [] == u;
    } else {
      var y' := y[..|y| - 1];
      assert (x + y)[..|x + y| - 1] == x + y';
      assert (x + y)[|x + y| - 1] == y[|y| - 1];
      GatherAppend(x, y');
      match Gather(x)
      case Err(_) =>
      case Ok(u) =>
        match Gather(y')
        case Err(_) =>
        case Ok(v) =>
          match y[|y| - 1]
          case Err(_) =>
          case Ok(w) => assert u + (v + w) == u + v + w;
    }
  }

  lemma {:induction false} GatherOne(o: Result<seq<HistRecord>>)
    ensures Gather([o]) == o
  {
    assert [o][..0] == [];
    match o
    case Err(_) =>
    case Ok(v) => assert [] + v == v;
  }

  /** Gathering succeeds exactly when every outcome is a success. */
  lemma {:induction false} GatherOkIff(outs: seq<Result<seq<HistRecord>>>)
    ensures Gather(outs).Ok? <==> forall i :: 0 <= i < |outs| ==> outs[i].Ok?
  {
    if outs != [] {
      var n := |outs| - 1;
      GatherOkIff(outs[..n]);
      assert forall i :: 0 <= i < n ==> outs[..n][i] == outs[i];
    }
  }

  /** The first failing outcome is the error of the whole. */
  lemma {:induction false} GatherFirstError(outs: seq<Result<seq<HistRecord>>>, k: nat)
    requires k < |outs| && outs[k].Err?
    requires forall j :: 0 <= j < k ==> outs[j].Ok?
    ensures Gather(outs) == Err(outs[k].error)
  {
    GatherOkIff(outs[..k]);
    assert forall j :: 0 <= j < k ==> outs[..k][j] == outs[j];
    assert outs == outs[..k] + [outs[k]] + outs[k + 1..];
    GatherAppend(outs[..k] + [outs[k]], outs[k + 1..]);
    GatherAppend(outs[..k], [outs[k]]);
    assert [outs[k]][..0] == [];
  }

  /** When every outcome holds at most one record, so does the whole, per outcome. */
  lemma {:induction false} GatherSize(outs: seq<Result<seq<HistRecord>>>)
    requires forall i :: 0 <= i < |outs| ==> outs[i].Ok? && |outs[i].value| <= 1
    ensures Gather(outs).Ok? && |Gather(outs).value| <= |outs|
  {
    if outs != [] {
      var n := |outs| - 1;
      assert forall i :: 0 <= i < n ==> outs[..n][i] == outs[i];
      GatherSize(outs[..n]);
    }
  }

  // ---------------------------------------------------------------------------
  // The table

  /** Rows are processed independently, in order. */
  lemma {:induction false} HistoricalAppend(a: seq<HistRow>, b: seq<HistRow>)
    ensures HistoricalRecords(a + b) == Join(HistoricalRecords(a), HistoricalRecords(b))
  {
    EachAppend(RowOutcome, a, b);
    GatherAppend(Outcomes(a), Outcomes(b));
  }

  lemma {:induction false} EachAppend<A, B>(f: A -> B, a: seq<A>, b: seq<A>)
    ensures Each(f, a + b) == Each(f, a) + Each(f, b)
  {
    var whole, left, right := Each(f, a + b), Each(f, a), Each(f, b);
    forall i | 0 <= i < |whole| ensures whole[i] == (left + right)[i] {
      if i < |a| {
        assert (a + b)[i] == a[i];
      } else {
        assert (a + b)[i] == b[i - |a|];
      }
    }
  }

  /** One more row adds its own outcome. */
  lemma {:induction false} HistoricalSnoc(rows: seq<HistRow>, row: HistRow)
    ensures HistoricalRecords(rows + [row]) == Join(HistoricalRecords(rows), RowOutcome(row))
  {
    HistoricalAppend(rows, [row]);
    assert Outcomes([row]) == [RowOutcome(row)];
    GatherOne(RowOutcome(row));
  }

  /** Once a prefix of the rows fails, the run fails with that prefix's error. */
  lemma {:induction false} FailureSticks(rows: seq<HistRow>, j: nat)
    requires j <= |rows| && HistoricalRecords(rows[..j]).Err?
    ensures HistoricalRecords(rows) == HistoricalRecords(rows[..j])
  {
    assert rows == rows[..j] + rows[j..];
    HistoricalAppend(rows[..j], rows[j..]);
  }

  /** A row with a th and fewer than five td cells is dropped without affecting its siblings. */
  lemma {:induction false} ShortRowDropped(before: seq<HistRow>, row: HistRow, after: seq<HistRow>)
    requires row.header.Some? && |row.cells| < MinCells
    ensures HistoricalRecords(before + [row] + after) == HistoricalRecords(before + after)
  {
    assert RowOutcome(row) == Ok([]);
    HistoricalAppend(before + [row], after);
    HistoricalSnoc(before, row);
    HistoricalAppend(before, after);
    match HistoricalRecords(before)
    case Err(_) =>
    case Ok(a) => assert a + [] == a;
  }

  /** A row with a th and at least five td cells whose columns 0, 2, 3 and 4 are
      integers yields exactly the record of those values, in place. */
  lemma {:induction false} AcceptedRow(before: seq<HistRow>, row: HistRow, after: seq<HistRow>,
                    v24: int, v21: int, v18: int, oz: int)
    requires row.header.Some? && |row.cells| >= MinCells
    requires ParseInt(Strip(row.cells[0])) == Ok(v24)
    requires ParseInt(Strip(row.cells[2])) == Ok(v21)
    requires ParseInt(Strip(row.cells[3])) == Ok(v18)
    requires ParseInt(Strip(row.cells[4])) == Ok(oz)
    ensures HistoricalRecords(before + [row] + after)
         == Join(Join(HistoricalRecords(before),
                      Ok([HistRecord(Strip(row.header.value), v24, v21, v18, oz)])),
                 HistoricalRecords(after))
  {
    assert RowOutcome(row) == Ok([HistRecord(Strip(row.header.value), v24, v21, v18, oz)]);
    HistoricalAppend(before + [row], after);
    HistoricalSnoc(before, row);
  }

  /** The record of a wide row that does not fail: its stripped day label and the
      integers of td 0, 2, 3 and 4, all four of which parsed. */
  lemma {:induction false} RowContribution(row: HistRow)
    requires RowOutcome(row).Ok? && |row.cells| >= MinCells
    ensures row.header.Some?
    ensures Cell(row.cells, 0).Ok? && Cell(row.cells, 2).Ok? && Cell(row.cells, 3).Ok?
         && Cell(row.cells, 4).Ok?
    ensures RowOutcome(row).value
         == [HistRecord(Strip(row.header.value), Cell(row.cells, 0).value, Cell(row.cells, 2).value,
                        Cell(row.cells, 3).value, Cell(row.cells, 4).value)]
  {
    if |row.cells| >= MinCells {
      var day := Strip(row.header.value);
      DayRecordOne(day, Cell(row.cells, Gold24Column), Cell(row.cells, Gold21Column),
                   Cell(row.cells, Gold18Column), Cell(row.cells, OunceColumn));
    }
  }

  /** A day record is built exactly when all four values parsed; it holds them with the
      day label, and otherwise the error is one of the values' errors. */
  lemma {:induction false} DayRecordOne(day: string, gold24: Result<int>, gold21: Result<int>,
                     gold18: Result<int>, ounce: Result<int>)
    ensures DayRecord(day, gold24, gold21, gold18, ounce).Ok?
        <==> gold24.Ok? && gold21.Ok? && gold18.Ok? && ounce.Ok?
    ensures DayRecord(day, gold24, gold21, gold18, ounce).Ok? ==>
              DayRecord(day, gold24, gold21, gold18, ounce).value
              == [HistRecord(day, gold24.value, gold21.value, gold18.value, ounce.value)]
    ensures var r := DayRecord(day, gold24, gold21, gold18, ounce);
            r.Err? ==> || (gold24.Err? && r.error == gold24.error)
                       || (gold21.Err? && r.error == gold21.error)
                       || (gold18.Err? && r.error == gold18.error)
                       || (ounce.Err? && r.error == ounce.error)
  {
  }

  /** The td at index 1 never influences the outcome of a row... */
  lemma {:induction false} SecondCellIgnored(row: HistRow, text: string)
    requires |row.cells| > 1
    ensures RowOutcome(HistRow(row.header, row.cells[1 := text])) == RowOutcome(row)
  {
  }

  /** ... nor of the whole table. */
  lemma {:induction false} SecondCellIgnoredInTable(rows: seq<HistRow>, i: nat, text: string)
    requires i < |rows| && |rows[i].cells| > 1
    ensures HistoricalRecords(rows[i := HistRow(rows[i].header, rows[i].cells[1 := text])])
         == HistoricalRecords(rows)
  {
    var row' := HistRow(rows[i].header, rows[i].cells[1 := text]);
    SecondCellIgnored(rows[i], text);
    assert Outcomes(rows[i := row']) == Outcomes(rows);
  }

  /** The table succeeds exactly when every row succeeds: no failing row is skipped. */
  lemma {:induction false} SucceedsIffEveryRow(rows: seq<HistRow>)
    ensures HistoricalRecords(rows).Ok? <==> forall i :: 0 <= i < |rows| ==> RowOutcome(rows[i]).Ok?
  {
    GatherOkIff(Outcomes(rows));
    assert forall i :: 0 <= i < |rows| ==> Outcomes(rows)[i] == RowOutcome(rows[i]);
  }

  /** The error reported is that of the first failing row. */
  lemma {:induction false} FirstFailureReported(rows: seq<HistRow>, k: nat)
    requires k < |rows| && RowOutcome(rows[k]).Err?
    requires forall j :: 0 <= j < k ==> RowOutcome(rows[j]).Ok?
    ensures HistoricalRecords(rows) == Err(RowOutcome(rows[k]).error)
  {
    GatherFirstError(Outcomes(rows), k);
  }

  /** A row without a th stops the run, whatever its width. */
  lemma {:induction false} MissingHeaderAborts(rows: seq<HistRow>, i: nat)
    requires i < |rows| && rows[i].header.None?
    ensures HistoricalRecords(rows).Err?
  {
    SucceedsIffEveryRow(rows);
  }
}
