/** The current-price table: each body row becomes a (category, sell, buy) record
    when it has two or three cells; every other row is skipped. */
module CurrentPrices {
  import opened PyText

  /** One body row of the table: the texts of its th and td cells, in document order. */
  type Row = seq<string>

  /** One line of the displayed table; `buy` is empty for a two-cell row. */
  datatype PriceRecord = PriceRecord(category: string, sell: string, buy: string)

  /** Cell counts of the rows that yield a record. */
  predicate Accepted(row: Row) {
    |row| == 2 || |row| == 3
  }

  /** What one row contributes to the table: one record, or nothing. */
  function RowRecords(row: Row): (recs: seq<PriceRecord>)
    ensures |recs| == (if Accepted(row) then 1 else 0)
    ensures recs != [] ==> recs[0].category == Strip(row[0]) && recs[0].sell == Strip(row[1])
  {
    if |row| == 3 then [PriceRecord(Strip(row[0]), Strip(row[1]), Strip(row[2]))]
    else if |row| == 2 then [PriceRecord(Strip(row[0]), Strip(row[1]), "")]
    else []
  }

  /** The records of a sequence of rows, the last row's contribution appended last. */
  function CurrentRecords(rows: seq<Row>): (data: seq<PriceRecord>)
    ensures |data| == AcceptedCount(rows)
  {
    if rows == [] then []
    else CurrentRecords(rows[..|rows| - 1]) + RowRecords(rows[|rows| - 1])
  }

  /** The extraction loop: walks the rows in order and appends a record for every
      row of two or three cells. */
  method ExtractCurrent(rows: seq<Row>) returns (data: seq<PriceRecord>)
    ensures data == CurrentRecords(rows)
  {
    data := [];
    for i := 0 to |rows|
      invariant data == CurrentRecords(rows[..i])
    {
      var cols := rows[i];
      assert rows[..i + 1][..i] == rows[..i];
      assert CurrentRecords(rows[..i + 1]) == data + RowRecords(cols);
      if |cols| == 3 {
        data := data + [PriceRecord(Strip(cols[0]), Strip(cols[1]), Strip(cols[2]))];
      } else if |cols| == 2 {
        data := data + [PriceRecord(Strip(cols[0]), Strip(cols[1]), "")];
      } else {
        assert data + [] == data;
      }
    }
    assert rows[..|rows|] == rows;
  }

  /** Rows are processed independently and their records keep the rows' order. */
  lemma {:induction false} CurrentAppend(a: seq<Row>, b: seq<Row>)
    ensures CurrentRecords(a + b) == CurrentRecords(a) + CurrentRecords(b)
    decreases |b|
  {
    if b == [] {
      assert a + b == a;
    } else {
      var b', last := b[..|b| - 1], b[|b| - 1];
      assert (a + b)[..|a + b| - 1] == a + b' && (a + b)[|a + b| - 1] == last;
      assert CurrentRecords(a + b) == CurrentRecords(a + b') + RowRecords(last);
      CurrentAppend(a, b');
      assert CurrentRecords(b) == CurrentRecords(b') + RowRecords(last);
    }
  }

  /** A three-cell row yields its three stripped texts, in place. */
  lemma {:induction false} ThreeCellRow(before: seq<Row>, row: Row, after: seq<Row>)
    requires |row| == 3
    ensures CurrentRecords(before + [row] + after)
         == CurrentRecords(before) + [PriceRecord(Strip(row[0]), Strip(row[1]), Strip(row[2]))]
            + CurrentRecords(after)
  {
    CurrentAppend(before + [row], after);
    CurrentAppend(before, [row]);
  }

  /** A two-cell row yields its two stripped texts and an empty buy price, in place. */
  lemma {:induction false} TwoCellRow(before: seq<Row>, row: Row, after: seq<Row>)
    requires |row| == 2
    ensures CurrentRecords(before + [row] + after)
         == CurrentRecords(before) + [PriceRecord(Strip(row[0]), Strip(row[1]), "")]
            + CurrentRecords(after)
  {
    CurrentAppend(before + [row], after);
    CurrentAppend(before, [row]);
  }

  /** A row of any other width is dropped without disturbing its neighbours. */
  lemma {:induction false} SkippedRow(before: seq<Row>, row: Row, after: seq<Row>)
    requires !Accepted(row)
    ensures CurrentRecords(before + [row] + after) == CurrentRecords(before + after)
  {
    CurrentAppend(before + [row], after);
    CurrentAppend(before, [row]);
    CurrentAppend(before, after);
  }

  /** Number of rows of two or three cells. */
  function AcceptedCount(rows: seq<Row>): nat {
    if rows == [] then 0
    else AcceptedCount(rows[..|rows| - 1]) + (if Accepted(rows[|rows| - 1]) then 1 else 0)
  }

  /** One record per accepted row, so never more records than rows. */
  lemma {:induction false} CurrentCount(rows: seq<Row>)
    ensures |CurrentRecords(rows)| == AcceptedCount(rows) <= |rows|
  {
    if rows != [] {
      CurrentCount(rows[..|rows| - 1]);
    }
  }

  /** A skipped row leaves strictly fewer records than rows. */
  lemma {:induction false} FewerWhenSkipped(rows: seq<Row>, i: nat)
    requires i < |rows| && !Accepted(rows[i])
    ensures |CurrentRecords(rows)| < |rows|
  {
    assert rows == rows[..i] + [rows[i]] + rows[i + 1..];
    SkippedRow(rows[..i], rows[i], rows[i + 1..]);
    CurrentCount(rows[..i] + rows[i + 1..]);
  }
}
