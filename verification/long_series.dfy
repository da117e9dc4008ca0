/** The chart's data: the historical records melted from one row per day into one
    point per (day, series), and the exact minimum and maximum of all values. */
module LongSeries {
  import opened Failures
  import opened History

  /** The four value columns of the historical frame, in column order. */
  datatype Series = Gold24 | Gold21 | Gold18 | Ounce

  /** The column label a series carries in the long table. */
  function Label(s: Series): string {
    match s
    case Gold24 => "ذهب 24"
    case Gold21 => "ذهب 21"
    case Gold18 => "ذهب 18"
    case Ounce => "الأوقية"
  }

  /** The series column of the long table tells the four series apart, and in melt's
      order the labels are the frame's value columns as named in the script. */
  lemma {:induction false} SeriesLabels(s: Series, t: Series)
    ensures Label(s) == Label(t) ==> s == t
    ensures [Label(SeriesOrder[0]), Label(SeriesOrder[1]), Label(SeriesOrder[2]), Label(SeriesOrder[3])]
         == ["ذهب 24", "ذهب 21", "ذهب 18", "الأوقية"]
  {
  }

  /** The order in which melt emits the series: the frame's column order. */
  const SeriesOrder: seq<Series> := [Gold24, Gold21, Gold18, Ounce]

  /** Position of a series in SeriesOrder. */
  function Rank(s: Series): (k: nat)
    ensures k < |SeriesOrder| && SeriesOrder[k] == s
  {
    match s
    case Gold24 => 0
    case Gold21 => 1
    case Gold18 => 2
    case Ounce => 3
  }

  /** One row of the long table: day, series and price. */
  datatype Point = Point(day: string, series: Series, value: int)

  /** The value a record holds for a series. */
  function Field(r: HistRecord, s: Series): int {
    match s
    case Gold24 => r.gold24
    case Gold21 => r.gold21
    case Gold18 => r.gold18
    case Ounce => r.ounce
  }

  /** The points of one series, one per record, in record order. */
  function Column(records: seq<HistRecord>, s: Series): (col: seq<Point>)
    ensures |col| == |records|
  {
    if records == [] then []
    else [Point(records[0].day, s, Field(records[0], s))] + Column(records[1..], s)
  }

  lemma {:induction false} ColumnAt(records: seq<HistRecord>, s: Series, i: nat)
    requires i < |records|
    ensures Column(records, s)[i] == Point(records[i].day, s, Field(records[i], s))
  {
    if i > 0 {
      ColumnAt(records[1..], s, i - 1);
    }
  }

  /** melt(id_vars = day): every series in column order, each over all days in input order. */
  function Melt(records: seq<HistRecord>): (points: seq<Point>)
    ensures |points| == |SeriesOrder| * |records|
  {
    Column(records, Gold24) + Column(records, Gold21) + Column(records, Gold18) + Column(records, Ounce)
  }

  /** Point k * N + i of the long table is day i's value of the k-th series. */
  lemma {:induction false} MeltAt(records: seq<HistRecord>, k: nat, i: nat)
    requires k < |SeriesOrder| && i < |records|
    ensures Melt(records)[k * |records| + i]
         == Point(records[i].day, SeriesOrder[k], Field(records[i], SeriesOrder[k]))
  {
    var n := |records|;
    var s := SeriesOrder[k];
    ColumnAt(records, s, i);
    var c24, c21, c18, cOz := Column(records, Gold24), Column(records, Gold21),
                             Column(records, Gold18), Column(records, Ounce);
    var points := c24 + c21 + c18 + cOz;
    assert Melt(records) == points;
    if k == 0 {
      assert k * n + i == i && points[i] == c24[i];
    } else if k == 1 {
      assert k * n + i == n + i && points[n + i] == c21[i];
    } else if k == 2 {
      assert k * n + i == 2 * n + i && points[2 * n + i] == c18[i];
    } else {
      assert k * n + i == 3 * n + i && points[3 * n + i] == cOz[i];
    }
  }

  /** Back from the long table to one record per day: the inverse of Melt. */
  function Unmelt(points: seq<Point>): (records: seq<HistRecord>)
    requires |points| % 4 == 0
    ensures |records| == |points| / 4
  {
    var n := |points| / 4;
    seq(n, i requires 0 <= i < n =>
      HistRecord(points[i].day, points[i].value, points[n + i].value,
                 points[2 * n + i].value, points[3 * n + i].value))
  }

  /** Melting loses nothing: every day keeps its label, its place and its four values. */
  lemma {:induction false} UnmeltMelt(records: seq<HistRecord>)
    ensures Unmelt(Melt(records)) == records
  {
    forall i | 0 <= i < |records| ensures Unmelt(Melt(records))[i] == records[i] {
      UnmeltAt(records, i);
    }
  }

  lemma {:induction false} UnmeltAt(records: seq<HistRecord>, i: nat)
    requires i < |records|
    ensures Unmelt(Melt(records))[i] == records[i]
  {
    var n := |records|;
    var c24, c21, c18, cOz := Column(records, Gold24), Column(records, Gold21),
                             Column(records, Gold18), Column(records, Ounce);
    var points := c24 + c21 + c18 + cOz;
    assert Melt(records) == points;
    ColumnAt(records, Gold24, i);
    ColumnAt(records, Gold21, i);
    ColumnAt(records, Gold18, i);
    ColumnAt(records, Ounce, i);
    assert points[i] == c24[i] && points[n + i] == c21[i];
    assert points[2 * n + i] == c18[i] && points[3 * n + i] == cOz[i];
    assert |points| / 4 == n;
    assert Unmelt(points)[i]
        == HistRecord(points[i].day, points[i].value, points[n + i].value,
                      points[2 * n + i].value, points[3 * n + i].value);
  }

  /** The price column of the long table. */
  function Values(points: seq<Point>): (vs: seq<int>)
    ensures |vs| == |points|
  {
    seq(|points|, j requires 0 <= j < |points| => points[j].value)
  }

  /** Series.min() of a non-empty column. */
  function MinOf(xs: seq<int>): (m: int)
    requires |xs| > 0
    ensures m in xs && forall x :: x in xs ==> m <= x
  {
    if |xs| == 1 then xs[0]
    else
      var rest := MinOf(xs[1..]);
      assert xs == [xs[0]] + xs[1..];
      if xs[0] <= rest then xs[0] else rest
  }

  /** Series.max() of a non-empty column. */
  function MaxOf(xs: seq<int>): (m: int)
    requires |xs| > 0
    ensures m in xs && forall x :: x in xs ==> x <= m
  {
    if |xs| == 1 then xs[0]
    else
      var rest := MaxOf(xs[1..]);
      assert xs == [xs[0]] + xs[1..];
      if xs[0] >= rest then xs[0] else rest
  }

  /** The (min, max) of the price column; an empty column has none (pandas gives NaN). */
  function PriceRange(points: seq<Point>): (range: Option<(int, int)>)
    ensures range.None? <==> points == []
    ensures range.Some? ==>
              (forall j :: 0 <= j < |points| ==> range.value.0 <= points[j].value <= range.value.1)
              && (exists j :: 0 <= j < |points| && points[j].value == range.value.0)
              && (exists j :: 0 <= j < |points| && points[j].value == range.value.1)
  {
    if points == [] then None
    else
      var vs := Values(points);
      assert forall j :: 0 <= j < |points| ==> vs[j] == points[j].value && vs[j] in vs;
      Some((MinOf(vs), MaxOf(vs)))
  }

  /** Where day i's value of series s sits in the long table. */
  lemma {:induction false} PointOf(records: seq<HistRecord>, i: nat, s: Series)
    requires i < |records|
    ensures Rank(s) * |records| + i < |Melt(records)|
    ensures Values(Melt(records))[Rank(s) * |records| + i] == Field(records[i], s)
  {
    var n := |records|;
    MeltAt(records, Rank(s), i);
    match s
    case Gold24 =>
    case Gold21 =>
    case Gold18 => assert Rank(s) * n == 2 * n;
    case Ounce => assert Rank(s) * n == 3 * n;
  }

  /** Every point of the long table is some day's value of some series. */
  lemma {:induction false} PointOrigin(records: seq<HistRecord>, j: nat)
    requires j < |Melt(records)|
    ensures exists i, s :: 0 <= i < |records| && Values(Melt(records))[j] == Field(records[i], s)
  {
    var n := |records|;
    if j < n {
      MeltAt(records, 0, j);
      assert Values(Melt(records))[j] == Field(records[j], Gold24);
    } else if j < 2 * n {
      MeltAt(records, 1, j - n);
      assert Values(Melt(records))[j] == Field(records[j - n], Gold21);
    } else if j < 3 * n {
      MeltAt(records, 2, j - 2 * n);
      assert Values(Melt(records))[j] == Field(records[j - 2 * n], Gold18);
    } else {
      MeltAt(records, 3, j - 3 * n);
      assert Values(Melt(records))[j] == Field(records[j - 3 * n], Ounce);
    }
  }

  /** Over a non-empty history, every value of every day lies between the minimum and
      the maximum, and both are values of some day. */
  lemma {:induction false} RangeBounds(records: seq<HistRecord>)
    requires records != []
    ensures PriceRange(Melt(records)).Some?
    ensures var (lo, hi) := PriceRange(Melt(records)).value;
            && (forall i, s :: 0 <= i < |records| ==> lo <= Field(records[i], s) <= hi)
            && (exists i, s :: 0 <= i < |records| && Field(records[i], s) == lo)
            && (exists i, s :: 0 <= i < |records| && Field(records[i], s) == hi)
  {
    var vs := Values(Melt(records));
    var lo, hi := MinOf(vs), MaxOf(vs);
    forall i, s | 0 <= i < |records| ensures lo <= Field(records[i], s) <= hi {
      PointOf(records, i, s);
      assert vs[Rank(s) * |records| + i] in vs;
    }
    var j :| 0 <= j < |vs| && vs[j] == lo;
    PointOrigin(records, j);
    var j' :| 0 <= j' < |vs| && vs[j'] == hi;
    PointOrigin(records, j');
  }

  /** An empty history melts to an empty table, which has no range. */
  lemma {:induction false} EmptyHistoryHasNoRange()
    ensures Melt([]) == [] && PriceRange(Melt([])) == None
  {
  }

  /** Two days: eight points, series-major with the days in input order, range [80, 520]. */
  lemma {:induction false} ReshapeExample()
    ensures var records := [HistRecord("Mon", 100, 90, 80, 500), HistRecord("Tue", 110, 95, 85, 520)];
            && Melt(records)
               == [Point("Mon", Gold24, 100), Point("Tue", Gold24, 110),
                   Point("Mon", Gold21, 90), Point("Tue", Gold21, 95),
                   Point("Mon", Gold18, 80), Point("Tue", Gold18, 85),
                   Point("Mon", Ounce, 500), Point("Tue", Ounce, 520)]
            && PriceRange(Melt(records)) == Some((80, 520))
  {
    ExamplePoints();
    ExampleRange();
  }

  lemma {:induction false} ExamplePoints()
    ensures Melt([HistRecord("Mon", 100, 90, 80, 500), HistRecord("Tue", 110, 95, 85, 520)])
         == [Point("Mon", Gold24, 100), Point("Tue", Gold24, 110),
             Point("Mon", Gold21, 90), Point("Tue", Gold21, 95),
             Point("Mon", Gold18, 80), Point("Tue", Gold18, 85),
             Point("Mon", Ounce, 500), Point("Tue", Ounce, 520)]
  {
    var mon, tue := HistRecord("Mon", 100, 90, 80, 500), HistRecord("Tue", 110, 95, 85, 520);
    var records := [mon, tue];
    forall s ensures Column(records, s) == [Point("Mon", s, Field(mon, s)), Point("Tue", s, Field(tue, s))] {
      ColumnAt(records, s, 0);
      ColumnAt(records, s, 1);
    }
  }

  lemma {:induction false} ExampleRange()
    ensures PriceRange([Point("Mon", Gold24, 100), Point("Tue", Gold24, 110),
                        Point("Mon", Gold21, 90), Point("Tue", Gold21, 95),
                        Point("Mon", Gold18, 80), Point("Tue", Gold18, 85),
                        Point("Mon", Ounce, 500), Point("Tue", Ounce, 520)])
         == Some((80, 520))
  {
    var points := [Point("Mon", Gold24, 100), Point("Tue", Gold24, 110),
                   Point("Mon", Gold21, 90), Point("Tue", Gold21, 95),
                   Point("Mon", Gold18, 80), Point("Tue", Gold18, 85),
                   Point("Mon", Ounce, 500), Point("Tue", Ounce, 520)];
    var vs := Values(points);
    assert vs == [100, 110, 90, 95, 80, 85, 500, 520];
    assert forall i :: 0 <= i < |vs| ==> 80 <= vs[i] <= 520;
    LeastIs(vs, 4);
    GreatestIs(vs, 7);
  }

  /** A column's minimum is any of its elements that no element is below. */
  lemma {:induction false} LeastIs(xs: seq<int>, k: nat)
    requires k < |xs| && forall i :: 0 <= i < |xs| ==> xs[k] <= xs[i]
    ensures MinOf(xs) == xs[k]
  {
    var m := MinOf(xs);
    assert xs[k] in xs;
  }

  /** A column's maximum is any of its elements that no element is above. */
  lemma {:induction false} GreatestIs(xs: seq<int>, k: nat)
    requires k < |xs| && forall i :: 0 <= i < |xs| ==> xs[i] <= xs[k]
    ensures MaxOf(xs) == xs[k]
  {
    var m := MaxOf(xs);
    assert xs[k] in xs;
  }
}
