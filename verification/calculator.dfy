/** The cost calculator's inputs: the categories it offers, the sell price of the
    chosen category, and that price turned into an integer. */
module Calculator {
  import opened Failures
  import opened PyText
  import opened CurrentPrices

  /** The currency word ("pound") that sell prices carry. */
  const Marker: string := "جنيه"

  /** Categories whose sell text mentions the currency word, in table order. */
  function AvailableItems(records: seq<PriceRecord>): (items: seq<string>)
    ensures |items| <= |records|
  {
    if records == [] then []
    else
      var last := records[|records| - 1];
      AvailableItems(records[..|records| - 1])
        + (if Contains(last.sell, Marker) then [last.category] else [])
  }

  /** The filter treats rows one by one and keeps table order. */
  lemma {:induction false} AvailableAppend(a: seq<PriceRecord>, b: seq<PriceRecord>)
    ensures AvailableItems(a + b) == AvailableItems(a) + AvailableItems(b)
    decreases |b|
  {
    if b == [] {
      assert a + b == a;
    } else {
      assert (a + b)[..|a + b| - 1] == a + b[..|b| - 1];
      AvailableAppend(a, b[..|b| - 1]);
    }
  }

  /** A category is offered exactly when some row with it has the currency word in its sell text. */
  lemma {:induction false} AvailableMember(records: seq<PriceRecord>, c: string)
    ensures c in AvailableItems(records)
        <==> exists i :: 0 <= i < |records| && records[i].category == c && Contains(records[i].sell, Marker)
  {
    if records != [] {
      var n := |records| - 1;
      AvailableMember(records[..n], c);
      assert forall i :: 0 <= i < n ==> records[..n][i] == records[i];
    }
  }

  /** The sell texts of the rows of category c, in table order: the boolean-mask selection. */
  function SellsOf(records: seq<PriceRecord>, c: string): (sells: seq<string>)
    ensures |sells| <= |records|
    ensures sells == [] <==> forall i :: 0 <= i < |records| ==> records[i].category != c
  {
    if records == [] then []
    else
      assert forall i :: 1 <= i < |records| ==> records[1..][i - 1] == records[i];
      (if records[0].category == c then [records[0].sell] else []) + SellsOf(records[1..], c)
  }

  /** The sell text of the first row of category c; no such row is an IndexError. */
  function SellPriceOf(records: seq<PriceRecord>, c: string): (r: Result<string>)
    ensures r.Ok? <==> exists i :: 0 <= i < |records| && records[i].category == c
    ensures r.Err? ==> r.error == CategoryNotFound
  {
    var sells := SellsOf(records, c);
    if sells == [] then Err(CategoryNotFound) else Ok(sells[0])
  }

  /** The lookup returns the sell text of the first row carrying the category. */
  lemma {:induction false} LookupFindsFirst(records: seq<PriceRecord>, c: string, i: nat)
    requires i < |records| && records[i].category == c
    requires forall j :: 0 <= j < i ==> records[j].category != c
    ensures SellPriceOf(records, c) == Ok(records[i].sell)
  {
    if i > 0 {
      LookupFindsFirst(records[1..], c, i - 1);
    }
  }

  /** The lookup fails when no row carries the category. */
  lemma {:induction false} LookupMissing(records: seq<PriceRecord>, c: string)
    requires forall i :: 0 <= i < |records| ==> records[i].category != c
    ensures SellPriceOf(records, c) == Err(CategoryNotFound)
  {
    if records != [] {
      LookupMissing(records[1..], c);
    }
  }

  /** int(text.replace(Marker, "").strip()). */
  function Normalize(text: string): (r: Result<int>)
    ensures r.Err? ==> r.error.NotAnInteger?
  {
    ParseInt(Strip(RemoveAll(text, Marker)))
  }

  /** A text without the currency word is parsed as it is: the word is optional. */
  lemma {:induction false} NormalizeUnmarked(text: string)
    requires !Contains(text, Marker)
    ensures Normalize(text) == ParseInt(Strip(text))
  {
    RemoveAbsent(text, Marker);
  }

  /** A number, whitespace and the currency word normalise to the number. */
  lemma {:induction false} NormalizeWithUnit(n: int, ws: string)
    requires AllSpace(ws)
    ensures Normalize(Signed(n) + ws + Marker) == Ok(n)
  {
    UnitRemoved(n, ws);
    SignedStripped(n, ws);
    ParseBack(n);
  }

  /** A bare number normalises to itself. */
  lemma {:induction false} NormalizeBare(n: int)
    ensures Normalize(Signed(n)) == Ok(n)
  {
    var t := Signed(n);
    SignedChars(n);
    AbsentStart(t, Marker);
    RemoveAbsent(t, Marker);
    SignedStripped(n, []);
    assert t + [] == t;
    ParseBack(n);
  }

  lemma {:induction false} UnitRemoved(n: int, ws: string)
    requires AllSpace(ws)
    ensures RemoveAll(Signed(n) + ws + Marker, Marker) == Signed(n) + ws
  {
    var a := Signed(n) + ws;
    SignedChars(n);
    assert forall i :: 0 <= i < |a| ==> a[i] != Marker[0];
    RemoveAfter(a, Marker, []);
    assert a + Marker + [] == Signed(n) + ws + Marker;
  }

  lemma {:induction false} SignedStripped(n: int, ws: string)
    requires AllSpace(ws)
    ensures Strip(Signed(n) + ws) == Signed(n)
  {
    SignedUnpadded(n);
    StripPadded([], Signed(n), ws);
    assert [] + Signed(n) + ws == Signed(n) + ws;
  }

  lemma {:induction false} ParseBack(n: int)
    ensures ParseInt(Signed(n)) == Ok(n)
  {
    SignedUnpadded(n);
    StripUnpadded(Signed(n));
    SignedNoSeparator(n);
    SignedValue(n);
    ParseStripped(Signed(n), n);
  }

  /** The calculator's price per gram: the first row of the selected category, its sell
      text normalised. The selection is None when nothing is offered. */
  function CalculatorPrice(records: seq<PriceRecord>, selected: Option<string>): (r: Result<int>)
    ensures selected.None? ==> r == Err(CategoryNotFound)
    ensures r.Ok? ==> selected.Some? && exists i :: 0 <= i < |records| && records[i].category == selected.value
  {
    match selected
    case None => Err(CategoryNotFound)
    case Some(c) =>
      var text :- SellPriceOf(records, c);
      Normalize(text)
  }

  /** Every offered category is found by the lookup. */
  lemma {:induction false} OfferedIsFound(records: seq<PriceRecord>, c: string)
    requires c in AvailableItems(records)
    ensures SellPriceOf(records, c).Ok?
  {
    AvailableMember(records, c);
    var i :| 0 <= i < |records| && records[i].category == c && Contains(records[i].sell, Marker);
    var k := FirstOf(records, c, i);
    LookupFindsFirst(records, c, k);
  }

  /** The first row of category c, given that row i has it. */
  function FirstOf(records: seq<PriceRecord>, c: string, i: nat): (k: nat)
    requires i < |records| && records[i].category == c
    ensures k <= i && records[k].category == c
    ensures forall j :: 0 <= j < k ==> records[j].category != c
  {
    if i == 0 || records[0].category == c then (if records[0].category == c then 0 else i)
    else 1 + FirstOf(records[1..], c, i - 1)
  }

  /** Category labels are pairwise distinct. */
  predicate UniqueCategories(records: seq<PriceRecord>) {
    forall i, j :: 0 <= i < j < |records| ==> records[i].category != records[j].category
  }

  /** With distinct categories, an offered category's price text carries the currency word. */
  lemma {:induction false} UniqueOfferedHasMarker(records: seq<PriceRecord>, c: string)
    requires UniqueCategories(records) && c in AvailableItems(records)
    ensures SellPriceOf(records, c).Ok? && Contains(SellPriceOf(records, c).value, Marker)
  {
    AvailableMember(records, c);
    var i :| 0 <= i < |records| && records[i].category == c && Contains(records[i].sell, Marker);
    LookupFindsFirst(records, c, i);
  }

  /** With a repeated category the lookup may return a row the filter did not offer:
      here "24" is offered for its second row, yet its first row is the one returned
      and its text is not a number. */
  lemma {:induction false} DuplicateCategoryLookup()
    ensures var records := [PriceRecord("24", "-", ""), PriceRecord("24", "5 " + Marker, "")];
            && "24" in AvailableItems(records)
            && CalculatorPrice(records, Some("24")) == Err(NotAnInteger("-"))
  {
    var records := [PriceRecord("24", "-", ""), PriceRecord("24", "5 " + Marker, "")];
    assert "24" in AvailableItems(records) by {
      var sell := records[1].sell;
      assert sell[2..2 + |Marker|] == Marker;
      assert OccursAt(sell, Marker, 2);
      ContainsIff(sell, Marker);
      AvailableMember(records, "24");
    }
    LookupFindsFirst(records, "24", 0);
    NormalizeDash();
  }

  lemma {:induction false} NormalizeDash()
    ensures Normalize("-") == Err(NotAnInteger("-"))
  {
    assert RemoveAll("-", Marker) == "-";
    StripUnpadded("-");
    assert SignedRunValue("-") == None by {
      assert "-"[1..] == [];
    }
  }

  /** Worked example: a price with the currency word. */
  lemma {:induction false} NormalizeExampleWithUnit()
    ensures Normalize("1234 " + Marker) == Ok(1234)
  {
    assert "1234 " + Marker == Signed(1234) + " " + Marker by {
      assert Signed(1234) == "1234";
    }
    NormalizeWithUnit(1234, " ");
  }

  /** Worked example: a text that is not a number. */
  lemma {:induction false} NormalizeExampleRejects()
    ensures Normalize("abc") == Err(NotAnInteger("abc"))
  {
    AbsentStart("abc", Marker);
    RemoveAbsent("abc", Marker);
    StripPadded([], "abc", []);
    assert [] + "abc" + [] == "abc";
    ParseRejectsForeign("abc", 0);
  }
}
