/** The two places where the page reads the ranked watchlist: the
    headline metrics (the first rows, at most one per column) and the
    ticker the detail view starts from (the top row's label, or a fixed
    fallback when the table is empty). */
module Page {
  import opened Symbols
  import opened Watchlist

  /** The ticker the detail view starts from when the watchlist is empty. */
  const FallbackTicker: string := "BBRI"

  /** Number of metric columns in the headline. */
  const HeadlineColumns: nat := 5

  /** The ticker the detail view starts from: the top row's label, or the
      fallback when there are no rows. */
  function DefaultTicker(table: seq<Row>): (t: string)
    ensures table == [] ==> t == FallbackTicker
    ensures table != [] ==> exists r :: r in table && r.ticker == t
  {
    if table != [] then table[0].ticker else FallbackTicker
  }

  /** How many headline metrics are shown: one per column, and no more
      than there are rows. */
  function HeadlineCount(table: seq<Row>): (k: nat)
    ensures k <= HeadlineColumns && k <= |table|
    ensures k == HeadlineColumns || k == |table|
  {
    if |table| < HeadlineColumns then |table| else HeadlineColumns
  }

  /** The rows shown as headline metrics, in table order. */
  function Headlines(table: seq<Row>): (top: seq<Row>)
    ensures |top| == HeadlineCount(table)
    ensures top <= table
  {
    table[..HeadlineCount(table)]
  }

  /** On a ranked table, no row left out of the headline moved more than a
      row shown in it. */
  lemma HeadlinesAreTopMovers(table: seq<Row>)
    requires SortedByChangeDesc(table)
    ensures forall r, s :: r in Headlines(table) && s in table[HeadlineCount(table)..] ==> r.change >= s.change
  {
    var k := HeadlineCount(table);
    forall r, s | r in Headlines(table) && s in table[k..] ensures r.change >= s.change {
      var i :| 0 <= i < k && table[..k][i] == r;
      var j :| 0 <= j < |table| - k && table[k..][j] == s;
      assert table[i] == r && table[k + j] == s;
    }
  }

  /** The ticker the detail view starts from belongs to a basket symbol
      whose change is the largest of all rows; with no rows it is the
      fallback. */
  lemma {:induction false} DefaultTickerIsTopMover(ts: seq<string>, download: string -> Download, table: seq<Row>)
    requires SortedByChangeDesc(table)
    requires multiset(table) == multiset(Collected(ts, download))
    ensures Collected(ts, download) == [] ==> DefaultTicker(table) == FallbackTicker
    ensures Collected(ts, download) != [] ==>
      exists i :: 0 <= i < |ts| && RowFor(ts[i], download(ts[i])).Some?
        && DefaultTicker(table) == RemoveJK(ts[i])
        && forall j :: 0 <= j < |ts| && RowFor(ts[j], download(ts[j])).Some? ==>
             RowFor(ts[j], download(ts[j])).value.change <= RowFor(ts[i], download(ts[i])).value.change
  {
    var rows := Collected(ts, download);
    SameSize(table, rows);
    if rows != [] {
      var top := table[0];
      assert top in multiset(rows);
      CollectedMembers(ts, download, top);
      var i :| 0 <= i < |ts| && RowFor(ts[i], download(ts[i])) == Some(top);
      TopIsLargest(ts, download, table);
    }
  }

  /** The top row of a ranking changed at least as much as every row a
      basket symbol produced. */
  lemma TopIsLargest(ts: seq<string>, download: string -> Download, table: seq<Row>)
    requires SortedByChangeDesc(table) && table != []
    requires multiset(table) == multiset(Collected(ts, download))
    ensures forall j :: 0 <= j < |ts| && RowFor(ts[j], download(ts[j])).Some? ==>
      RowFor(ts[j], download(ts[j])).value.change <= table[0].change
  {
    HeadIsLargest(table);
    forall j | 0 <= j < |ts| && RowFor(ts[j], download(ts[j])).Some?
      ensures RowFor(ts[j], download(ts[j])).value.change <= table[0].change
    {
      var r := RowFor(ts[j], download(ts[j])).value;
      CollectedMembers(ts, download, r);
      assert r in multiset(table);
    }
  }

  /** When every basket symbol is well formed, the detail view opened on
      the default ticker downloads one of the basket's own symbols. */
  lemma {:induction false} DetailSymbolOfDefault(ts: seq<string>, download: string -> Download, table: seq<Row>)
    requires forall i :: 0 <= i < |ts| ==> IsJakartaSymbol(ts[i])
    requires multiset(table) == multiset(Collected(ts, download))
    requires table != []
    ensures DetailSymbol(DefaultTicker(table)) in ts
  {
    var top := table[0];
    assert top in multiset(Collected(ts, download));
    CollectedMembers(ts, download, top);
    var i :| 0 <= i < |ts| && RowFor(ts[i], download(ts[i])) == Some(top);
    DetailSymbolOfLabel(ts[i]);
  }

  /** The fallback ticker names the first recommended symbol. */
  lemma FallbackIsRecommended()
    ensures DetailSymbol(FallbackTicker) == EmitenList[0]
  {
    FallbackIsCode();
    CodeRoundTrip(FallbackTicker);
    FallbackSymbol();
  }

  lemma FallbackIsCode()
    ensures IsCode(FallbackTicker)
  {
    assert FallbackTicker == ['B', 'B', 'R', 'I'];
  }

  lemma FallbackSymbol()
    ensures FallbackTicker + Suffix == EmitenList[0]
  {
    assert FallbackTicker + Suffix == "BBRI.JK";
  }

  lemma RecommendedIsJakarta(t: string)
    requires t in EmitenList
    ensures IsJakartaSymbol(t)
  {
    EmitenListWellFormed();
  }

  /** For a basket drawn from the recommended list, whatever the downloads
      return, the detail view opened on the default ticker downloads a
      symbol of the recommended list: "BBRI.JK" when no row was produced,
      otherwise the basket symbol of the table's first row (a top mover
      when the table is ranked, by `DefaultTickerIsTopMover`). */
  lemma DefaultBasketDetailSymbol(ts: seq<string>, download: string -> Download, table: seq<Row>)
    requires forall i :: 0 <= i < |ts| ==> ts[i] in EmitenList
    requires multiset(table) == multiset(Collected(ts, download))
    ensures DetailSymbol(DefaultTicker(table)) in EmitenList
    ensures table == [] ==> DetailSymbol(DefaultTicker(table)) == EmitenList[0]
    ensures table != [] ==> DetailSymbol(DefaultTicker(table)) in ts
  {
    if table == [] {
      FallbackIsRecommended();
    } else {
      forall i | 0 <= i < |ts| ensures IsJakartaSymbol(ts[i]) {
        RecommendedIsJakarta(ts[i]);
      }
      DetailSymbolOfDefault(ts, download, table);
    }
  }
}
