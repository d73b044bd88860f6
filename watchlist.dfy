/** The watchlist ranker: for every symbol of a basket, the two most recent
    daily closes give a percent change; symbols whose data is missing,
    too short or unusable are skipped, and the rows that remain are ranked
    by percent change, largest first. */
module Watchlist {
  import opened Symbols
  import opened Rounding

  datatype Option<T> = None | Some(value: T)

  /** One row of the ranked table: the label shown (the symbol without its
      exchange suffix), the last close, and the rounded percent change. */
  datatype Row = Row(ticker: string, price: real, change: real)

  /** What one daily download yields: the closes of the period, oldest
      first, or None when the download raised. */
  type Download = Option<seq<real>>

  /** The exact percent change from `prev` to `last`. */
  function PercentChange(prev: real, last: real): (p: real)
    requires prev != 0.0
    ensures prev > 0.0 ==> (p > 0.0 <==> last > prev) && (p < 0.0 <==> last < prev)
    ensures prev * p == (last - prev) * 100.0
  {
    ((last - prev) / prev) * 100.0
  }

  /** The row a symbol contributes, or None when it is skipped: the
      download raised, fewer than two closes came back, or the previous
      close is zero (the division would raise). */
  function RowFor(t: string, d: Download): (row: Option<Row>)
    ensures row.Some? <==> d.Some? && |d.value| >= 2 && d.value[|d.value| - 2] != 0.0
  {
    match d
    case None => None
    case Some(closes) =>
      if |closes| < 2 then None
      else
        var last, prev := closes[|closes| - 1], closes[|closes| - 2];
        if prev == 0.0 then None
        else Some(Row(RemoveJK(t), last, Round2(PercentChange(prev, last))))
  }

  /** A row shows the symbol's label, its last close, and the change from
      the close before it, to two decimals. */
  lemma RowContents(t: string, closes: seq<real>)
    requires RowFor(t, Some(closes)).Some?
    ensures
      var row := RowFor(t, Some(closes)).value;
      var last, prev := closes[|closes| - 1], closes[|closes| - 2];
      && row.ticker == RemoveJK(t)
      && row.price == last
      && IsHundredths(row.change)
      && -0.005 <= row.change - PercentChange(prev, last) <= 0.005
  {
  }

  /** A rise never shows as a negative change and a fall never shows as
      a positive one (closes are prices, so the previous one is positive). */
  lemma ChangeFollowsPrice(t: string, closes: seq<real>)
    requires |closes| >= 2 && closes[|closes| - 2] > 0.0
    ensures RowFor(t, Some(closes)).Some?
    ensures closes[|closes| - 1] >= closes[|closes| - 2] ==> RowFor(t, Some(closes)).value.change >= 0.0
    ensures closes[|closes| - 1] <= closes[|closes| - 2] ==> RowFor(t, Some(closes)).value.change <= 0.0
  {
    var last, prev := closes[|closes| - 1], closes[|closes| - 2];
    Round2KeepsSign(PercentChange(prev, last));
  }

  function AsSeq(row: Option<Row>): (s: seq<Row>)
    ensures row.Some? ==> s == [row.value]
    ensures row.None? ==> s == []
  {
    if row.Some? then [row.value] else []
  }

  /** The rows accumulated, in basket order, after processing `ts`. */
  function Collected(ts: seq<string>, download: string -> Download): (rows: seq<Row>)
  {
    if ts == [] then []
    else
      var t := ts[|ts| - 1];
      Collected(ts[..|ts| - 1], download) + AsSeq(RowFor(t, download(t)))
  }

  /** One more symbol adds its own row, if any, after the others. */
  lemma CollectedSnoc(ts: seq<string>, t: string, download: string -> Download)
    ensures Collected(ts + [t], download) == Collected(ts, download) + AsSeq(RowFor(t, download(t)))
  {
    assert (ts + [t])[..|ts|] == ts;
  }

  /** Each symbol is processed on its own: the rows for a basket are the
      rows for its first part followed by the rows for the rest. */
  lemma {:induction false} CollectedAppend(a: seq<string>, b: seq<string>, download: string -> Download)
    ensures Collected(a + b, download) == Collected(a, download) + Collected(b, download)
  {
    if b == [] {
      assert a + b == a;
    } else {
      var t := b[|b| - 1];
      assert (a + b)[..|a + b| - 1] == a + b[..|b| - 1];
      CollectedAppend(a, b[..|b| - 1], download);
    }
  }

  /** A symbol that is skipped leaves the other rows exactly as they would
      be without it: a failure does not stop the rest of the basket. */
  lemma SkippedSymbolIsInvisible(ts: seq<string>, i: nat, download: string -> Download)
    requires i < |ts|
    requires RowFor(ts[i], download(ts[i])) == None
    ensures Collected(ts, download) == Collected(ts[..i] + ts[i + 1..], download)
  {
    var pre, t, post := ts[..i], ts[i], ts[i + 1..];
    SplitAt(ts, i);
    SkippedAlone(t, download);
    CollectedAppend(pre, [t] + post, download);
    CollectedAppend([t], post, download);
    CollectedAppend(pre, post, download);
    assert Collected(ts, download) == Collected(pre, download) + Collected([t] + post, download);
    assert Collected([t] + post, download) == Collected(post, download);
  }

  lemma SplitAt(ts: seq<string>, i: nat)
    requires i < |ts|
    ensures ts == ts[..i] + ([ts[i]] + ts[i + 1..])
  {
    assert ts == ts[..i + 1] + ts[i + 1..];
    assert ts[..i + 1] == ts[..i] + [ts[i]];
  }

  lemma SkippedAlone(t: string, download: string -> Download)
    requires RowFor(t, download(t)) == None
    ensures Collected([t], download) == []
  {
    assert [t][..0] == [];
  }

  /** A row is in the table exactly when some symbol of the basket
      produced it. */
  lemma CollectedMembers(ts: seq<string>, download: string -> Download, r: Row)
    ensures r in Collected(ts, download) <==>
      exists i :: 0 <= i < |ts| && RowFor(ts[i], download(ts[i])) == Some(r)
  {
    if r in Collected(ts, download) {
      var i := RowSource(ts, download, r);
    }
    if exists i :: 0 <= i < |ts| && RowFor(ts[i], download(ts[i])) == Some(r) {
      var i :| 0 <= i < |ts| && RowFor(ts[i], download(ts[i])) == Some(r);
      RowKept(ts, download, i);
    }
  }

  /** The symbol a row of the table came from. */
  lemma {:induction false} RowSource(ts: seq<string>, download: string -> Download, r: Row) returns (i: nat)
    requires r in Collected(ts, download)
    ensures i < |ts| && RowFor(ts[i], download(ts[i])) == Some(r)
  {
    var n := |ts| - 1;
    var init := ts[..n];
    if r in Collected(init, download) {
      i := RowSource(init, download, r);
      assert init[i] == ts[i];
    } else {
      i := n;
    }
  }

  /** The row of a symbol that is not skipped is in the table. */
  lemma {:induction false} RowKept(ts: seq<string>, download: string -> Download, i: nat)
    requires i < |ts| && RowFor(ts[i], download(ts[i])).Some?
    ensures RowFor(ts[i], download(ts[i])).value in Collected(ts, download)
  {
    var n := |ts| - 1;
    if i < n {
      var init := ts[..n];
      assert init[i] == ts[i];
      RowKept(init, download, i);
    }
  }

  /** At most one row per basket entry, and exactly one per entry when
      none is skipped. */
  lemma {:induction false} CollectedLength(ts: seq<string>, download: string -> Download)
    ensures |Collected(ts, download)| <= |ts|
    ensures |Collected(ts, download)| == |ts| <==>
      forall i :: 0 <= i < |ts| ==> RowFor(ts[i], download(ts[i])).Some?
  {
    if ts != [] {
      var n := |ts| - 1;
      var init := ts[..n];
      CollectedLength(init, download);
      assert forall i :: 0 <= i < n ==> init[i] == ts[i];
    }
  }

  /** The rows are ordered by change, largest first. */
  predicate SortedByChangeDesc(rows: seq<Row>) {
    forall i, j :: 0 <= i < j < |rows| ==> rows[i].change >= rows[j].change
  }

  /** Every row of `rows` changed by at most `bound`. */
  predicate AtMost(rows: seq<Row>, bound: real) {
    forall r :: r in rows ==> r.change <= bound
  }

  /** The first row of a ranked table has the largest change, and the rest
      is ranked too. */
  lemma HeadIsLargest(rows: seq<Row>)
    requires SortedByChangeDesc(rows) && rows != []
    ensures AtMost(rows, rows[0].change)
    ensures SortedByChangeDesc(rows[1..])
  {
    forall i, j | 0 <= i < j < |rows| - 1
      ensures rows[1..][i].change >= rows[1..][j].change
    {
      assert rows[1..][i] == rows[i + 1] && rows[1..][j] == rows[j + 1];
    }
  }

  /** A row placed in front of a ranked table no row of which changed more
      keeps it ranked. */
  lemma RankedCons(y: Row, rows: seq<Row>)
    requires SortedByChangeDesc(rows) && AtMost(rows, y.change)
    ensures SortedByChangeDesc([y] + rows)
  {
    var s := [y] + rows;
    forall i, j | 0 <= i < j < |s| ensures s[i].change >= s[j].change {
      assert s[j] == rows[j - 1];
      if i > 0 {
        assert s[i] == rows[i - 1];
      }
    }
  }

  /** `x` inserted into a table already ranked by change. */
  function InsertByChange(x: Row, rows: seq<Row>): (r: seq<Row>)
    requires SortedByChangeDesc(rows)
    ensures SortedByChangeDesc(r)
    ensures multiset(r) == multiset(rows) + multiset{x}
  {
    if rows == [] then [x]
    else if x.change >= rows[0].change then
      HeadIsLargest(rows);
      RankedCons(x, rows);
      [x] + rows
    else
      HeadIsLargest(rows);
      var rest := InsertByChange(x, rows[1..]);
      RankedBehind(rows[0], x, rows[1..], rest);
      assert rows == [rows[0]] + rows[1..];
      [rows[0]] + rest
  }

  /** A row that changed at least as much as `x` and every row of `tail`
      can head the ranked insertion of `x` into `tail`. */
  lemma RankedBehind(y: Row, x: Row, tail: seq<Row>, rest: seq<Row>)
    requires SortedByChangeDesc(rest)
    requires multiset(rest) == multiset(tail) + multiset{x}
    requires AtMost([y] + tail, y.change) && x.change <= y.change
    ensures SortedByChangeDesc([y] + rest)
  {
    forall r | r in rest ensures r.change <= y.change {
      assert r in multiset(rest);
      if r != x {
        assert r in multiset(tail);
        assert r in [y] + tail;
      }
    }
    RankedCons(y, rest);
  }

  /** The table ranked by change, largest first. */
  function SortByChangeDesc(rows: seq<Row>): (r: seq<Row>)
    ensures SortedByChangeDesc(r)
    ensures multiset(r) == multiset(rows)
  {
    if rows == [] then []
    else
      assert rows == [rows[0]] + rows[1..];
      InsertByChange(rows[0], SortByChangeDesc(rows[1..]))
  }

  /** No two rows share a change. */
  predicate DistinctChanges(rows: seq<Row>) {
    forall i, j :: 0 <= i < j < |rows| ==> rows[i].change != rows[j].change
  }

  /** Ranking leaves freedom only in the order of ties: two rankings of the
      same rows agree when no two rows share a change. */
  lemma {:induction false} RankingUnique(a: seq<Row>, b: seq<Row>)
    requires SortedByChangeDesc(a) && SortedByChangeDesc(b)
    requires multiset(a) == multiset(b)
    requires DistinctChanges(a)
    ensures a == b
  {
    assert |a| == |multiset(a)| == |multiset(b)| == |b|;
    if a != [] {
      SameTop(a, b);
      SameRest(a, b);
      HeadIsLargest(a);
      HeadIsLargest(b);
      assert DistinctChanges(a[1..]) by {
        forall i, j | 0 <= i < j < |a| - 1 ensures a[1..][i].change != a[1..][j].change {
          assert a[1..][i] == a[i + 1] && a[1..][j] == a[j + 1];
        }
      }
      RankingUnique(a[1..], b[1..]);
      assert a == [a[0]] + a[1..] && b == [b[0]] + b[1..];
    }
  }

  /** Two rankings of the same rows without shared changes start alike. */
  lemma SameTop(a: seq<Row>, b: seq<Row>)
    requires SortedByChangeDesc(a) && SortedByChangeDesc(b)
    requires multiset(a) == multiset(b)
    requires DistinctChanges(a)
    requires a != [] && b != []
    ensures a[0] == b[0]
  {
    HeadIsLargest(a);
    HeadIsLargest(b);
    assert a[0] in multiset(b) && b[0] in multiset(a);
    var m :| 0 <= m < |a| && a[m] == b[0];
  }

  lemma SameRest(a: seq<Row>, b: seq<Row>)
    requires multiset(a) == multiset(b)
    requires a != [] && b != [] && a[0] == b[0]
    ensures multiset(a[1..]) == multiset(b[1..])
  {
    assert a == [a[0]] + a[1..] && b == [b[0]] + b[1..];
    assert multiset(a[1..]) == multiset(a) - multiset{a[0]};
    assert multiset(b[1..]) == multiset(b) - multiset{a[0]};
  }

  /** The row of a symbol with at least two closes and a non-zero previous
      close, written as the loop computes it. */
  lemma RowOfCloses(t: string, closes: seq<real>)
    requires |closes| >= 2 && closes[|closes| - 2] != 0.0
    ensures
      var last, prev := closes[|closes| - 1], closes[|closes| - 2];
      RowFor(t, Some(closes)) == Some(Row(RemoveJK(t), last, Round2(((last - prev) / prev) * 100.0)))
  {
  }

  /** The ranked watchlist for a basket. `download` stands for the daily
      download of one symbol (None when it raises). The result holds
      exactly the rows the loop accumulated, ranked by change. */
  method GetWatchlistData(tickers: seq<string>, download: string -> Download) returns (table: seq<Row>)
    ensures SortedByChangeDesc(table)
    ensures multiset(table) == multiset(Collected(tickers, download))
    ensures |table| <= |tickers|
    ensures table == [] <==> Collected(tickers, download) == []
  {
    var combined: seq<Row> := [];
    for i := 0 to |tickers|
      invariant combined == Collected(tickers[..i], download)
    {
      var t := tickers[i];
      assert tickers[..i + 1] == tickers[..i] + [t];
      CollectedSnoc(tickers[..i], t, download);
      ghost var next := combined + AsSeq(RowFor(t, download(t)));
      assert Collected(tickers[..i + 1], download) == next;
      match download(t) {
        case None =>
          // the download raised: skip this symbol
        case Some(closes) =>
          if |closes| >= 2 {
            var price := closes[|closes| - 1];
            var prev := closes[|closes| - 2];
            if prev != 0.0 {
              var change := ((price - prev) / prev) * 100.0;
              RowOfCloses(t, closes);
              combined := combined + [Row(RemoveJK(t), price, Round2(change))];
            }
          }
      }
      assert combined == next;
    }
    assert tickers[..|tickers|] == tickers;
    CollectedLength(tickers, download);
    if |combined| == 0 {
      return combined;
    }
    table := SortByChangeDesc(combined);
    SameSize(table, combined);
  }

  /** Two tables holding the same rows have the same length. */
  lemma SameSize(a: seq<Row>, b: seq<Row>)
    requires multiset(a) == multiset(b)
    ensures |a| == |b|
  {
    assert |a| == |multiset(a)| == |multiset(b)| == |b|;
  }

  /** A basket of three symbols: one up ten percent, one down ten percent,
      and one with a single close. The third is left out and the ranking
      is fully determined: the riser first, then the faller. */
  lemma ExampleRanking(up: string, down: string, short: string, download: string -> Download, table: seq<Row>)
    requires download(up) == Some([100.0, 110.0])
    requires download(down) == Some([50.0, 45.0])
    requires download(short) == Some([7.0])
    requires SortedByChangeDesc(table)
    requires multiset(table) == multiset(Collected([up, down, short], download))
    ensures table == [Row(RemoveJK(up), 110.0, 10.0), Row(RemoveJK(down), 45.0, -10.0)]
  {
    var ranked := [Row(RemoveJK(up), 110.0, 10.0), Row(RemoveJK(down), 45.0, -10.0)];
    ExampleRows(up, down, short, download);
    assert SortedByChangeDesc(ranked) && DistinctChanges(ranked);
    RankingUnique(ranked, table);
  }

  lemma ExampleRows(up: string, down: string, short: string, download: string -> Download)
    requires download(up) == Some([100.0, 110.0])
    requires download(down) == Some([50.0, 45.0])
    requires download(short) == Some([7.0])
    ensures Collected([up, down, short], download)
      == [Row(RemoveJK(up), 110.0, 10.0), Row(RemoveJK(down), 45.0, -10.0)]
  {
    CollectedOfThree(up, down, short, download);
    WholeIsHundredths(10);
    RowOfTwoCloses(up, 100.0, 110.0, 10.0);
    WholeIsHundredths(-10);
    RowOfTwoCloses(down, 50.0, 45.0, -10.0);
  }

  lemma CollectedOfThree(t1: string, t2: string, t3: string, download: string -> Download)
    ensures Collected([t1, t2, t3], download)
      == AsSeq(RowFor(t1, download(t1))) + AsSeq(RowFor(t2, download(t2))) + AsSeq(RowFor(t3, download(t3)))
  {
    CollectedSnoc([], t1, download);
    assert [] + [t1] == [t1];
    CollectedSnoc([t1], t2, download);
    assert [t1] + [t2] == [t1, t2];
    CollectedSnoc([t1, t2], t3, download);
    assert [t1, t2] + [t3] == [t1, t2, t3];
  }

  lemma RowOfTwoCloses(t: string, prev: real, last: real, change: real)
    requires prev != 0.0
    requires prev * change == (last - prev) * 100.0 && IsHundredths(change)
    ensures RowFor(t, Some([prev, last])) == Some(Row(RemoveJK(t), last, change))
  {
    Round2Exact(change);
    var p := PercentChange(prev, last);
    assert prev * (p - change) == 0.0;
    assert p == change;
  }
}
