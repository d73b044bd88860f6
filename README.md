# Watchlist ranker of StockPro Ultimate 2026

This project models the one piece of `app.py` that holds logic: the
watchlist ranker `get_watchlist_data`, plus the three small page rules
beside it. The ranker takes a basket of Indonesia Stock Exchange symbols
(such as `BBRI.JK`). It downloads each symbol's recent daily closes and
skips a symbol when its download fails, when fewer than two closes come
back, or when the previous close is zero (the division would raise). For
each remaining symbol it builds a row: the label (the symbol with `.JK`
removed), the last close, and the percent change from the previous close
rounded to two decimals. It then ranks the rows by change, largest first.
The page shows the first `min(5, rows)` rows as headline metrics. It opens
the detail view on the top row's label, or on `BBRI` when there are no
rows, and turns a typed code into a full symbol by upper-casing it and
appending `.JK`.

Modules, one file each:

- `Rounding` (`rounding.dfy`): Python's `round(x, 2)` on exact reals, with ties going to the even hundredth. It is proved to stay within half a hundredth, to be monotone, idempotent and sign-preserving.
- `Symbols` (`symbols.dfy`): the `.JK` removal (`str.replace`), ASCII upper-casing, the detail symbol, and the recommended basket.
- `Watchlist` (`watchlist.dfy`): the per-symbol step (`RowFor`), the rows accumulated in basket order (`Collected`), the ranking sort, and the method `GetWatchlistData` with its accumulation loop.
- `Page` (`page.dfy`): the default detail ticker and the headline count.

The download is a parameter `download: string -> Option<seq<real>>`. It
gives the closes of one symbol, oldest first, or `None` when the call
raised. Everything `GetWatchlistData` promises holds for every such
function.

## Model

| member | source | states |
|---|---|---|
| `Watchlist.GetWatchlistData` | app.py:19-41 | The loop keeps the accumulated rows equal to `Collected` of the symbols seen so far. The result is ranked by change, largest first, and holds exactly the accumulated rows (as a multiset). It has at most as many rows as basket entries (a symbol listed twice gives two rows), and the result is empty when no symbol produced a row. |
| `Watchlist.RowFor` | app.py:25-36 | A symbol yields a row if and only if its download succeeded, returned at least two closes, and its second-to-last close is non-zero. |
| `Watchlist.RowContents` | app.py:27-33 | A row holds the label with `.JK` removed and the last close. Its change is a whole number of hundredths within 0.005 of the exact percent change from the previous close. |
| `Watchlist.PercentChange` | app.py:29 | Satisfies `prev * p == (last - prev) * 100`. For a positive previous close, the change is positive exactly when the price rose and negative exactly when it fell. |
| `Watchlist.ChangeFollowsPrice` | app.py:27-33 | With a positive previous close, a rise never shows as a negative rounded change and a fall never shows as a positive one. |
| `Watchlist.Collected` | app.py:20-36 | The reference definition of `combined_data`: the row of each basket symbol, if it has one, in basket order. It has no contract of its own. `CollectedAppend`, `CollectedMembers`, `RowKept` and `CollectedLength` state what it means. |
| `Watchlist.CollectedAppend` | app.py:21-36 | Symbols are processed independently: the rows for `a + b` are the rows for `a` followed by the rows for `b`. |
| `Watchlist.SkippedSymbolIsInvisible` | app.py:35-36 | A skipped symbol (failed download, short series, zero previous close) leaves the rows exactly as if it were absent from the basket. Processing goes on with the rest. |
| `Watchlist.CollectedMembers` | app.py:21-34 | A row is accumulated if and only if some symbol of the basket produced it. |
| `Watchlist.RowSource` | app.py:21-34 | Every accumulated row comes from some basket symbol, whose index is returned. |
| `Watchlist.RowKept` | app.py:21-34 | The row of every symbol that is not skipped is accumulated. |
| `Watchlist.CollectedLength` | app.py:20-36 | There are at most as many rows as symbols, with equality if and only if no symbol is skipped. |
| `Watchlist.InsertByChange` | app.py:40 | Inserting a row into a ranked table gives a ranked table holding the old rows plus the new one. |
| `Watchlist.SortByChangeDesc` | app.py:40 | The ranking, standing in for `sort_values(ascending=False)`: the output is ordered by change, largest first, and is a permutation of the input. |
| `Watchlist.RankingUnique` | app.py:40 | Two rankings of the same rows are equal when no two rows share a change. The order of ties is the only freedom the sort has. |
| `Watchlist.ExampleRanking` | app.py:19-41 | Take a basket of a symbol going 100 to 110, one going 50 to 45, and one with a single close. Any ranking of its rows is exactly `[label1: 110, +10.00; label2: 45, -10.00]`, and the third symbol is omitted. |
| `Rounding.Round2` | app.py:33 | The result is a whole number of hundredths within 0.005 of the input. |
| `Rounding.Round2Monotone` | app.py:33 | Rounding never reverses the order of two changes. |
| `Rounding.Round2Exact` | app.py:33 | A value that already has two decimals is unchanged. |
| `Rounding.Round2Idempotent` | app.py:33 | Rounding twice equals rounding once. |
| `Rounding.Round2KeepsSign` | app.py:33 | Non-negative inputs round to non-negative values and non-positive inputs to non-positive values. |
| `Symbols.RemoveJK` | app.py:31 | The label is never longer than the symbol and is shorter by a multiple of three characters. A symbol without a dot is unchanged. Which characters go is stated by `RemoveJKSplit` and `RemoveJKNoOccurrence`. |
| `Symbols.RemoveJKSplit` | app.py:31 | An occurrence of `.JK` splits the label: the label of `a + ".JK" + b` is the label of `a` followed by the label of `b`. With `RemoveJKNoOccurrence`, splitting at the first occurrence fixes the label of every string. |
| `Symbols.RemoveJKNoOccurrence` | app.py:31 | A string in which `.JK` does not occur is its own label. |
| `Symbols.RemoveJKDropsSuffix` | app.py:31 | Appending `.JK` to a string does not change its label. |
| `Symbols.Upper` | app.py:77 | Upper-casing keeps the length and maps every character through the ASCII case map: a lower-case letter becomes its capital, every other character is kept. |
| `Symbols.UpperIdempotent` | app.py:77 | After upper-casing no lower-case letter remains, so upper-casing again changes nothing. |
| `Symbols.DetailSymbol` | app.py:77-78 | The full symbol is the typed code with each character upper-cased, followed by `.JK`; it has no lower-case letters. |
| `Symbols.CodeRoundTrip` | app.py:31 | For a code of upper-case letters and digits, the label of `code + ".JK"` is the code itself, and its detail symbol is `code + ".JK"`. |
| `Symbols.DetailSymbolOfLabel` | app.py:76-78 | For a well-formed basket symbol, typing its label into the detail view gives back the same symbol. |
| `Symbols.EmitenListWellFormed` | app.py:13-16 | Every symbol of the recommended basket is a code followed by `.JK`. |
| `Page.DefaultTicker` | app.py:76 | With no rows the default ticker is `BBRI`. Otherwise it is the label of a row of the table. |
| `Page.HeadlineCount` | app.py:51 | The number of headline metrics is at most 5 and at most the number of rows, and equals one of the two, so it is `min(5, rows)`. |
| `Page.Headlines` | app.py:51-52 | The headline rows are a prefix of the table, of length `HeadlineCount`. |
| `Page.HeadlinesAreTopMovers` | app.py:51 | On a ranked table, every headline row changed at least as much as every row left out of the headline. |
| `Page.DefaultTickerIsTopMover` | app.py:76 | For any ranking of the accumulated rows, the default ticker is `BBRI` when no row was produced. Otherwise it is the label of a basket symbol whose change is at least that of every symbol that produced a row. |
| `Page.DetailSymbolOfDefault` | app.py:76-78 | When all basket symbols are well formed and some row was produced, the detail view opened on the default ticker downloads one of the basket's own symbols. |
| `Page.DefaultBasketDetailSymbol` | app.py:13-16 | Take a basket drawn from the recommended list (the list itself included) and any download outcome. The detail view opened on the default ticker downloads a recommended symbol: `BBRI.JK` when no row was produced, otherwise the basket symbol of the table's first row (a top mover when the table is ranked, by `DefaultTickerIsTopMover`). |
| `Page.FallbackIsRecommended` | app.py:76-78 | The fallback ticker `BBRI` becomes `BBRI.JK`, the first recommended symbol. |

## Left out

- Streamlit page setup, titles, metric widgets, the data table, warnings and error widgets are presentation. So is the `try/except` around each headline metric.
- `@st.cache_data(ttl=300)` is time-based caching and does not change what the function returns.
- The network calls `yf.download` and `yf.Ticker(...).news` are left out. The watchlist download is the `download` parameter, so a symbol listed twice gets the same result both times. The detail view's one-year download and the news list are not modelled.
- The candlestick chart of the detail view is rendering only.
- Prices are exact reals, not IEEE doubles. NaN or infinite closes, float division error and Python's rounding of the exact binary value are not modelled. `Round2` rounds ties to even on exact reals.
- `Symbols.Upper` covers ASCII only. Python's full Unicode upper-casing (for example `ß` to `SS`) is not modelled.
- Only the `Close` column of the downloaded frame is modelled. The other OHLCV columns play no part in the ranker.
- `Watchlist.GetWatchlistData`: does not state the order of rows with equal changes, because pandas' default sort is not stable. `SortByChangeDesc` happens to keep basket order on ties, and nothing relies on that.
- `app.py` contains no technical indicators (moving averages, RSI, MACD, stochastic, Bollinger bands) and no price projection, so none is modelled.
- `app.py` always sorts by percent change, largest first, has no price filter, and uses pandas' default (not stable) sort. The model has no sort-key or direction parameter and no filter for the same reason.
