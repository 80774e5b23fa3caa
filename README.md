# P2P USDT/BOB clearing-price aggregation — Dafny model

This project models the statistical core of a pipeline that derives clearing-price and
volume series for a peer-to-peer USDT market from order-book listings. It also models
the residual between an exchange-derived rate and an official reference rate. Four pure
pieces are modelled:

- **Trade-implied VWAP and demand** (`on_transactions`, module `SnapshotDiff`).
  Listings are pivoted into a sparse (timestamp, advertiser) table, where a duplicate
  key keeps its last row. Each advertiser's quantity is differenced against the
  *previous row of the shared sorted timestamp grid*. A decrease is a fill weight; an
  increase is clipped to 0. demand is the sum of the defined weights, and vwap_sale is
  Σw·p / Σw.
- **Listing-implied VWAP and supply** (`on_advs`, module `OrderBook`). Raw rows are
  grouped by timestamp, duplicates included, and averaged with posted quantity as the
  weight. A group whose quantities sum to zero aborts the batch, as `np.average` raises.
- **Series merge** (module `SeriesMerger`). The four series are outer-aligned on
  timestamp and every row with a missing field is dropped. `Publish` is one trade side
  end to end.
- **Backward as-of residual** (`compute_residual`, module `AsofResidual`). Both
  series are sorted by timestamp. Each exchange observation is matched with the
  reference observation of greatest timestamp at or before it, the last one among
  ties. The residual is the difference rounded to hundredths; unmatched or missing
  rows are dropped.

Supporting modules: `Frames` (float cells with missing values and infinities, series
division, rounding to hundredths), `SortedKeys` (the sorted distinct index that
grouping and pivoting produce) and `WeightedSums` (Σw, Σw·p and the weighted-average
bounds shared by both VWAPs).

`update.py` holds verbatim copies of `on_transactions`, `on_advs` and the
concat/dropna merge of `update_binance.py`. One set of modules models both files, and
the table cites whichever copy a member's property is read from.

Prices, quantities and weights are `real`; timestamps and advertiser ids are `int`. A
float cell is `Float = Num(v) | NaN | Inf(negative)`. A missing weight or a missing
observation value is an `Option`.

Behaviour of the code that is easy to misread:

- Differencing is grid-positional, as `DataFrame.diff` is (update_binance.py:18). An
  advertiser absent at the previous grid timestamp gets no weight at the current one,
  even if it was observed earlier. The difference is not taken against the
  advertiser's own last observation (`SnapshotDiff.Weight`).
- When a group's listed quantities sum to zero, `np.average` raises
  (update_binance.py:28) and the whole batch stops. No undefined value is passed on
  to the merge (`OrderBook.OnAdvs`).
- The as-of match (update_referencial.py:63-69) is stated per exchange observation:
  the last reference at or before it in sorted order. That is the result
  `merge_asof(direction="backward")` gives. No particular merge algorithm is
  modelled.
- vwap_advs weights each price by its listed quantity (update_binance.py:28). With
  quantities 50 and 150 at prices 10 and 12 it is (50·10 + 150·12) / 200 = 11.5, not
  the unweighted mean 11 (`OrderBook.WeightedAverageExample`).

## Model

| member | source | states |
|---|---|---|
| `Frames.Div` | update_binance.py:20 | Series division is finite exactly when the divisor is non-zero, and then the quotient times the divisor is the dividend. 0/0 is missing; any other zero divisor gives an infinity of the dividend's sign. |
| `Frames.Round2` | update_referencial.py:72 | `round(x, 2)` is within 0.005 of x and is a whole number of hundredths. |
| `Frames.Round2Exact` | update_referencial.py:72 | A value that already has at most two decimals is unchanged by rounding. |
| `Frames.Round2Idempotent` | update_referencial.py:72 | Rounding a rounded value changes nothing. |
| `SortedKeys.Distinct` | update_binance.py:13-15 | The pivot or group index is strictly ascending and holds exactly the values of the key column. |
| `SortedKeys.InsertKey` | update_binance.py:13-15 | Adding a label to a strictly ascending index keeps it strictly ascending, with exactly the old labels plus the new one. |
| `SnapshotDiff.Pivot` | update_binance.py:12-17 | The sparse pivot has a cell for a (timestamp, advertiser) pair exactly when some listing has that key. |
| `SnapshotDiff.PivotKeepsLast` | update.py:15-20 | Duplicate (timestamp, advertiser) rows collapse to the quantity and price of the last such row. |
| `SnapshotDiff.Grid` | update_binance.py:14 | The pivot's rows are the distinct listing timestamps, strictly ascending. |
| `SnapshotDiff.Columns` | update_binance.py:14 | The pivot's columns are the distinct advertisers, strictly ascending. |
| `SnapshotDiff.Delta` | update_binance.py:18 | `amount.diff()` is defined iff the advertiser has a cell at this grid timestamp and at the immediately preceding one. The previous quantity plus the difference is the current quantity. |
| `SnapshotDiff.Weight` | update_binance.py:18-19 | A weight is defined iff the advertiser has a cell at this grid timestamp and at the immediately preceding one, so there is none at the first timestamp or after an absence. A defined weight is ≥ 0. It is positive iff the quantity fell, and then equals the drop. |
| `SnapshotDiff.Contributions` | update_binance.py:19-21 | Every summed weight is non-negative, and there are at most as many pairs as advertisers. |
| `SnapshotDiff.ContributionsExact` | update_binance.py:19-21 | A pair is summed iff it is the (weight, current price) of an advertiser with a defined weight. Every pair comes from such an advertiser, and every such advertiser contributes its pair, so advertisers without a weight are skipped. |
| `SnapshotDiff.ContributionsOne` | update_binance.py:19-21 | One advertiser contributes exactly one pair, its (weight, current price), when its weight is defined, and none otherwise. |
| `SnapshotDiff.ContributionsAppend` | update_binance.py:19-21 | The pairs of two blocks of advertisers are the pairs of each block in order. With `ContributionsOne`, each advertiser with a defined weight gives exactly one pair, so demand counts each such weight once. |
| `SnapshotDiff.DemandAt` | update_binance.py:21 | demand at a grid timestamp is never negative. |
| `SnapshotDiff.VwapSaleAt` | update_binance.py:20 | vwap_sale is never infinite. It is missing exactly when demand is 0, and otherwise vwap_sale × demand = Σw·p. |
| `SnapshotDiff.OnTransactions` | update_binance.py:11-22 | Both outputs are indexed by the timestamp grid. At grid row i, demand is `DemandAt(rows, i)`, the sum of the defined weights, and vwap_sale is `VwapSaleAt(rows, i)`, Σw·p / Σw. demand is always present and ≥ 0, and vwap_sale is missing exactly where demand is 0. |
| `SnapshotDiff.DemandPositiveIff` | update.py:23-24 | demand at a timestamp is positive iff some advertiser's quantity fell since the previous grid row. |
| `SnapshotDiff.FirstRowNoDemand` | update.py:21-22 | The first grid timestamp has demand 0 (not missing) and a missing vwap_sale. |
| `SnapshotDiff.VwapSaleWithin` | update_binance.py:20 | When demand is positive, vwap_sale lies in any interval that holds the prices of all advertisers with a positive weight, so it lies between their minimum and maximum. |
| `SnapshotDiff.SingleFillPrice` | update.py:23 | When exactly one advertiser has a positive weight, vwap_sale equals that advertiser's price. |
| `SnapshotDiff.FillExample` | update_binance.py:11-22 | For quantities 100, 100, 40 at price 10, the weights are none, 0 and 60. demand is 0, 0, 60 and vwap_sale is missing, missing, 10. |
| `OrderBook.GroupAt` | update_binance.py:29 | A pair is in the group at t iff it is the (quantity, price) of some raw row at t, and there are no more pairs than rows. When every row is at t, the group has one pair per row in row order, so duplicate rows are kept. With `GroupAppend` this fixes the multiplicity for any rows. |
| `OrderBook.SupplyAt` | update_binance.py:32 | supply at t is never negative when the quantities at t are not, and it is 0 when no row has timestamp t. |
| `OrderBook.VwapAdvsAt` | update_binance.py:28 | With non-negative quantities and a non-zero total, vwap_advs lies in every interval that holds the prices of the positively weighted rows at t. vwap_advs × total quantity = Σq·p over the group. |
| `OrderBook.FirstZeroSupply` | update_binance.py:26-31 | Finds the earliest timestamp whose group quantities sum to 0, or none when no group sums to 0. |
| `OrderBook.BookSeries` | update_binance.py:26-32 | When no group sums to zero, both series are indexed by the given timestamps. Each supply entry is its group's quantity sum and each vwap_advs entry its group's weighted price. |
| `OrderBook.OnAdvs` | update_binance.py:25-33 | Fails iff some timestamp's quantities sum to 0, naming such a timestamp. Otherwise both series are indexed by the grid, supply is the group's quantity sum, and vwap_advs is the group's quantity-weighted price. |
| `OrderBook.GroupAppend` | update_binance.py:29 | Grouping distributes over concatenation of the raw rows. |
| `OrderBook.SumWAppend` | update_binance.py:32 | A total over concatenated groups is the sum of their totals. |
| `OrderBook.SupplyAppend` | update_binance.py:32 | supply is additive over the raw rows, so duplicates are not collapsed. |
| `OrderBook.SupplyCountsEveryRow` | update.py:35 | One more row at t raises supply(t) by that row's quantity. |
| `OrderBook.GroupWithin` | update.py:31 | With non-negative quantities, every positively weighted price of a group lies within the bounds of the listed prices. |
| `OrderBook.VwapAdvsWithin` | update.py:29-34 | With non-negative quantities and a non-zero total, vwap_advs lies in [min price, max price] at t. |
| `OrderBook.WeightedAverageExample` | update_binance.py:26-32 | Quantities 50 and 150 at prices 10 and 12 give vwap_advs 11.5 and supply 200. |
| `SeriesMerger.Lookup` | update_binance.py:69 | After outer alignment, a present cell at label t is a cell of the series with that label. Labels the series lacks read as missing. |
| `SeriesMerger.LookupAt` | update_binance.py:69 | In a series without repeated labels, looking up a label yields that label's own cell. |
| `SeriesMerger.DropNa` | update_binance.py:71 | Keeps exactly the rows with no missing field, in order. |
| `SeriesMerger.Aligned` | update_binance.py:68-70 | Outer alignment gives strictly ascending labels. Every row holds the four cells aligned at its own label, and every label at which all four series are present has its row. |
| `SeriesMerger.Merge` | update_binance.py:68-72 | Output timestamps are strictly ascending, so each appears once. Every row holds the four aligned cells of its timestamp, none missing. A timestamp is emitted iff all four series are present there. |
| `SeriesMerger.Publish` | update_binance.py:66-72 | One trade side fails iff some grid timestamp has zero listed quantity. |
| `SeriesMerger.PublishedRowsAreComplete` | update.py:54-60 | When no group sums to zero, every published row is at a grid timestamp with positive demand. It carries that timestamp's finite vwap_sale, demand, supply and vwap_advs. |
| `SeriesMerger.PublishedExactlyWhereDemand` | update.py:56-60 | When no group sums to zero, a grid timestamp is published iff its demand is positive. |
| `AsofResidual.Insert` | update_referencial.py:49-52 | Inserting into a timestamp-sorted series keeps it sorted and adds exactly that observation. |
| `AsofResidual.SortByTime` | update_referencial.py:49-59 | Sorting yields an ascending permutation of the input. |
| `AsofResidual.LastAtOrBefore` | update_referencial.py:63-69 | The backward match is at or before t and no later observation is. It is absent iff every observation is after t. |
| `AsofResidual.AsofIsLatest` | update_referencial.py:63-69 | On sorted references, the match has the greatest timestamp ≤ t and is the last among equal timestamps. |
| `AsofResidual.ResidualFor` | update_referencial.py:71-72 | The row of an exchange observation keeps that observation's own timestamp. |
| `AsofResidual.ResidualForSound` | update_referencial.py:63-72 | A row exists only when the exchange value, a backward match and its value exist. The row holds round(exchange − reference, 2). |
| `AsofResidual.Join` | update_referencial.py:63-73 | The join has no more rows than there are exchange observations. |
| `AsofResidual.JoinSound` | update_referencial.py:63-69 | Every joined row is the row of some exchange observation. |
| `AsofResidual.JoinComplete` | update_referencial.py:71-73 | Every exchange observation that has a row contributes it. |
| `AsofResidual.JoinOrdered` | update_referencial.py:55-69 | Sorted exchange input gives rows in timestamp order. |
| `AsofResidual.JoinRowSound` | update_referencial.py:63-73 | A joined row of sorted copies is an exchange observation's rounded difference to a backward match. |
| `AsofResidual.JoinRowComplete` | update_referencial.py:63-73 | In the join of sorted copies, an exchange observation with a value gets its own row: its timestamp and round(exchange − reference, 2). This holds whenever its backward match in the sorted references has a value, and the match is a backward match in the original references. |
| `AsofResidual.ComputeResidual` | update_referencial.py:45-73 | No more rows than exchange observations, in ascending exchange-timestamp order. |
| `AsofResidual.ResidualSound` | update_referencial.py:61-73 | Each row has an exchange observation's own timestamp and value round(exchange − reference, 2), where the reference has the greatest timestamp at or before it. An exact-equality match counts; no later reference is used. |
| `AsofResidual.ResidualComplete` | update_referencial.py:63-73 | Take an exchange observation with a value whose backward match has a value. The output holds its row: its own timestamp and round(exchange − reference, 2) against that backward match. A missing value on any other reference does not matter. |
| `AsofResidual.NoForwardMatch` | update_referencial.py:63-69 | An exchange timestamp that precedes every reference has no row. |
| `AsofResidual.ResidualExample` | update_referencial.py:63-73 | Reference (09:00, 6.90) with exchange (08:00, 6.80) and (09:05, 6.95) yields exactly one row, (09:05, 0.05). |

## Left out

- Dataset download (`kagglehub.dataset_load`) and the HTTPS CSV reads (update_binance.py:52-56, update.py:39-43, update_referencial.py:30-42): network I/O. Their results are the inputs of the modelled functions.
- CSV writing, `float_format`, the upload helper and the upsert with its error handling (update_binance.py:83-85, update.py:44, update.py:71-77, update_referencial.py:76-87): I/O and foreign calls.
- Credentials from the environment (update.py:10-11) and the `--upload` flag (update_binance.py:36-49, update_referencial.py:15-27): process configuration and CLI plumbing.
- The USDT/trade-side row filter and the BUY→dolar_sell, SELL→dolar_buy table naming (update_binance.py:58-64, update.py:46-52): the model takes the filtered rows of one side.
- Timestamp formatting and timezone handling (update_binance.py:80-81, update.py:68-69, update_referencial.py:61): timestamps are integer instants, and dropping the timezone is the identity on them.
- Floating-point arithmetic: sums, products and quotients are exact reals. `Frames.Round2` rounds the exact value ×100 half to even; it does not round a binary float.
- Null cells in the listings are not modelled, so every listing has a price and a quantity. Pivot "last" and the null-skipping sums therefore see complete rows. Observations of the residual series may have a missing value.
- AsofResidual.SortByTime: the sort is stable by construction, but no contract states the tie order. The default `sort_values` algorithm does not promise stability. Among equal reference timestamps the match is the last one in the modelled sorted order.
- The exceptions `merge_asof` raises for unsorted or null keys cannot occur: both inputs are sorted and timestamps are integers.
- `Publish` models one side. The loop over both sides, and the run stopping at the first failing side, are not modelled.
