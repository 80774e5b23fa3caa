/** Trade-implied VWAP and demand of one trade side (`on_transactions`).
    Listings are pivoted into a sparse table keyed by (timestamp, advertiser); each
    advertiser's quantity is differenced against the previous row of the shared,
    sorted timestamp grid, and a decrease is read as a fill of that size. */
module SnapshotDiff {
  import opened Frames
  import opened SortedKeys
  import opened WeightedSums

  /** One raw order-book row of one trade side. */
  datatype Listing = Listing(advertiser: int, timestamp: int, price: real, quantity: real)

  /** The quantity and price the pivot keeps for one (timestamp, advertiser) cell. */
  datatype Snapshot = Snapshot(quantity: real, price: real)

  /** Sparse pivot table: an advertiser absent at a timestamp has no entry. */
  type Table = map<(int, int), Snapshot>

  function Key(l: Listing): (int, int) {
    (l.timestamp, l.advertiser)
  }

  predicate HasRow(rows: seq<Listing>, t: int, a: int) {
    exists i :: 0 <= i < |rows| && Key(rows[i]) == (t, a)
  }

  /** Both pivot tables at once, aggregated with "last": each cell holds the
      quantity and price of the last row with that key. */
  function Pivot(rows: seq<Listing>): (m: Table)
    ensures forall t, a :: (t, a) in m <==> HasRow(rows, t, a)
  {
    if rows == [] then map[]
    else
      var last := rows[|rows| - 1];
      var front := rows[..|rows| - 1];
      var m := Pivot(front);
      assert forall t, a :: HasRow(rows, t, a) <==> HasRow(front, t, a) || Key(last) == (t, a) by {
        forall t, a | HasRow(rows, t, a) && Key(last) != (t, a) ensures HasRow(front, t, a) {
          var i :| 0 <= i < |rows| && Key(rows[i]) == (t, a);
          assert i < |front| && front[i] == rows[i];
        }
        forall t, a | HasRow(front, t, a) ensures HasRow(rows, t, a) {
          var i :| 0 <= i < |front| && Key(front[i]) == (t, a);
          assert rows[i] == front[i];
        }
      }
      m[Key(last) := Snapshot(last.quantity, last.price)]
  }

  /** Duplicate (timestamp, advertiser) rows collapse to the last one. */
  lemma {:induction false} PivotKeepsLast(rows: seq<Listing>, i: int)
    requires 0 <= i < |rows|
    requires forall j :: i < j < |rows| ==> Key(rows[j]) != Key(rows[i])
    ensures Key(rows[i]) in Pivot(rows)
    ensures Pivot(rows)[Key(rows[i])] == Snapshot(rows[i].quantity, rows[i].price)
  {
    if i < |rows| - 1 {
      var front := rows[..|rows| - 1];
      assert front[i] == rows[i];
      forall j | i < j < |front| ensures Key(front[j]) != Key(front[i]) {
        assert front[j] == rows[j];
      }
      PivotKeepsLast(front, i);
    }
  }

  /** The row labels of the pivot: the distinct timestamps, ascending. */
  function Grid(rows: seq<Listing>): (grid: seq<int>)
    ensures StrictlyIncreasing(grid)
    ensures forall t :: t in grid <==> exists i :: 0 <= i < |rows| && rows[i].timestamp == t
  {
    var ts := seq(|rows|, i requires 0 <= i < |rows| => rows[i].timestamp);
    assert forall t :: t in ts <==> exists i :: 0 <= i < |rows| && rows[i].timestamp == t by {
      forall t | t in ts ensures exists i :: 0 <= i < |rows| && rows[i].timestamp == t {
        var i :| 0 <= i < |ts| && ts[i] == t;
        assert rows[i].timestamp == t;
      }
      forall t | exists i :: 0 <= i < |rows| && rows[i].timestamp == t ensures t in ts {
        var i :| 0 <= i < |rows| && rows[i].timestamp == t;
        assert ts[i] == t;
      }
    }
    Distinct(ts)
  }

  /** The column labels of the pivot: the distinct advertisers, ascending. */
  function Columns(rows: seq<Listing>): (cols: seq<int>)
    ensures StrictlyIncreasing(cols)
    ensures forall a :: a in cols <==> exists i :: 0 <= i < |rows| && rows[i].advertiser == a
  {
    var advs := seq(|rows|, i requires 0 <= i < |rows| => rows[i].advertiser);
    assert forall a :: a in advs <==> exists i :: 0 <= i < |rows| && rows[i].advertiser == a by {
      forall a | a in advs ensures exists i :: 0 <= i < |rows| && rows[i].advertiser == a {
        var i :| 0 <= i < |advs| && advs[i] == a;
        assert rows[i].advertiser == a;
      }
      forall a | exists i :: 0 <= i < |rows| && rows[i].advertiser == a ensures a in advs {
        var i :| 0 <= i < |rows| && rows[i].advertiser == a;
        assert advs[i] == a;
      }
    }
    Distinct(advs)
  }

  /** `amount.diff()`: change of an advertiser's quantity since the previous grid row;
      missing at the first row and wherever either cell is empty. */
  function Delta(m: Table, grid: seq<int>, i: nat, a: int): (d: Option<real>)
    requires i < |grid|
    ensures d.Some? <==> 0 < i && (grid[i - 1], a) in m && (grid[i], a) in m
    ensures d.Some? ==> m[(grid[i - 1], a)].quantity + d.value == m[(grid[i], a)].quantity
  {
    if i == 0 || (grid[i - 1], a) !in m || (grid[i], a) !in m then None
    else Some(m[(grid[i], a)].quantity - m[(grid[i - 1], a)].quantity)
  }

  /** `(-delta_amount).clip(lower=0)`: the inferred fill of advertiser `a` at grid row `i`. */
  function Weight(m: Table, grid: seq<int>, i: nat, a: int): (w: Option<real>)
    requires i < |grid|
    ensures w.Some? <==> 0 < i && (grid[i - 1], a) in m && (grid[i], a) in m
    ensures w.Some? ==> w.value >= 0.0
    ensures w.Some? ==> (w.value > 0.0 <==> m[(grid[i], a)].quantity < m[(grid[i - 1], a)].quantity)
    ensures w.Some? && w.value > 0.0 ==> w.value == m[(grid[i - 1], a)].quantity - m[(grid[i], a)].quantity
  {
    match Delta(m, grid, i, a)
    case None => None
    case Some(d) => Some(if -d < 0.0 then 0.0 else -d)
  }

  /** Advertiser `a` has a positive inferred fill at grid row `i`. */
  predicate Fills(m: Table, grid: seq<int>, i: nat, a: int)
    requires i < |grid|
  {
    var w := Weight(m, grid, i, a); w.Some? && w.value > 0.0
  }

  /** The (weight, price) pairs of the advertisers in `cols` whose weight is defined
      at grid row `i`; advertisers without a weight are skipped, as a null-skipping sum does. */
  function Contributions(m: Table, grid: seq<int>, i: nat, cols: seq<int>): (ps: seq<Pair>)
    requires i < |grid|
    ensures NonNegative(ps)
    ensures |ps| <= |cols|
  {
    if cols == [] then []
    else
      var rest := Contributions(m, grid, i, cols[1..]);
      match Weight(m, grid, i, cols[0])
      case None => rest
      case Some(w) =>
        assert forall k :: 1 <= k < |rest| + 1 ==> ([Pair(w, m[(grid[i], cols[0])].price)] + rest)[k] == rest[k - 1];
        [Pair(w, m[(grid[i], cols[0])].price)] + rest
  }

  /** The pairs summed at grid row `i` of the pivot of `rows`. */
  function PairsAt(rows: seq<Listing>, i: nat): (ps: seq<Pair>)
    requires i < |Grid(rows)|
    ensures NonNegative(ps)
  {
    Contributions(Pivot(rows), Grid(rows), i, Columns(rows))
  }

  /** `weights.sum(axis=1)` at grid row `i`: the sum of the defined weights, 0 when none is. */
  function DemandAt(rows: seq<Listing>, i: nat): (d: real)
    requires i < |Grid(rows)|
    ensures d >= 0.0
  {
    var ps := PairsAt(rows, i);
    SumWNonNegative(ps);
    SumW(ps)
  }

  /** `(weights * price).sum(axis=1) / weights.sum(axis=1)` at grid row `i`: never
      infinite, missing exactly when the demand is zero, and otherwise the price that
      times the demand gives the weighted sum of prices. */
  function VwapSaleAt(rows: seq<Listing>, i: nat): (v: Float)
    requires i < |Grid(rows)|
    ensures !v.Inf?
    ensures v.NaN? <==> DemandAt(rows, i) == 0.0
    ensures v.Num? ==> v.v * DemandAt(rows, i) == SumWP(PairsAt(rows, i))
  {
    var ps := PairsAt(rows, i);
    assert SumW(ps) == 0.0 ==> SumWP(ps) == 0.0 by {
      if SumW(ps) == 0.0 { ZeroTotalWeight(ps); }
    }
    Div(SumWP(ps), SumW(ps))
  }

  /** Both outputs of `on_transactions`, indexed by the timestamp grid. */
  datatype TradeStats = TradeStats(vwap: Series, demand: Series)

  /** `on_transactions`: one vwap_sale and one demand entry per grid timestamp, holding
      that row's `DemandAt` and `VwapSaleAt`; demand is never missing and never
      negative, vwap_sale is missing exactly where demand is 0. */
  function OnTransactions(rows: seq<Listing>): (r: TradeStats)
    ensures Index(r.vwap) == Grid(rows) && Index(r.demand) == Grid(rows)
    ensures forall i :: 0 <= i < |Grid(rows)| ==>
              r.demand[i].v == Num(DemandAt(rows, i)) && r.vwap[i].v == VwapSaleAt(rows, i)
    ensures forall i :: 0 <= i < |r.demand| ==> r.demand[i].v.Num? && r.demand[i].v.v >= 0.0
    ensures forall i :: 0 <= i < |r.vwap| ==> !r.vwap[i].v.Inf?
    ensures forall i :: 0 <= i < |r.vwap| ==> (r.vwap[i].v.NaN? <==> r.demand[i].v == Num(0.0))
  {
    var grid := Grid(rows);
    TradeStats(
      seq(|grid|, i requires 0 <= i < |grid| => Point(grid[i], VwapSaleAt(rows, i))),
      seq(|grid|, i requires 0 <= i < |grid| => Point(grid[i], Num(DemandAt(rows, i)))))
  }

  /** An advertiser with no defined weight contributes nothing. */
  lemma {:induction false} NoWeightNoContribution(m: Table, grid: seq<int>, i: nat, cols: seq<int>)
    requires i < |grid|
    requires forall j :: 0 <= j < |cols| ==> Weight(m, grid, i, cols[j]).None?
    ensures Contributions(m, grid, i, cols) == []
  {
    if cols != [] {
      assert Weight(m, grid, i, cols[0]).None?;
      NoWeightNoContribution(m, grid, i, cols[1..]);
    }
  }

  /** The pairs are exactly the (weight, current price) of the advertisers in `cols`
      whose weight is defined: every pair comes from such an advertiser, and every
      such advertiser contributes its pair. */
  lemma {:induction false} ContributionsExact(m: Table, grid: seq<int>, i: nat, cols: seq<int>)
    requires i < |grid|
    ensures forall p :: p in Contributions(m, grid, i, cols) ==>
              exists a :: a in cols && Weight(m, grid, i, a).Some?
                          && p == Pair(Weight(m, grid, i, a).value, m[(grid[i], a)].price)
    ensures forall a :: a in cols && Weight(m, grid, i, a).Some? ==>
              Pair(Weight(m, grid, i, a).value, m[(grid[i], a)].price) in Contributions(m, grid, i, cols)
  {
    if cols != [] {
      ContributionsExact(m, grid, i, cols[1..]);
      assert cols == [cols[0]] + cols[1..];
      forall a | a in cols[1..] ensures a in cols { }
      forall a | a in cols && a != cols[0] ensures a in cols[1..] { }
    }
  }

  /** A single advertiser contributes exactly its one (weight, current price) pair when
      its weight is defined, and nothing otherwise. */
  lemma ContributionsOne(m: Table, grid: seq<int>, i: nat, a: int)
    requires i < |grid|
    ensures Contributions(m, grid, i, [a])
         == if Weight(m, grid, i, a).Some? then [Pair(Weight(m, grid, i, a).value, m[(grid[i], a)].price)] else []
  {
    assert [a][1..] == [];
  }

  /** The pairs of two blocks of advertisers are the pairs of each block, in order:
      with `ContributionsOne`, one pair per advertiser with a defined weight, so the
      demand sums each such weight once. */
  lemma {:induction false} ContributionsAppend(m: Table, grid: seq<int>, i: nat, cols: seq<int>, more: seq<int>)
    requires i < |grid|
    ensures Contributions(m, grid, i, cols + more) == Contributions(m, grid, i, cols) + Contributions(m, grid, i, more)
  {
    if cols == [] {
      assert cols + more == more;
    } else {
      assert (cols + more)[0] == cols[0];
      assert (cols + more)[1..] == cols[1..] + more;
      ContributionsAppend(m, grid, i, cols[1..], more);
    }
  }

  /** Pairs of positive weight are the current prices of advertisers that fill. */
  lemma {:induction false} ContributionsWithin(m: Table, grid: seq<int>, i: nat, cols: seq<int>, lo: real, hi: real)
    requires i < |grid|
    requires forall j :: 0 <= j < |cols| && Fills(m, grid, i, cols[j]) ==> lo <= m[(grid[i], cols[j])].price <= hi
    ensures PricesWithin(Contributions(m, grid, i, cols), lo, hi)
  {
    if cols != [] {
      ContributionsWithin(m, grid, i, cols[1..], lo, hi);
      var rest := Contributions(m, grid, i, cols[1..]);
      var ps := Contributions(m, grid, i, cols);
      if Weight(m, grid, i, cols[0]).Some? {
        forall k | 0 <= k < |ps| && ps[k].w > 0.0 ensures lo <= ps[k].p <= hi {
          if k > 0 { assert ps[k] == rest[k - 1]; }
        }
      }
    }
  }

  /** The pairs have positive total weight exactly when some advertiser fills. */
  lemma {:induction false} ContributionsPositive(m: Table, grid: seq<int>, i: nat, cols: seq<int>)
    requires i < |grid|
    ensures SumW(Contributions(m, grid, i, cols)) > 0.0 <==> exists j :: 0 <= j < |cols| && Fills(m, grid, i, cols[j])
  {
    if cols != [] {
      ContributionsPositive(m, grid, i, cols[1..]);
      var rest := Contributions(m, grid, i, cols[1..]);
      SumWNonNegative(rest);
      if exists j :: 1 <= j < |cols| && Fills(m, grid, i, cols[j]) {
        var j :| 1 <= j < |cols| && Fills(m, grid, i, cols[j]);
        assert cols[1..][j - 1] == cols[j];
      }
      if exists j :: 0 <= j < |cols[1..]| && Fills(m, grid, i, cols[1..][j]) {
        var j :| 0 <= j < |cols[1..]| && Fills(m, grid, i, cols[1..][j]);
        assert cols[j + 1] == cols[1..][j];
      }
    }
  }

  /** Every advertiser with a cell in the pivot is a column of it. */
  lemma CellInColumns(rows: seq<Listing>, t: int, a: int)
    requires (t, a) in Pivot(rows)
    ensures a in Columns(rows)
  {
    var i :| 0 <= i < |rows| && Key(rows[i]) == (t, a);
    assert rows[i].advertiser == a;
  }

  /** Demand at a timestamp is positive exactly when some advertiser's quantity fell
      since the previous grid row. */
  lemma DemandPositiveIff(rows: seq<Listing>, i: nat)
    requires i < |Grid(rows)|
    ensures DemandAt(rows, i) > 0.0 <==> exists a :: Fills(Pivot(rows), Grid(rows), i, a)
  {
    var m, grid, cols := Pivot(rows), Grid(rows), Columns(rows);
    ContributionsPositive(m, grid, i, cols);
    if a :| Fills(m, grid, i, a) {
      CellInColumns(rows, grid[i], a);
      var j :| 0 <= j < |cols| && cols[j] == a;
    }
  }

  /** The first timestamp has no weights: demand is 0 and vwap_sale is missing. */
  lemma FirstRowNoDemand(rows: seq<Listing>)
    requires |Grid(rows)| > 0
    ensures DemandAt(rows, 0) == 0.0
    ensures VwapSaleAt(rows, 0) == NaN
  {
    NoWeightNoContribution(Pivot(rows), Grid(rows), 0, Columns(rows));
  }

  /** vwap_sale lies in every interval that holds the current prices of all advertisers that fill. */
  lemma VwapSaleWithin(rows: seq<Listing>, i: nat, lo: real, hi: real)
    requires i < |Grid(rows)|
    requires DemandAt(rows, i) > 0.0
    requires forall a :: Fills(Pivot(rows), Grid(rows), i, a) ==> lo <= Pivot(rows)[(Grid(rows)[i], a)].price <= hi
    ensures VwapSaleAt(rows, i).Num?
    ensures lo <= VwapSaleAt(rows, i).v <= hi
  {
    var m, grid, cols := Pivot(rows), Grid(rows), Columns(rows);
    ContributionsWithin(m, grid, i, cols, lo, hi);
    AverageWithin(PairsAt(rows, i), lo, hi);
  }

  /** When exactly one advertiser fills, vwap_sale is that advertiser's price. */
  lemma SingleFillPrice(rows: seq<Listing>, i: nat, a: int)
    requires i < |Grid(rows)|
    requires Fills(Pivot(rows), Grid(rows), i, a)
    requires forall b :: b != a ==> !Fills(Pivot(rows), Grid(rows), i, b)
    ensures VwapSaleAt(rows, i) == Num(Pivot(rows)[(Grid(rows)[i], a)].price)
  {
    var p := Pivot(rows)[(Grid(rows)[i], a)].price;
    DemandPositiveIff(rows, i);
    assert DemandAt(rows, i) > 0.0 by { assert Fills(Pivot(rows), Grid(rows), i, a); }
    VwapSaleWithin(rows, i, p, p);
  }

  /** One advertiser posting 100, 100, 40 at a constant price 10 at three timestamps. */
  function FillExampleRows(): seq<Listing> {
    [Listing(7, 0, 10.0, 100.0), Listing(7, 1, 10.0, 100.0), Listing(7, 2, 10.0, 40.0)]
  }

  lemma FillExampleGrid()
    ensures Grid(FillExampleRows()) == [0, 1, 2]
  {
    var rows := FillExampleRows();
    assert seq(|rows|, i requires 0 <= i < |rows| => rows[i].timestamp) == [0, 1, 2];
    DistinctOfThree(0, 1, 2);
  }

  lemma FillExampleColumns()
    ensures Columns(FillExampleRows()) == [7]
  {
    var rows := FillExampleRows();
    assert seq(|rows|, i requires 0 <= i < |rows| => rows[i].advertiser) == [7, 7, 7];
    DistinctOfSame(7);
  }

  lemma FillExamplePivot()
    ensures Pivot(FillExampleRows())
         == map[(0, 7) := Snapshot(100.0, 10.0), (1, 7) := Snapshot(100.0, 10.0), (2, 7) := Snapshot(40.0, 10.0)]
  {
    var rows := FillExampleRows();
    assert rows[..2][..1] == rows[..1] && rows[..1][..0] == [];
    assert Pivot(rows[..1]) == map[(0, 7) := Snapshot(100.0, 10.0)];
    assert Pivot(rows[..2]) == map[(0, 7) := Snapshot(100.0, 10.0), (1, 7) := Snapshot(100.0, 10.0)];
  }

  /** The summed pairs of the three timestamps: none, a zero weight, a fill of 60. */
  lemma FillExamplePairs()
    ensures |Grid(FillExampleRows())| == 3
    ensures PairsAt(FillExampleRows(), 0) == []
    ensures PairsAt(FillExampleRows(), 1) == [Pair(0.0, 10.0)]
    ensures PairsAt(FillExampleRows(), 2) == [Pair(60.0, 10.0)]
  {
    var rows := FillExampleRows();
    FillExampleGrid();
    FillExampleColumns();
    FillExamplePivot();
    assert PairsAt(rows, 0) == [];
    assert PairsAt(rows, 1) == [Pair(0.0, 10.0)];
    assert PairsAt(rows, 2) == [Pair(60.0, 10.0)];
  }

  /** No weight at the first timestamp, a zero weight at the second, a fill of 60 at
      the third: only the third has a vwap_sale, and it is the posted price 10. */
  lemma FillExample()
    ensures OnTransactions(FillExampleRows())
         == TradeStats([Point(0, NaN), Point(1, NaN), Point(2, Num(10.0))],
                       [Point(0, Num(0.0)), Point(1, Num(0.0)), Point(2, Num(60.0))])
  {
    var rows := FillExampleRows();
    FillExampleGrid();
    FillExamplePairs();
    assert DemandAt(rows, 0) == 0.0 && VwapSaleAt(rows, 0) == NaN;
    assert DemandAt(rows, 1) == 0.0 && VwapSaleAt(rows, 1) == NaN;
    assert [Pair(60.0, 10.0)][1..] == [];
    assert DemandAt(rows, 2) == 60.0 && VwapSaleAt(rows, 2) == Num(10.0);
    var r := OnTransactions(rows);
    assert r.vwap == [Point(0, NaN), Point(1, NaN), Point(2, Num(10.0))];
    assert r.demand == [Point(0, Num(0.0)), Point(1, Num(0.0)), Point(2, Num(60.0))];
  }
}
