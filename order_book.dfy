/** Listing-implied VWAP and supply of one trade side (`on_advs`): raw rows grouped by
    exact timestamp, duplicates included, each group weighted by posted quantity. */
module OrderBook {
  import opened Frames
  import opened SortedKeys
  import opened WeightedSums
  import opened SnapshotDiff

  /** The (quantity, price) pair of every raw row at timestamp `t`, in row order and
      one pair per row, so duplicate rows are kept. */
  function GroupAt(rows: seq<Listing>, t: int): (ps: seq<Pair>)
    ensures |ps| <= |rows|
    ensures forall p :: p in ps <==> exists i :: 0 <= i < |rows| && rows[i].timestamp == t && p == Pair(rows[i].quantity, rows[i].price)
    ensures (forall i :: 0 <= i < |rows| ==> rows[i].timestamp == t) ==>
              |ps| == |rows| && forall i :: 0 <= i < |rows| ==> ps[i] == Pair(rows[i].quantity, rows[i].price)
  {
    if rows == [] then []
    else
      var head := if rows[0].timestamp == t then [Pair(rows[0].quantity, rows[0].price)] else [];
      var rest := GroupAt(rows[1..], t);
      assert forall i :: 1 <= i < |rows| ==> rows[i] == rows[1..][i - 1];
      assert forall i :: 0 <= i < |rows[1..]| ==> rows[1..][i] == rows[i + 1];
      head + rest
  }

  /** `groupby("timestamp").tradablequantity.sum()` at `t`: never negative when the
      quantities at `t` are not, and zero when no row has timestamp `t`. */
  function SupplyAt(rows: seq<Listing>, t: int): (s: real)
    ensures (forall i :: 0 <= i < |rows| && rows[i].timestamp == t ==> rows[i].quantity >= 0.0) ==> s >= 0.0
    ensures (forall i :: 0 <= i < |rows| ==> rows[i].timestamp != t) ==> s == 0.0
  {
    var ps := GroupAt(rows, t);
    assert ps != [] ==> ps[0] in ps;
    assert (forall i :: 0 <= i < |rows| && rows[i].timestamp == t ==> rows[i].quantity >= 0.0) ==> NonNegative(ps) by {
      forall k | 0 <= k < |ps| ensures ps[k] in ps { }
    }
    assert NonNegative(ps) ==> SumW(ps) >= 0.0 by {
      if NonNegative(ps) { SumWNonNegative(ps); }
    }
    SumW(ps)
  }

  /** `np.average(g.price, weights=g.tradablequantity)` for the group at `t`; only
      defined when the quantities do not sum to zero. With non-negative quantities it
      lies in every interval that holds the prices of the positively weighted rows. */
  function VwapAdvsAt(rows: seq<Listing>, t: int): (v: real)
    requires SupplyAt(rows, t) != 0.0
    ensures v * SupplyAt(rows, t) == SumWP(GroupAt(rows, t))
    ensures NonNegative(GroupAt(rows, t)) ==>
              forall lo, hi :: PricesWithin(GroupAt(rows, t), lo, hi) ==> lo <= v <= hi
  {
    var ps := GroupAt(rows, t);
    assert NonNegative(ps) ==> forall lo, hi :: PricesWithin(ps, lo, hi) ==> lo <= SumWP(ps) / SumW(ps) <= hi by {
      if NonNegative(ps) {
        SumWNonNegative(ps);
        forall lo, hi | PricesWithin(ps, lo, hi) ensures lo <= SumWP(ps) / SumW(ps) <= hi {
          AverageWithin(ps, lo, hi);
        }
      }
    }
    SumWP(ps) / SumW(ps)
  }

  /** `np.average` raises when a group's weights sum to zero; the error aborts the batch. */
  datatype AdvsError = WeightsSumToZero(timestamp: int)

  /** Both outputs of `on_advs`, indexed by the timestamp grid. */
  datatype BookStats = BookStats(vwap: Series, supply: Series)

  /** The first timestamp of an ascending index whose group has zero total quantity. */
  function FirstZeroSupply(rows: seq<Listing>, ts: seq<int>): (r: Option<int>)
    requires StrictlyIncreasing(ts)
    ensures r.None? <==> forall k :: 0 <= k < |ts| ==> SupplyAt(rows, ts[k]) != 0.0
    ensures r.Some? ==> r.value in ts && SupplyAt(rows, r.value) == 0.0
    ensures r.Some? ==> forall k :: 0 <= k < |ts| && ts[k] < r.value ==> SupplyAt(rows, ts[k]) != 0.0
  {
    if ts == [] then None
    else if SupplyAt(rows, ts[0]) == 0.0 then Some(ts[0])
    else
      var r := FirstZeroSupply(rows, ts[1..]);
      assert forall k :: 1 <= k < |ts| ==> ts[k] == ts[1..][k - 1];
      r
  }

  /** The two series of `on_advs` over an index whose groups all have non-zero total quantity. */
  function BookSeries(rows: seq<Listing>, grid: seq<int>): (b: BookStats)
    requires forall k :: 0 <= k < |grid| ==> SupplyAt(rows, grid[k]) != 0.0
    ensures Index(b.vwap) == grid && Index(b.supply) == grid
    ensures forall k :: 0 <= k < |b.supply| ==> b.supply[k].v == Num(SupplyAt(rows, b.supply[k].t))
    ensures forall k :: 0 <= k < |b.vwap| ==>
              SupplyAt(rows, b.vwap[k].t) != 0.0 && b.vwap[k].v == Num(VwapAdvsAt(rows, b.vwap[k].t))
  {
    BookStats(
      seq(|grid|, k requires 0 <= k < |grid| => Point(grid[k], Num(VwapAdvsAt(rows, grid[k])))),
      seq(|grid|, k requires 0 <= k < |grid| => Point(grid[k], Num(SupplyAt(rows, grid[k])))))
  }

  /** `on_advs`: fails at the first timestamp whose listed quantities sum to zero;
      otherwise one vwap_advs and one supply entry per grid timestamp. */
  function OnAdvs(rows: seq<Listing>): (r: Result<BookStats, AdvsError>)
    ensures r.Failure? <==> exists k :: 0 <= k < |Grid(rows)| && SupplyAt(rows, Grid(rows)[k]) == 0.0
    ensures r.Failure? ==> r.error.timestamp in Grid(rows) && SupplyAt(rows, r.error.timestamp) == 0.0
    ensures r.Success? ==> Index(r.value.vwap) == Grid(rows) && Index(r.value.supply) == Grid(rows)
    ensures r.Success? ==> forall k :: 0 <= k < |r.value.supply| ==>
              r.value.supply[k].v == Num(SupplyAt(rows, r.value.supply[k].t))
    ensures r.Success? ==> forall k :: 0 <= k < |r.value.vwap| ==>
              SupplyAt(rows, r.value.vwap[k].t) != 0.0 && r.value.vwap[k].v == Num(VwapAdvsAt(rows, r.value.vwap[k].t))
  {
    var grid := Grid(rows);
    match FirstZeroSupply(rows, grid)
    case Some(t) => Failure(WeightsSumToZero(t))
    case None => Success(BookSeries(rows, grid))
  }

  /** Grouping distributes over concatenation of the raw rows. */
  lemma {:induction false} GroupAppend(rows: seq<Listing>, more: seq<Listing>, t: int)
    ensures GroupAt(rows + more, t) == GroupAt(rows, t) + GroupAt(more, t)
  {
    if rows == [] {
      assert rows + more == more;
    } else {
      var head := if rows[0].timestamp == t then [Pair(rows[0].quantity, rows[0].price)] else [];
      var all := rows + more;
      assert all[0] == rows[0];
      assert all[1..] == rows[1..] + more;
      assert GroupAt(all, t) == head + GroupAt(rows[1..] + more, t);
      GroupAppend(rows[1..], more, t);
      assert GroupAt(rows, t) == head + GroupAt(rows[1..], t);
      assert head + (GroupAt(rows[1..], t) + GroupAt(more, t)) == (head + GroupAt(rows[1..], t)) + GroupAt(more, t);
    }
  }

  lemma {:induction false} SumWAppend(ps: seq<Pair>, qs: seq<Pair>)
    ensures SumW(ps + qs) == SumW(ps) + SumW(qs)
  {
    if ps == [] {
      assert ps + qs == qs;
    } else {
      assert (ps + qs)[0] == ps[0];
      assert (ps + qs)[1..] == ps[1..] + qs;
      SumWAppend(ps[1..], qs);
    }
  }

  /** Supply is additive over the raw rows: duplicate rows are not collapsed, so a
      repeated listing is counted once per row. */
  lemma SupplyAppend(rows: seq<Listing>, more: seq<Listing>, t: int)
    ensures SupplyAt(rows + more, t) == SupplyAt(rows, t) + SupplyAt(more, t)
  {
    GroupAppend(rows, more, t);
    SumWAppend(GroupAt(rows, t), GroupAt(more, t));
  }

  /** Appending one more row at `t` raises supply at `t` by that row's quantity. */
  lemma SupplyCountsEveryRow(rows: seq<Listing>, l: Listing)
    ensures SupplyAt(rows + [l], l.timestamp) == SupplyAt(rows, l.timestamp) + l.quantity
  {
    SupplyAppend(rows, [l], l.timestamp);
    assert [l][1..] == [];
    assert GroupAt([l], l.timestamp) == [Pair(l.quantity, l.price)];
    assert [Pair(l.quantity, l.price)][1..] == [];
    assert SumW([Pair(l.quantity, l.price)]) == l.quantity + SumW([]);
  }

  /** With non-negative quantities, every priced pair of the group at `t` is within any
      interval holding the prices of the rows at `t`. */
  lemma {:induction false} GroupWithin(rows: seq<Listing>, t: int, lo: real, hi: real)
    requires forall i :: 0 <= i < |rows| && rows[i].timestamp == t ==> rows[i].quantity >= 0.0 && lo <= rows[i].price <= hi
    ensures NonNegative(GroupAt(rows, t)) && PricesWithin(GroupAt(rows, t), lo, hi)
  {
    if rows != [] {
      forall i | 0 <= i < |rows[1..]| && rows[1..][i].timestamp == t
        ensures rows[1..][i].quantity >= 0.0 && lo <= rows[1..][i].price <= hi
      {
        assert rows[1..][i] == rows[i + 1];
      }
      GroupWithin(rows[1..], t, lo, hi);
      var head := if rows[0].timestamp == t then [Pair(rows[0].quantity, rows[0].price)] else [];
      var ps := head + GroupAt(rows[1..], t);
      forall k | 0 <= k < |ps| ensures ps[k].w >= 0.0 && (ps[k].w > 0.0 ==> lo <= ps[k].p <= hi) {
        if k >= |head| { assert ps[k] == GroupAt(rows[1..], t)[k - |head|]; }
      }
    }
  }

  /** vwap_advs lies between the least and greatest listed price at `t`. */
  lemma VwapAdvsWithin(rows: seq<Listing>, t: int, lo: real, hi: real)
    requires forall i :: 0 <= i < |rows| && rows[i].timestamp == t ==> rows[i].quantity >= 0.0 && lo <= rows[i].price <= hi
    requires SupplyAt(rows, t) != 0.0
    ensures lo <= VwapAdvsAt(rows, t) <= hi
  {
    GroupWithin(rows, t, lo, hi);
    SumWNonNegative(GroupAt(rows, t));
    AverageWithin(GroupAt(rows, t), lo, hi);
  }

  /** Two listings at one timestamp, 50 at 10 and 150 at 12: vwap_advs is
      (50·10 + 150·12) / 200 = 11.5 and supply is 200. */
  lemma WeightedAverageExample()
    ensures OnAdvs([Listing(1, 5, 10.0, 50.0), Listing(2, 5, 12.0, 150.0)])
         == Success(BookStats([Point(5, Num(11.5))], [Point(5, Num(200.0))]))
  {
    var rows := [Listing(1, 5, 10.0, 50.0), Listing(2, 5, 12.0, 150.0)];
    assert seq(|rows|, i requires 0 <= i < |rows| => rows[i].timestamp) == [5, 5];
    assert [5, 5][..1] == [5];
    assert Distinct([5, 5]) == InsertKey([5], 5) == [5];
    assert Grid(rows) == [5];
    assert rows[1..][1..] == [];
    var g := [Pair(50.0, 10.0), Pair(150.0, 12.0)];
    assert GroupAt(rows, 5) == g;
    assert g[1..][1..] == [];
    assert SumW(g) == 200.0;
    assert SumWP(g) == 2300.0;
    assert FirstZeroSupply(rows, [5]) == None;
    assert VwapAdvsAt(rows, 5) == 11.5;
    var r := OnAdvs(rows);
    assert r.Success?;
    assert |r.value.vwap| == 1 && r.value.vwap[0] == Point(5, Num(11.5));
    assert |r.value.supply| == 1 && r.value.supply[0] == Point(5, Num(200.0));
    assert r.value.vwap == [Point(5, Num(11.5))];
    assert r.value.supply == [Point(5, Num(200.0))];
  }
}
