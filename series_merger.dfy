/** Alignment of the four statistics of one trade side on timestamp, with the
    completeness filter: a row is published only when no field is missing. */
module SeriesMerger {
  import opened Frames
  import opened SortedKeys
  import opened SnapshotDiff
  import opened OrderBook

  /** One published row: vwap_sale, vwap_advs, demand and supply at one timestamp. */
  datatype AggregatedPoint = AggregatedPoint(timestamp: int, vwapSale: Float, vwapAdvs: Float, demand: Float, supply: Float)

  /** The cell of `s` at label `t` after outer alignment: missing when `s` has no such label. */
  function Lookup(s: Series, t: int): (c: Float)
    ensures c != NaN ==> exists k :: 0 <= k < |s| && s[k] == Point(t, c)
  {
    if s == [] then NaN
    else if s[0].t == t then s[0].v
    else
      var c := Lookup(s[1..], t);
      assert c != NaN ==> exists k :: 1 <= k < |s| && s[k] == Point(t, c) by {
        if c != NaN {
          var k :| 0 <= k < |s[1..]| && s[1..][k] == Point(t, c);
          assert s[k + 1] == s[1..][k];
        }
      }
      c
  }

  /** In a series whose index has no repeated label, the lookup of a label is its own cell. */
  lemma {:induction false} LookupAt(s: Series, k: int)
    requires StrictlyIncreasing(Index(s))
    requires 0 <= k < |s|
    ensures Lookup(s, s[k].t) == s[k].v
  {
    if k > 0 {
      assert Index(s)[0] < Index(s)[k];
      assert Index(s[1..]) == Index(s)[1..];
      assert s[1..][k - 1] == s[k];
      LookupAt(s[1..], k - 1);
    }
  }

  /** All four statistics are present at `t`. */
  predicate Complete(vs: Series, va: Series, d: Series, su: Series, t: int) {
    Lookup(vs, t) != NaN && Lookup(va, t) != NaN && Lookup(d, t) != NaN && Lookup(su, t) != NaN
  }

  function Stamps(out: seq<AggregatedPoint>): (ts: seq<int>)
    ensures |ts| == |out|
    ensures forall k :: 0 <= k < |out| ==> ts[k] == out[k].timestamp
  {
    seq(|out|, k requires 0 <= k < |out| => out[k].timestamp)
  }

  /** The row at label `t`, in column order. */
  function RowAt(vs: Series, va: Series, d: Series, su: Series, t: int): AggregatedPoint {
    AggregatedPoint(t, Lookup(vs, t), Lookup(va, t), Lookup(d, t), Lookup(su, t))
  }

  /** No field of the row is missing. */
  predicate NoMissing(p: AggregatedPoint) {
    p.vwapSale != NaN && p.vwapAdvs != NaN && p.demand != NaN && p.supply != NaN
  }

  /** `.dropna()`: the rows with no missing field, in their order. */
  function DropNa(rows: seq<AggregatedPoint>): (out: seq<AggregatedPoint>)
    requires StrictlyIncreasing(Stamps(rows))
    ensures StrictlyIncreasing(Stamps(out))
    ensures forall p :: p in out <==> p in rows && NoMissing(p)
  {
    if rows == [] then []
    else
      assert Stamps(rows[1..]) == Stamps(rows)[1..];
      var rest := DropNa(rows[1..]);
      assert forall k :: 0 <= k < |rest| ==> rows[0].timestamp < rest[k].timestamp by {
        forall k | 0 <= k < |rest| ensures rows[0].timestamp < rest[k].timestamp {
          assert rest[k] in rows[1..];
          var j :| 0 <= j < |rows[1..]| && rows[1..][j] == rest[k];
          assert Stamps(rows)[0] < Stamps(rows)[j + 1];
        }
      }
      if NoMissing(rows[0]) then
        assert Stamps([rows[0]] + rest) == [rows[0].timestamp] + Stamps(rest);
        [rows[0]] + rest
      else
        rest
  }

  /** `pd.concat([...], axis=1).reset_index()`: one row per label of the union of the
      four indices, ascending, each holding the four cells aligned at its label; every
      label at which all four are present has its row. */
  function Aligned(vs: Series, va: Series, d: Series, su: Series): (rows: seq<AggregatedPoint>)
    ensures StrictlyIncreasing(Stamps(rows))
    ensures forall p :: p in rows ==> p == RowAt(vs, va, d, su, p.timestamp)
    ensures forall t :: Complete(vs, va, d, su, t) ==> RowAt(vs, va, d, su, t) in rows
  {
    var labels := Distinct(Index(vs) + Index(va) + Index(d) + Index(su));
    var aligned := seq(|labels|, k requires 0 <= k < |labels| => RowAt(vs, va, d, su, labels[k]));
    assert Stamps(aligned) == labels;
    forall t | Complete(vs, va, d, su, t) ensures RowAt(vs, va, d, su, t) in aligned {
      var k :| 0 <= k < |vs| && vs[k] == Point(t, Lookup(vs, t));
      assert Index(vs)[k] == t;
      assert t in labels;
      var j :| 0 <= j < |labels| && labels[j] == t;
      assert aligned[j] == RowAt(vs, va, d, su, t);
    }
    aligned
  }

  /** `pd.concat([...], axis=1).reset_index().dropna()`: the rows of the union of the four
      indices at which every statistic is present, one per timestamp, ascending. */
  function Merge(vs: Series, va: Series, d: Series, su: Series): (out: seq<AggregatedPoint>)
    ensures StrictlyIncreasing(Stamps(out))
    ensures forall k :: 0 <= k < |out| ==> out[k] == RowAt(vs, va, d, su, out[k].timestamp)
    ensures forall k :: 0 <= k < |out| ==> NoMissing(out[k])
    ensures forall t :: t in Stamps(out) <==> Complete(vs, va, d, su, t)
  {
    var aligned := Aligned(vs, va, d, su);
    var out := DropNa(aligned);
    forall t | Complete(vs, va, d, su, t) ensures t in Stamps(out) {
      var p := RowAt(vs, va, d, su, t);
      assert p in aligned && NoMissing(p);
      var i :| 0 <= i < |out| && out[i] == p;
      assert Stamps(out)[i] == t;
    }
    forall t | t in Stamps(out) ensures Complete(vs, va, d, su, t) {
      var i :| 0 <= i < |out| && Stamps(out)[i] == t;
      assert out[i] in aligned;
    }
    forall k | 0 <= k < |out| ensures out[k] == RowAt(vs, va, d, su, out[k].timestamp) {
      assert out[k] in aligned;
    }
    out
  }

  /** One trade side end to end: both aggregations, then the merge. An error of
      `on_advs` aborts the side before anything is published. */
  function Publish(rows: seq<Listing>): (r: Result<seq<AggregatedPoint>, AdvsError>)
    ensures r.Failure? <==> exists k :: 0 <= k < |Grid(rows)| && SupplyAt(rows, Grid(rows)[k]) == 0.0
  {
    var trades := OnTransactions(rows);
    match OnAdvs(rows)
    case Failure(e) => Failure(e)
    case Success(book) => Success(Merge(trades.vwap, book.vwap, trades.demand, book.supply))
  }

  /** What a published row holds when no group sums to zero (so publishing succeeds):
      a grid timestamp with positive demand, and the four statistics of that timestamp,
      all finite. */
  lemma PublishedRowsAreComplete(rows: seq<Listing>, k: int)
    requires forall j :: 0 <= j < |Grid(rows)| ==> SupplyAt(rows, Grid(rows)[j]) != 0.0
    requires 0 <= k < |Publish(rows).value|
    ensures var p := Publish(rows).value[k];
            exists i :: 0 <= i < |Grid(rows)| && Grid(rows)[i] == p.timestamp
              && DemandAt(rows, i) > 0.0
              && p.demand == Num(DemandAt(rows, i))
              && p.vwapSale == VwapSaleAt(rows, i) && p.vwapSale.Num?
              && p.supply == Num(SupplyAt(rows, p.timestamp))
              && SupplyAt(rows, p.timestamp) != 0.0
              && p.vwapAdvs == Num(VwapAdvsAt(rows, p.timestamp))
  {
    var trades, book := OnTransactions(rows), OnAdvs(rows).value;
    var p := Publish(rows).value[k];
    var grid := Grid(rows);
    assert Lookup(trades.demand, p.timestamp) != NaN;
    var i :| 0 <= i < |trades.demand| && trades.demand[i] == Point(p.timestamp, Lookup(trades.demand, p.timestamp));
    assert Index(trades.demand)[i] == grid[i];
    LookupAt(trades.vwap, i);
    LookupAt(book.vwap, i);
    LookupAt(book.supply, i);
    assert Lookup(trades.vwap, p.timestamp) != NaN;
  }

  /** When no group sums to zero, every grid timestamp with positive demand is published, and no other. */
  lemma PublishedExactlyWhereDemand(rows: seq<Listing>, i: int)
    requires forall j :: 0 <= j < |Grid(rows)| ==> SupplyAt(rows, Grid(rows)[j]) != 0.0
    requires 0 <= i < |Grid(rows)|
    ensures Grid(rows)[i] in Stamps(Publish(rows).value) <==> DemandAt(rows, i) > 0.0
  {
    var trades, book := OnTransactions(rows), OnAdvs(rows).value;
    assert Publish(rows).value == Merge(trades.vwap, book.vwap, trades.demand, book.supply);
    LookupAt(trades.vwap, i);
    LookupAt(trades.demand, i);
    LookupAt(book.vwap, i);
    LookupAt(book.supply, i);
  }
}
