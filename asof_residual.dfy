/** Residual between an exchange-derived rate and an official reference rate
    (`compute_residual`): both series sorted by timestamp, each exchange observation
    matched backward with the latest reference observation at or before it. */
module AsofResidual {
  import opened Frames

  /** One sample of a series; the value may be missing. Timestamps are instants with
      the timezone already dropped. */
  datatype Observation = Observation(timestamp: int, value: Option<real>)

  /** One output row: an exchange timestamp and the rounded residual there. */
  datatype ResidualPoint = ResidualPoint(timestamp: int, value: real)

  predicate SortedByTime(s: seq<Observation>) {
    forall i, j :: 0 <= i < j < |s| ==> s[i].timestamp <= s[j].timestamp
  }

  /** Puts `o` after every observation of `s` that is not later than it. */
  function Insert(s: seq<Observation>, o: Observation): (r: seq<Observation>)
    requires SortedByTime(s)
    ensures SortedByTime(r)
    ensures multiset(r) == multiset(s) + multiset{o}
    ensures |r| == |s| + 1
    ensures r[0] == if s != [] && s[0].timestamp <= o.timestamp then s[0] else o
  {
    if s == [] then [o]
    else if o.timestamp < s[0].timestamp then [o] + s
    else
      var rest := Insert(s[1..], o);
      var r := [s[0]] + rest;
      assert s == [s[0]] + s[1..];
      assert forall j :: 0 < j < |r| ==> r[j] == rest[j - 1];
      assert s[0].timestamp <= rest[0].timestamp;
      r
  }

  /** `sort_values("timestamp")`: ascending by timestamp, the same observations. Ties
      keep their input order by construction (`Insert` places an observation after every
      one not later than it); no contract states that order. */
  function SortByTime(s: seq<Observation>): (r: seq<Observation>)
    ensures SortedByTime(r)
    ensures multiset(r) == multiset(s)
  {
    if s == [] then []
    else
      assert s == s[..|s| - 1] + [s[|s| - 1]];
      Insert(SortByTime(s[..|s| - 1]), s[|s| - 1])
  }

  /** Position of the last observation of `refs` at or before `t`. */
  function LastAtOrBefore(refs: seq<Observation>, t: int): (r: Option<nat>)
    ensures r.Some? ==> r.value < |refs| && refs[r.value].timestamp <= t
    ensures r.Some? ==> forall j :: r.value < j < |refs| ==> refs[j].timestamp > t
    ensures r.None? <==> forall j :: 0 <= j < |refs| ==> refs[j].timestamp > t
  {
    if refs == [] then None
    else if refs[|refs| - 1].timestamp <= t then Some(|refs| - 1)
    else LastAtOrBefore(refs[..|refs| - 1], t)
  }

  /** In a sorted reference series the backward match has the greatest timestamp at or
      before `t`; among equal timestamps it is the last one. */
  lemma AsofIsLatest(refs: seq<Observation>, t: int, j: int)
    requires SortedByTime(refs)
    requires LastAtOrBefore(refs, t).Some?
    requires 0 <= j < |refs| && refs[j].timestamp <= t
    ensures j <= LastAtOrBefore(refs, t).value
    ensures refs[j].timestamp <= refs[LastAtOrBefore(refs, t).value].timestamp
  {
  }

  /** The output row `merge_asof(direction="backward")` and the rounded difference give
      for one exchange observation; none when nothing matches or a value is missing. */
  function ResidualFor(refs: seq<Observation>, e: Observation): (r: Option<ResidualPoint>)
    ensures r.Some? ==> r.value.timestamp == e.timestamp
  {
    match (e.value, LastAtOrBefore(refs, e.timestamp))
    case (Some(x), Some(i)) =>
      (match refs[i].value
       case Some(y) => Some(ResidualPoint(e.timestamp, Round2(x - y)))
       case None => None)
    case _ => None
  }

  /** The backward join over the exchange observations in order, missing rows dropped. */
  function Join(refs: seq<Observation>, exs: seq<Observation>): (out: seq<ResidualPoint>)
    ensures |out| <= |exs|
  {
    if exs == [] then []
    else
      match ResidualFor(refs, exs[0])
      case None => Join(refs, exs[1..])
      case Some(p) => [p] + Join(refs, exs[1..])
  }

  /** Every joined row is the row of some exchange observation. */
  lemma {:induction false} JoinSound(refs: seq<Observation>, exs: seq<Observation>, k: int)
    requires 0 <= k < |Join(refs, exs)|
    ensures exists j :: 0 <= j < |exs| && ResidualFor(refs, exs[j]) == Some(Join(refs, exs)[k])
  {
    var rest := Join(refs, exs[1..]);
    var out := Join(refs, exs);
    if ResidualFor(refs, exs[0]).Some? && k == 0 {
      assert ResidualFor(refs, exs[0]) == Some(out[0]);
    } else {
      var k' := if ResidualFor(refs, exs[0]).Some? then k - 1 else k;
      assert out[k] == rest[k'];
      JoinSound(refs, exs[1..], k');
      var j :| 0 <= j < |exs[1..]| && ResidualFor(refs, exs[1..][j]) == Some(rest[k']);
      assert exs[1..][j] == exs[j + 1];
    }
  }

  /** Every exchange observation that has a row contributes it to the join. */
  lemma {:induction false} JoinComplete(refs: seq<Observation>, exs: seq<Observation>, j: int)
    requires 0 <= j < |exs| && ResidualFor(refs, exs[j]).Some?
    ensures ResidualFor(refs, exs[j]).value in Join(refs, exs)
  {
    if j > 0 {
      assert exs[1..][j - 1] == exs[j];
      JoinComplete(refs, exs[1..], j - 1);
    }
  }

  /** Joining exchange observations in timestamp order gives rows in timestamp order. */
  lemma {:induction false} JoinOrdered(refs: seq<Observation>, exs: seq<Observation>)
    requires SortedByTime(exs)
    ensures forall k, l :: 0 <= k < l < |Join(refs, exs)| ==> Join(refs, exs)[k].timestamp <= Join(refs, exs)[l].timestamp
  {
    if exs != [] {
      assert SortedByTime(exs[1..]);
      JoinOrdered(refs, exs[1..]);
      var rest := Join(refs, exs[1..]);
      if ResidualFor(refs, exs[0]).Some? {
        var out := Join(refs, exs);
        forall l | 0 <= l < |rest| ensures exs[0].timestamp <= rest[l].timestamp {
          JoinSound(refs, exs[1..], l);
          var j :| 0 <= j < |exs[1..]| && ResidualFor(refs, exs[1..][j]) == Some(rest[l]);
          assert exs[1..][j] == exs[j + 1];
        }
        assert forall l :: 0 < l < |out| ==> out[l] == rest[l - 1];
      }
    }
  }

  /** `compute_residual`: at most one row per exchange observation, in ascending
      exchange-timestamp order. */
  function ComputeResidual(refs: seq<Observation>, exs: seq<Observation>): (out: seq<ResidualPoint>)
    ensures |out| <= |exs|
    ensures forall k, l :: 0 <= k < l < |out| ==> out[k].timestamp <= out[l].timestamp
  {
    var sortedExs := SortByTime(exs);
    assert |sortedExs| == |multiset(sortedExs)| == |multiset(exs)| == |exs|;
    JoinOrdered(SortByTime(refs), sortedExs);
    Join(SortByTime(refs), sortedExs)
  }

  /** `r` is what a backward as-of join may match with `e`: a reference observation at or
      before `e`, with no reference observation strictly between them. */
  predicate BackwardMatch(refs: seq<Observation>, e: Observation, r: Observation) {
    && r in refs
    && r.timestamp <= e.timestamp
    && forall r' :: r' in refs && r'.timestamp <= e.timestamp ==> r'.timestamp <= r.timestamp
  }

  /** The row of one exchange observation against sorted references is its rounded
      difference to a backward match `r`. */
  lemma ResidualForSound(refs: seq<Observation>, e: Observation) returns (r: Observation)
    requires SortedByTime(refs)
    requires ResidualFor(refs, e).Some?
    ensures BackwardMatch(refs, e, r)
    ensures e.value.Some? && r.value.Some?
    ensures ResidualFor(refs, e) == Some(ResidualPoint(e.timestamp, Round2(e.value.value - r.value.value)))
  {
    var i := LastAtOrBefore(refs, e.timestamp).value;
    r := refs[i];
    forall r' | r' in refs && r'.timestamp <= e.timestamp ensures r'.timestamp <= r.timestamp {
      var j :| 0 <= j < |refs| && refs[j] == r';
      AsofIsLatest(refs, e.timestamp, j);
    }
  }

  /** A backward match found in a reordering of the references is one in the references. */
  lemma MatchInPermutation(refs: seq<Observation>, sortedRefs: seq<Observation>, e: Observation, r: Observation)
    requires multiset(sortedRefs) == multiset(refs)
    requires BackwardMatch(sortedRefs, e, r)
    ensures BackwardMatch(refs, e, r)
  {
    assert r in multiset(sortedRefs);
    forall r' | r' in refs && r'.timestamp <= e.timestamp ensures r'.timestamp <= r.timestamp {
      assert r' in multiset(refs);
      assert r' in sortedRefs;
    }
  }

  /** The exchange observation behind a row of the join. */
  lemma JoinRowSource(refs: seq<Observation>, exs: seq<Observation>, k: int) returns (e: Observation)
    requires 0 <= k < |Join(refs, exs)|
    ensures e in exs && ResidualFor(refs, e) == Some(Join(refs, exs)[k])
  {
    JoinSound(refs, exs, k);
    var j :| 0 <= j < |exs| && ResidualFor(refs, exs[j]) == Some(Join(refs, exs)[k]);
    e := exs[j];
  }

  /** The exchange observation and the backward match behind a row of the join. */
  lemma JoinRowMatch(sortedRefs: seq<Observation>, sortedExs: seq<Observation>, k: int)
    returns (e: Observation, r: Observation)
    requires SortedByTime(sortedRefs)
    requires 0 <= k < |Join(sortedRefs, sortedExs)|
    ensures e in sortedExs && BackwardMatch(sortedRefs, e, r)
    ensures e.value.Some? && r.value.Some?
    ensures Join(sortedRefs, sortedExs)[k] == ResidualPoint(e.timestamp, Round2(e.value.value - r.value.value))
  {
    e := JoinRowSource(sortedRefs, sortedExs, k);
    r := ResidualForSound(sortedRefs, e);
  }

  /** A row of the join of sorted copies of `refs` and `exs` is the rounded difference
      of an exchange observation to a backward match. */
  lemma JoinRowSound(refs: seq<Observation>, exs: seq<Observation>,
                     sortedRefs: seq<Observation>, sortedExs: seq<Observation>, k: int)
    requires SortedByTime(sortedRefs)
    requires multiset(sortedRefs) == multiset(refs)
    requires multiset(sortedExs) == multiset(exs)
    requires 0 <= k < |Join(sortedRefs, sortedExs)|
    ensures var p := Join(sortedRefs, sortedExs)[k];
            exists e, r :: && e in exs && e.timestamp == p.timestamp && e.value.Some?
                           && BackwardMatch(refs, e, r) && r.value.Some?
                           && p.value == Round2(e.value.value - r.value.value)
  {
    var e, r := JoinRowMatch(sortedRefs, sortedExs, k);
    MatchInPermutation(refs, sortedRefs, e, r);
    assert e in exs by { assert e in multiset(sortedExs); }
  }

  /** Every output row sits at an exchange observation's timestamp and holds its rounded
      difference to the reference observation of greatest timestamp at or before it:
      exact equality matches, nothing later does. */
  lemma ResidualSound(refs: seq<Observation>, exs: seq<Observation>, k: int)
    requires 0 <= k < |ComputeResidual(refs, exs)|
    ensures var p := ComputeResidual(refs, exs)[k];
            exists e, r :: && e in exs && e.timestamp == p.timestamp && e.value.Some?
                           && BackwardMatch(refs, e, r) && r.value.Some?
                           && p.value == Round2(e.value.value - r.value.value)
  {
    assert ComputeResidual(refs, exs) == Join(SortByTime(refs), SortByTime(exs));
    JoinRowSound(refs, exs, SortByTime(refs), SortByTime(exs), k);
  }

  /** An exchange observation with a value whose backward match in the sorted
      references has a value yields its own row in the join of sorted copies: its
      timestamp and its rounded difference to that match. */
  lemma JoinRowComplete(refs: seq<Observation>, exs: seq<Observation>,
                        sortedRefs: seq<Observation>, sortedExs: seq<Observation>, e: Observation)
    returns (r: Observation)
    requires SortedByTime(sortedRefs)
    requires multiset(sortedRefs) == multiset(refs)
    requires multiset(sortedExs) == multiset(exs)
    requires e in exs && e.value.Some?
    requires LastAtOrBefore(sortedRefs, e.timestamp).Some?
    requires sortedRefs[LastAtOrBefore(sortedRefs, e.timestamp).value].value.Some?
    ensures BackwardMatch(refs, e, r) && r.value.Some?
    ensures ResidualPoint(e.timestamp, Round2(e.value.value - r.value.value)) in Join(sortedRefs, sortedExs)
  {
    assert e in multiset(exs);
    assert e in sortedExs;
    var j :| 0 <= j < |sortedExs| && sortedExs[j] == e;
    assert ResidualFor(sortedRefs, e).Some?;
    JoinComplete(sortedRefs, sortedExs, j);
    r := ResidualForSound(sortedRefs, e);
    MatchInPermutation(refs, sortedRefs, e, r);
  }

  /** Every exchange observation with a value whose backward match has a value yields
      its own row: its timestamp and round(exchange − reference, 2). A missing value on
      any other reference observation does not matter. */
  lemma ResidualComplete(refs: seq<Observation>, exs: seq<Observation>, e: Observation)
    requires e in exs && e.value.Some?
    requires LastAtOrBefore(SortByTime(refs), e.timestamp).Some?
    requires SortByTime(refs)[LastAtOrBefore(SortByTime(refs), e.timestamp).value].value.Some?
    ensures exists r :: && BackwardMatch(refs, e, r) && r.value.Some?
                        && ResidualPoint(e.timestamp, Round2(e.value.value - r.value.value)) in ComputeResidual(refs, exs)
  {
    assert ComputeResidual(refs, exs) == Join(SortByTime(refs), SortByTime(exs));
    var r := JoinRowComplete(refs, exs, SortByTime(refs), SortByTime(exs), e);
  }

  /** An exchange timestamp that precedes every reference observation has no row. */
  lemma NoForwardMatch(refs: seq<Observation>, exs: seq<Observation>, t: int)
    requires forall r :: r in refs ==> r.timestamp > t
    ensures forall k :: 0 <= k < |ComputeResidual(refs, exs)| ==> ComputeResidual(refs, exs)[k].timestamp != t
  {
    forall k | 0 <= k < |ComputeResidual(refs, exs)| ensures ComputeResidual(refs, exs)[k].timestamp != t {
      ResidualSound(refs, exs, k);
    }
  }

  /** Reference 6.90 at 09:00; exchange 6.80 at 08:00 and 6.95 at 09:05 (minutes of the
      day): one row, 0.05 at 09:05, and none at 08:00. */
  lemma ResidualExample()
    ensures ComputeResidual([Observation(540, Some(6.90))],
                            [Observation(480, Some(6.80)), Observation(545, Some(6.95))])
         == [ResidualPoint(545, 0.05)]
  {
    var refs := [Observation(540, Some(6.90))];
    var exs := [Observation(480, Some(6.80)), Observation(545, Some(6.95))];
    assert exs[..1] == [exs[0]] && exs[..1][..0] == [];
    assert SortByTime([exs[0]]) == [exs[0]];
    assert SortByTime(exs) == exs;
    assert refs[..0] == [];
    assert SortByTime(refs) == refs;
    Round2Exact(5);
    assert Round2(6.95 - 6.90) == 0.05;
    assert exs[1..][1..] == [];
  }
}
