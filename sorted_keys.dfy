/** Sorted, de-duplicated index of a table: what grouping and pivoting by a key
    column produce as the row (or column) labels. */
module SortedKeys {

  predicate StrictlyIncreasing(s: seq<int>) {
    forall i, j :: 0 <= i < j < |s| ==> s[i] < s[j]
  }

  /** Adds `k` to a sorted index unless it is already there. */
  function InsertKey(s: seq<int>, k: int): (r: seq<int>)
    requires StrictlyIncreasing(s)
    ensures StrictlyIncreasing(r)
    ensures forall x :: x in r <==> x in s || x == k
  {
    if s == [] then [k]
    else if k < s[0] then [k] + s
    else if k == s[0] then s
    else
      var rest := InsertKey(s[1..], k);
      assert forall x :: x in rest ==> s[0] < x;
      var r := [s[0]] + rest;
      forall i, j | 0 <= i < j < |r| ensures r[i] < r[j] {
        assert r[j] == rest[j - 1] && r[j] in rest;
        if i > 0 { assert r[i] == rest[i - 1]; }
      }
      r
  }

  /** The distinct values of a key column, in ascending order. */
  function Distinct(keys: seq<int>): (r: seq<int>)
    ensures StrictlyIncreasing(r)
    ensures forall x :: x in r <==> x in keys
  {
    if keys == [] then []
    else InsertKey(Distinct(keys[..|keys| - 1]), keys[|keys| - 1])
  }

  lemma DistinctOfThree(x: int, y: int, z: int)
    requires x < y < z
    ensures Distinct([x, y, z]) == [x, y, z]
  {
    assert [x, y, z][..2] == [x, y] && [x, y][..1] == [x];
    assert Distinct([x]) == [x];
    assert Distinct([x, y]) == [x, y] by {
      assert InsertKey([x], y) == [x] + InsertKey([], y);
    }
    assert InsertKey([x, y], z) == [x] + InsertKey([y], z);
    assert InsertKey([y], z) == [y] + InsertKey([], z);
  }

  lemma DistinctOfSame(x: int)
    ensures Distinct([x, x, x]) == [x]
  {
    assert [x, x, x][..2] == [x, x] && [x, x][..1] == [x];
    assert Distinct([x]) == [x];
    assert Distinct([x, x]) == [x];
  }
}
