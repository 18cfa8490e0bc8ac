/**
 * The revenue-derivation pass of lp_revenue.py:20-39. The collected table is
 * split by pool name (pools in order of first appearance), each pool's rows
 * are sorted by their time index, the virtual price is differenced row to
 * row, and the swap-fee revenue of a row is that difference times the row's
 * LP supply times 2. The pools' results are concatenated.
 */
module LpRevenue {
  import opened Wrappers
  import opened PoolTable

  /** A collected row with the two columns the pass adds; a missing value
      (pandas NaN) is None. */
  datatype RevenueRow = RevenueRow(row: Row, virtualPriceDiff: Option<int>, swapFeeRevenue: Option<int>)

  /** `queried_data.pool_name.unique()` (lp_revenue.py:22): every pool name of the
      table exactly once, in order of first appearance. */
  function PoolNames(rows: seq<Row>): (names: seq<string>)
    ensures forall n :: n in names <==> exists i :: 0 <= i < |rows| && rows[i].poolName == n
    ensures forall i, j :: 0 <= i < j < |names| ==> names[i] != names[j]
    decreases |rows|
  {
    if rows == [] then []
    else
      var front := rows[..|rows| - 1];
      var names := PoolNames(front);
      assert forall i :: 0 <= i < |front| ==> front[i] == rows[i];
      if rows[|rows| - 1].poolName in names then names else names + [rows[|rows| - 1].poolName]
  }

  /** `queried_data[queried_data.pool_name == name]` (lp_revenue.py:24): the rows
      of one pool, each as often as in the table, and no other row. */
  function PoolRows(rows: seq<Row>, name: string): (group: seq<Row>)
    ensures forall r :: multiset(group)[r] == if r.poolName == name then multiset(rows)[r] else 0
    decreases |rows|
  {
    if rows == [] then []
    else
      var rest := PoolRows(rows[1..], name);
      assert rows == [rows[0]] + rows[1..];
      if rows[0].poolName == name then [rows[0]] + rest else rest
  }

  ghost predicate SortedByIndex(rows: seq<Row>)
  {
    forall i, j :: 0 <= i < j < |rows| ==> rows[i].timestamp <= rows[j].timestamp
  }

  function InsertByIndex(r: Row, sorted: seq<Row>): (result: seq<Row>)
    ensures multiset(result) == multiset(sorted) + multiset{r}
    decreases |sorted|
  {
    if sorted == [] || r.timestamp <= sorted[0].timestamp then [r] + sorted
    else
      assert sorted == [sorted[0]] + sorted[1..];
      [sorted[0]] + InsertByIndex(r, sorted[1..])
  }

  lemma {:induction false} InsertByIndexSorted(r: Row, sorted: seq<Row>)
    requires SortedByIndex(sorted)
    ensures SortedByIndex(InsertByIndex(r, sorted))
    decreases |sorted|
  {
    if sorted != [] && r.timestamp > sorted[0].timestamp {
      var rest := InsertByIndex(r, sorted[1..]);
      InsertByIndexSorted(r, sorted[1..]);
      forall x | x in rest ensures sorted[0].timestamp <= x.timestamp {
        assert x in multiset(rest);
        if x != r {
          assert x in multiset(sorted[1..]);
          var k :| 0 <= k < |sorted[1..]| && sorted[1..][k] == x;
          assert sorted[k + 1] == x;
        }
      }
      var result := [sorted[0]] + rest;
      forall i, j | 0 <= i < j < |result| ensures result[i].timestamp <= result[j].timestamp {
        assert result[j] == rest[j - 1];
        if i > 0 {
          assert result[i] == rest[i - 1];
        }
      }
    }
  }

  /** `pool_data.sort_index(ascending=True)` (lp_revenue.py:25): the index is the
      row's timestamp, so the rows come out in ascending timestamp order, as a
      rearrangement of the input. */
  function SortByIndex(rows: seq<Row>): (sorted: seq<Row>)
    ensures SortedByIndex(sorted)
    ensures multiset(sorted) == multiset(rows)
    decreases |rows|
  {
    if rows == [] then []
    else
      assert rows == [rows[0]] + rows[1..];
      var rest := SortByIndex(rows[1..]);
      InsertByIndexSorted(rows[0], rest);
      InsertByIndex(rows[0], rest)
  }

  /** The `lp_token_virtual_price` column of a group. */
  function Prices(group: seq<Row>): (prices: seq<int>)
    ensures |prices| == |group|
  {
    seq(|group|, i requires 0 <= i < |group| => group[i].virtualPrice)
  }

  /** `Series.diff()` (lp_revenue.py:27-29), period 1: built from the front, each
      new value minus the one before it, the very first value missing. */
  function Diff(values: seq<int>): (d: seq<Option<int>>)
    ensures |d| == |values|
    decreases |values|
  {
    if |values| == 0 then []
    else if |values| == 1 then [None]
    else Diff(values[..|values| - 1]) + [Some(values[|values| - 1] - values[|values| - 2])]
  }

  /** `virtual_price_diff * total_supply_lp_token * 2` (lp_revenue.py:30-33),
      missing when the difference is. */
  function SwapFeeRevenue(diff: Option<int>, supply: int): Option<int>
  {
    match diff
    case None => None
    case Some(d) => Some(d * supply * 2)
  }

  /** The two new columns of lp_revenue.py:27-33 on a sorted group. */
  function WithRevenue(group: seq<Row>): (out: seq<RevenueRow>)
    ensures |out| == |group|
  {
    var diffs := Diff(Prices(group));
    seq(|group|, i requires 0 <= i < |group| =>
      RevenueRow(group[i], diffs[i], SwapFeeRevenue(diffs[i], group[i].totalSupply)))
  }

  /** One iteration of the loop of lp_revenue.py:22-37 for pool `name`. */
  function DerivePool(rows: seq<Row>, name: string): seq<RevenueRow>
  {
    WithRevenue(SortByIndex(PoolRows(rows, name)))
  }

  /** The accumulated `delta_swap_revenue_data` after the pools `names`
      (lp_revenue.py:35-37): each pool's derived group appended in turn. */
  function DeriveGroups(rows: seq<Row>, names: seq<string>): seq<RevenueRow>
    decreases |names|
  {
    if names == [] then []
    else DeriveGroups(rows, names[..|names| - 1]) + DerivePool(rows, names[|names| - 1])
  }

  /** The collected rows inside the derived rows. */
  function RowsOf(out: seq<RevenueRow>): (rows: seq<Row>)
    ensures |rows| == |out|
  {
    seq(|out|, i requires 0 <= i < |out| => out[i].row)
  }

  lemma RowsOfConcat(a: seq<RevenueRow>, b: seq<RevenueRow>)
    ensures RowsOf(a + b) == RowsOf(a) + RowsOf(b)
  {
    assert forall i :: 0 <= i < |a + b| ==> RowsOf(a + b)[i] == (RowsOf(a) + RowsOf(b))[i];
  }

  /** The difference column: nothing for the first row, and for every later row
      its value minus the previous row's value. */
  lemma {:induction false} DiffAt(values: seq<int>)
    ensures |values| > 0 ==> Diff(values)[0] == None
    ensures forall i :: 0 < i < |values| ==> Diff(values)[i] == Some(values[i] - values[i - 1])
    decreases |values|
  {
    if |values| >= 2 {
      var front := values[..|values| - 1];
      DiffAt(front);
      var d := Diff(values);
      assert d == Diff(front) + [Some(values[|values| - 1] - values[|values| - 2])];
      assert d[0] == Diff(front)[0];
      forall i | 0 < i < |values| ensures d[i] == Some(values[i] - values[i - 1]) {
        if i < |front| {
          assert d[i] == Diff(front)[i];
          assert front[i] == values[i] && front[i - 1] == values[i - 1];
        } else {
          assert d[i] == Some(values[|values| - 1] - values[|values| - 2]);
        }
      }
    }
  }

  lemma RowsOfWithRevenue(group: seq<Row>)
    ensures RowsOf(WithRevenue(group)) == group
  {
  }

  /** The derived columns of a group: no price difference for the first row,
      for every later row its price minus the previous row's; the revenue is
      that difference times the row's own supply times 2, and is missing
      exactly when the difference is. */
  lemma WithRevenueAt(group: seq<Row>)
    ensures var out := WithRevenue(group);
      RowsOf(out) == group
      && (|out| > 0 ==> out[0].virtualPriceDiff == None)
      && (forall i :: 0 < i < |out| ==>
            out[i].virtualPriceDiff == Some(group[i].virtualPrice - group[i - 1].virtualPrice))
      && (forall i :: 0 <= i < |out| ==>
            (out[i].swapFeeRevenue.Some? <==> out[i].virtualPriceDiff.Some?))
      && (forall i :: 0 <= i < |out| && out[i].swapFeeRevenue.Some? ==>
            out[i].swapFeeRevenue.value == out[i].virtualPriceDiff.value * group[i].totalSupply * 2)
  {
    var prices := Prices(group);
    DiffAt(prices);
    var out := WithRevenue(group);
    if |out| > 0 {
      assert out[0].virtualPriceDiff == Diff(prices)[0] == None;
    }
    forall i | 0 < i < |out|
      ensures out[i].virtualPriceDiff == Some(group[i].virtualPrice - group[i - 1].virtualPrice)
    {
      assert out[i].virtualPriceDiff == Diff(prices)[i];
      assert prices[i] == group[i].virtualPrice && prices[i - 1] == group[i - 1].virtualPrice;
    }
    RowsOfWithRevenue(group);
  }

  /** One pool's derived group: exactly that pool's rows, each as often as in
      the table and ascending by time index, with the derived columns of
      WithRevenueAt computed along that order. */
  lemma DerivedPool(rows: seq<Row>, name: string)
    ensures var out := DerivePool(rows, name);
      RowsOf(out) == SortByIndex(PoolRows(rows, name))
      && multiset(RowsOf(out)) == multiset(PoolRows(rows, name))
      && (forall i :: 0 <= i < |out| ==> out[i].row.poolName == name)
      && (forall i, j :: 0 <= i < j < |out| ==> out[i].row.timestamp <= out[j].row.timestamp)
  {
    var sorted := SortByIndex(PoolRows(rows, name));
    RowsOfWithRevenue(sorted);
    forall i | 0 <= i < |sorted| ensures sorted[i].poolName == name {
      assert sorted[i] in multiset(sorted);
    }
  }

  lemma DerivedPoolRows(rows: seq<Row>, name: string)
    ensures multiset(RowsOf(DerivePool(rows, name))) == multiset(PoolRows(rows, name))
  {
    RowsOfWithRevenue(SortByIndex(PoolRows(rows, name)));
  }

  /** Each row of the table whose pool is among `names` (distinct) turns up in
      the concatenated groups as often as in the table; no other row does. */
  lemma {:induction false} GroupsPartition(rows: seq<Row>, names: seq<string>)
    requires forall i, j :: 0 <= i < j < |names| ==> names[i] != names[j]
    ensures forall r :: multiset(RowsOf(DeriveGroups(rows, names)))[r]
                 == if r.poolName in names then multiset(rows)[r] else 0
    decreases |names|
  {
    if names != [] {
      var front := names[..|names| - 1];
      var name := names[|names| - 1];
      GroupsPartition(rows, front);
      var before := RowsOf(DeriveGroups(rows, front));
      var group := RowsOf(DerivePool(rows, name));
      DerivedPoolRows(rows, name);
      RowsOfConcat(DeriveGroups(rows, front), DerivePool(rows, name));
      assert multiset(RowsOf(DeriveGroups(rows, names))) == multiset(before) + multiset(group);
      assert names == front + [name];
      assert name !in front;
      forall r ensures multiset(RowsOf(DeriveGroups(rows, names)))[r]
                 == if r.poolName in names then multiset(rows)[r] else 0
      {
        assert r.poolName in names <==> r.poolName in front || r.poolName == name;
      }
    }
  }

  /** The pool groups partition the table: every input row appears in the
      output exactly as often as in the input, so the sizes agree. */
  lemma RevenuePartition(rows: seq<Row>)
    ensures var out := DeriveGroups(rows, PoolNames(rows));
      multiset(RowsOf(out)) == multiset(rows) && |out| == |rows|
  {
    var names := PoolNames(rows);
    var out := DeriveGroups(rows, names);
    GroupsPartition(rows, names);
    forall r ensures multiset(RowsOf(out))[r] == multiset(rows)[r] {
      if r in rows {
        var i :| 0 <= i < |rows| && rows[i] == r;
        assert r.poolName in names;
      }
    }
    assert multiset(RowsOf(out)) == multiset(rows);
    assert |multiset(RowsOf(out))| == |RowsOf(out)|;
  }

  /** Some row before position `q` belongs to pool `name`. */
  ghost predicate SeenBefore(rows: seq<Row>, name: string, q: int)
  {
    exists p :: 0 <= p < q && p < |rows| && rows[p].poolName == name
  }

  /** Pools are taken in order of first appearance: before any row of a
      later pool of `pool_name.unique()` there is a row of every earlier pool. */
  lemma {:induction false} PoolNamesFirstAppearance(rows: seq<Row>, i: int, j: int, q: int)
    requires 0 <= i < j < |PoolNames(rows)|
    requires 0 <= q < |rows| && rows[q].poolName == PoolNames(rows)[j]
    ensures SeenBefore(rows, PoolNames(rows)[i], q)
    decreases |rows|
  {
    var front := rows[..|rows| - 1];
    var last := rows[|rows| - 1];
    var names := PoolNames(rows);
    var oldNames := PoolNames(front);
    assert forall k :: 0 <= k < |front| ==> front[k] == rows[k];
    assert names[i] == oldNames[i];
    assert names[i] in oldNames;
    var p0 :| 0 <= p0 < |front| && front[p0].poolName == names[i];
    if j < |oldNames| {
      assert names[j] == oldNames[j];
      var q0 := q;
      if q == |front| {
        assert oldNames[j] in oldNames;
        q0 :| 0 <= q0 < |front| && front[q0].poolName == oldNames[j];
      }
      PoolNamesFirstAppearance(front, i, j, q0);
      var p :| 0 <= p < q0 && p < |front| && front[p].poolName == oldNames[i];
      assert rows[p].poolName == names[i];
    } else {
      assert names[j] == last.poolName && last.poolName !in oldNames;
      assert rows[p0].poolName == names[i];
    }
  }

  /** One more pass of the loop appends the next pool's group. */
  lemma DeriveGroupsStep(rows: seq<Row>, names: seq<string>, i: int)
    requires 0 <= i < |names|
    ensures DeriveGroups(rows, names[..i + 1]) == DeriveGroups(rows, names[..i]) + DerivePool(rows, names[i])
  {
    assert names[..i + 1][..i] == names[..i];
  }

  /** lp_revenue.py:20-39: the loop over the pool names, appending each pool's
      sorted, differenced group to the output. */
  method DeriveRevenue(queried: seq<Row>) returns (delta: seq<RevenueRow>)
    ensures delta == DeriveGroups(queried, PoolNames(queried))
    ensures |delta| == |queried| && multiset(RowsOf(delta)) == multiset(queried)
  {
    var names := PoolNames(queried);
    delta := [];
    var i := 0;
    while i < |names|
      invariant 0 <= i <= |names|
      invariant delta == DeriveGroups(queried, names[..i])
    {
      var poolData := PoolRows(queried, names[i]);
      poolData := SortByIndex(poolData);
      delta := delta + WithRevenue(poolData);
      DeriveGroupsStep(queried, names, i);
      i := i + 1;
    }
    assert names[..|names|] == names;
    RevenuePartition(queried);
  }
}
