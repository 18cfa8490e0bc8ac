/**
 * The table the collector accumulates: one row per (block, pool) observation,
 * with the columns main.py builds for each block (main.py:57-65), and the
 * existence check that makes a re-run skip what is already there.
 */
module PoolTable {

  /** One entry of the pool catalog: its name (the dict key), the pool contract
      and the LP token contract whose state is read. */
  datatype Pool = Pool(name: string, poolAddr: string, lpTokenAddr: string)

  /** One observation. The scalars are the exact integers the contracts return. */
  datatype Row = Row(
    timestamp: int,
    block: int,
    poolName: string,
    poolAddr: string,
    lpTokenAddr: string,
    virtualPrice: int,
    totalSupply: int)

  /** True iff some row of `data` has both this block number and this pool name. */
  function PoolDataExists(poolName: string, block: int, data: seq<Row>): (r: bool)
    ensures r <==> exists i :: 0 <= i < |data| && data[i].block == block && data[i].poolName == poolName
    decreases |data|
  {
    if data == [] then false
    else if data[0].block == block && data[0].poolName == poolName then true
    else
      var rest := PoolDataExists(poolName, block, data[1..]);
      assert forall i :: 1 <= i < |data| ==> data[1..][i - 1] == data[i];
      rest
  }

  lemma PoolDataExistsConcat(poolName: string, block: int, a: seq<Row>, b: seq<Row>)
    ensures PoolDataExists(poolName, block, a + b)
      <==> PoolDataExists(poolName, block, a) || PoolDataExists(poolName, block, b)
  {
    if PoolDataExists(poolName, block, a) {
      var i :| 0 <= i < |a| && a[i].block == block && a[i].poolName == poolName;
      assert (a + b)[i] == a[i];
    }
    if PoolDataExists(poolName, block, b) {
      var i :| 0 <= i < |b| && b[i].block == block && b[i].poolName == poolName;
      assert (a + b)[|a| + i] == b[i];
    }
    if PoolDataExists(poolName, block, a + b) {
      var i :| 0 <= i < |a + b| && (a + b)[i].block == block && (a + b)[i].poolName == poolName;
      if i >= |a| {
        assert (a + b)[i] == b[i - |a|];
      } else {
        assert (a + b)[i] == a[i];
      }
    }
  }

  /** At most one row per (block, pool name). */
  ghost predicate NoDuplicates(data: seq<Row>)
  {
    forall i, j :: 0 <= i < j < |data| ==>
      data[i].block != data[j].block || data[i].poolName != data[j].poolName
  }

  /** The catalog is a dict keyed by pool name, so no name occurs twice. */
  ghost predicate UniqueNames(catalog: seq<Pool>)
  {
    forall i, j :: 0 <= i < j < |catalog| ==> catalog[i].name != catalog[j].name
  }
}
