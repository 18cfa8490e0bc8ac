/**
 * The collection loop of main.py:46-129 as the imperative code it is: a loop
 * over the blocks, an inner loop over the pool catalog appending to the
 * per-block `pool_data`, and the accumulated table reassigned by
 * concatenation once per block. Both loops are proved to compute Collection.Run.
 */
module Collector {
  import opened Wrappers
  import opened PoolTable
  import opened Collection
  import opened CollectionProofs

  function Prepend(calls: seq<Call>, r: RunResult): RunResult
  {
    RunResult(r.outcome, calls + r.calls)
  }

  function PrependBatch(rows: seq<Row>, calls: seq<Call>, b: Batch): Batch
  {
    Batch(rows + b.rows, calls + b.calls, b.fault)
  }

  /** The body of `with brownie.multicall(...)` for one block (main.py:67-97):
      the rows appended to `pool_data`, the reads issued, and the read that
      raised, if any. */
  method ReadBatch(block: int, timestamp: int, catalog: seq<Pool>, table: seq<Row>, chain: Chain)
    returns (poolData: seq<Row>, batchCalls: seq<Call>, fault: Option<Call>)
    ensures Batch(poolData, batchCalls, fault) == PoolBatch(block, timestamp, catalog, table, chain)
  {
    poolData, batchCalls := [], [];
    var i := 0;
    while i < |catalog|
      invariant 0 <= i <= |catalog|
      invariant PoolBatch(block, timestamp, catalog, table, chain)
        == PrependBatch(poolData, batchCalls, PoolBatch(block, timestamp, catalog[i..], table, chain))
    {
      var pool := catalog[i];
      ghost var rest := PoolBatch(block, timestamp, catalog[i + 1..], table, chain);
      assert catalog[i..][1..] == catalog[i + 1..];
      if |table| > 0 && PoolDataExists(pool.name, block, table) {
        assert PoolBatch(block, timestamp, catalog[i..], table, chain) == rest;
      } else {
        var price := chain.virtualPrice(block, pool.poolAddr);
        ghost var before := batchCalls;
        batchCalls := batchCalls + [GetVirtualPrice(block, pool)];
        if price.None? {
          assert PoolBatch(block, timestamp, catalog[i..], table, chain)
            == Batch([], [GetVirtualPrice(block, pool)], Some(GetVirtualPrice(block, pool)));
          fault := Some(GetVirtualPrice(block, pool));
          return;
        }
        var supply := chain.totalSupply(block, pool.lpTokenAddr);
        batchCalls := batchCalls + [TotalSupply(block, pool)];
        assert batchCalls == before + [GetVirtualPrice(block, pool), TotalSupply(block, pool)];
        if supply.None? {
          assert PoolBatch(block, timestamp, catalog[i..], table, chain)
            == Batch([], [GetVirtualPrice(block, pool), TotalSupply(block, pool)], Some(TotalSupply(block, pool)));
          fault := Some(TotalSupply(block, pool));
          return;
        }
        var row := Row(timestamp, block, pool.name, pool.poolAddr, pool.lpTokenAddr, price.value, supply.value);
        assert PoolBatch(block, timestamp, catalog[i..], table, chain)
          == Batch([row] + rest.rows, [GetVirtualPrice(block, pool), TotalSupply(block, pool)] + rest.calls, rest.fault);
        AppendAssoc(poolData, [row], rest.rows);
        AppendAssoc(before, [GetVirtualPrice(block, pool), TotalSupply(block, pool)], rest.calls);
        poolData := poolData + [row];
      }
      i := i + 1;
    }
    fault := None;
  }

  /** main.py:46-129: collect every block of [blockStart, blockEnd) on top of the
      loaded table, returning how the run ended and every read it issued. */
  method Collect(blockStart: int, blockEnd: int, catalog: seq<Pool>, loaded: seq<Row>, chain: Chain)
    returns (outcome: Outcome, calls: seq<Call>)
    ensures RunResult(outcome, calls) == Run(blockStart, blockEnd, catalog, loaded, chain)
    ensures |loaded| <= |outcome.table| && outcome.table[..|loaded|] == loaded
    ensures outcome.Aborted? ==> (outcome.saved <==> |outcome.table| > 0)
    ensures blockEnd <= blockStart ==> outcome == Completed(loaded) && calls == []
  {
    RunExtends(blockStart, blockEnd, catalog, loaded, chain);
    RunAborted(blockStart, blockEnd, catalog, loaded, chain);
    var table := loaded;
    calls := [];
    var block := blockStart;
    while block < blockEnd
      invariant Run(blockStart, blockEnd, catalog, loaded, chain) == Prepend(calls, Run(block, blockEnd, catalog, table, chain))
      decreases blockEnd - block
    {
      var header := chain.blockTimestamp(block);
      if header.None? {
        calls := calls + [GetBlock(block)];
        outcome := Aborted(table, |table| > 0, GetBlock(block));
        return;
      }
      var poolData, batchCalls, fault := ReadBatch(block, header.value, catalog, table, chain);
      ghost var before := calls;
      calls := calls + ([GetBlock(block)] + batchCalls);
      if fault.Some? {
        outcome := Aborted(table, |table| > 0, fault.value);
        assert Run(block, blockEnd, catalog, table, chain) == RunResult(outcome, [GetBlock(block)] + batchCalls);
        return;
      }
      ghost var rest := Run(block + 1, blockEnd, catalog, table + poolData, chain);
      assert Run(block, blockEnd, catalog, table, chain)
        == RunResult(rest.outcome, [GetBlock(block)] + batchCalls + rest.calls);
      AppendAssoc(before, [GetBlock(block)] + batchCalls, rest.calls);
      assert Prepend(before, Run(block, blockEnd, catalog, table, chain)) == Prepend(calls, rest);
      table := table + poolData;
      block := block + 1;
    }
    outcome := Completed(table);
  }
}
