/**
 * The resumable collection loop of main.py (main.py:46-129). For every block of
 * [blockStart, blockEnd) it reads the block's timestamp, walks the pool catalog
 * in order, skips every pool whose (block, pool) row is already in the
 * accumulated table, reads the virtual price and LP supply of the others, and
 * appends the block's batch to the table only once the whole block is done.
 * The run ends Completed (table saved) or Aborted at the first read that
 * raises (table saved only when non-empty, fault re-raised).
 *
 * This module holds the specification functions; Collector holds the loop.
 */
module Collection {
  import opened Wrappers
  import opened PoolTable

  /** The chain at a given block, as the loop sees it. Every read may raise
      (None): the block header lookup, `get_virtual_price` on the pool
      contract and `totalSupply` on the LP token contract. */
  datatype Chain = Chain(
    blockTimestamp: int -> Option<int>,
    virtualPrice: (int, string) -> Option<int>,
    totalSupply: (int, string) -> Option<int>)

  /** A read issued against the chain, in the order the loop issues them. */
  datatype Call =
    | GetBlock(block: int)
    | GetVirtualPrice(block: int, pool: Pool)
    | TotalSupply(block: int, pool: Pool)

  /** How a run ends. `Aborted` is the re-raised exception: `table` is what the
      loop held when the read failed, `saved` whether it was written out. */
  datatype Outcome =
    | Completed(table: seq<Row>)
    | Aborted(table: seq<Row>, saved: bool, fault: Call)

  /** What one block's pass over the catalog produced: the rows appended to the
      per-block `pool_data`, the reads issued, and the read that raised, if any. */
  datatype Batch = Batch(rows: seq<Row>, calls: seq<Call>, fault: Option<Call>)

  datatype RunResult = RunResult(outcome: Outcome, calls: seq<Call>)

  /** The table written to disk, if any. */
  function Persisted(outcome: Outcome): Option<seq<Row>>
  {
    match outcome
    case Completed(table) => Some(table)
    case Aborted(table, saved, _) => if saved then Some(table) else None
  }

  /** The skip test of main.py:71-75: the loaded table is non-empty and already
      holds this (block, pool) pair. */
  function AlreadyCollected(table: seq<Row>, block: int, poolName: string): bool
  {
    |table| > 0 && PoolDataExists(poolName, block, table)
  }

  /** The inner loop over the catalog for one block (main.py:67-97). */
  function PoolBatch(block: int, timestamp: int, pools: seq<Pool>, table: seq<Row>, chain: Chain): Batch
    decreases |pools|
  {
    if pools == [] then Batch([], [], None)
    else
      var pool := pools[0];
      if AlreadyCollected(table, block, pool.name) then
        PoolBatch(block, timestamp, pools[1..], table, chain)
      else
        var priceRead := GetVirtualPrice(block, pool);
        match chain.virtualPrice(block, pool.poolAddr)
        case None => Batch([], [priceRead], Some(priceRead))
        case Some(price) =>
          var supplyRead := TotalSupply(block, pool);
          match chain.totalSupply(block, pool.lpTokenAddr)
          case None => Batch([], [priceRead, supplyRead], Some(supplyRead))
          case Some(supply) =>
            var row := Row(timestamp, block, pool.name, pool.poolAddr, pool.lpTokenAddr, price, supply);
            var rest := PoolBatch(block, timestamp, pools[1..], table, chain);
            Batch([row] + rest.rows, [priceRead, supplyRead] + rest.calls, rest.fault)
  }

  /** The outer loop over the blocks [block, blockEnd) (main.py:46-129). */
  function Run(block: int, blockEnd: int, catalog: seq<Pool>, table: seq<Row>, chain: Chain): RunResult
    decreases blockEnd - block
  {
    if block >= blockEnd then RunResult(Completed(table), [])
    else
      match chain.blockTimestamp(block)
      case None => RunResult(Aborted(table, |table| > 0, GetBlock(block)), [GetBlock(block)])
      case Some(timestamp) =>
        var batch := PoolBatch(block, timestamp, catalog, table, chain);
        if batch.fault.Some? then
          RunResult(Aborted(table, |table| > 0, batch.fault.value), [GetBlock(block)] + batch.calls)
        else
          var rest := Run(block + 1, blockEnd, catalog, table + batch.rows, chain);
          RunResult(rest.outcome, [GetBlock(block)] + batch.calls + rest.calls)
  }

}
