# curve-pool-tracker: the resumable pool-data collector and the LP revenue pass

This project models the two working parts of a tracker for Curve liquidity
pools on Ethereum, and proves what they guarantee.

- **The collection loop** (`main.py`). It walks the block numbers of
  `[block_start, block_end)` in ascending order. For each block it reads the
  block's timestamp. It then goes through the pool catalog in order. A pool
  whose `(block, pool)` row is already in the accumulated table is skipped,
  before any chain read. Every other pool has its LP virtual price and its LP
  token supply read, and gets one row in the per-block `pool_data`. Only once
  the block is done is `pool_data` appended to the table. A run that completes
  saves the table. When a read raises an `Exception`, the table is saved only
  when it is non-empty, and the exception is re-raised.
- **The revenue pass** (`lp_revenue.py`). It groups the collected rows by pool,
  taking pools in order of first appearance. It sorts each group by its time
  index. It takes the first difference of the virtual price and computes
  `swap_fee_revenue = diff * supply * 2`. Then it concatenates the groups.

Files:

- `wrappers.dfy` (`Wrappers`): `Option`. It stands for a read that raised and
  for a pandas missing value.
- `pool_table.dfy` (`PoolTable`): `Pool`, `Row`, the existence check
  `PoolDataExists`, and the `NoDuplicates` and `UniqueNames` predicates.
- `collection.dfy` (`Collection`): the chain as three fallible readers
  (`Chain`), the log of reads issued (`Call`), and the outcome
  `Completed(table) | Aborted(table, saved, fault)`. It also holds the
  specification functions:
  - `PoolBatch`: one block's pass over the catalog;
  - `Run`: the pass over a range of blocks;
  - `AlreadyCollected`: the skip test;
  - `Persisted`: which table is written out.
- `collector.dfy` (`Collector`): the loops as imperative code (`Collect`, and
  `ReadBatch` for the body of the `multicall` block). Both are proved to compute
  `Run` and `PoolBatch` exactly.
- `collection_proofs.dfy` (`CollectionProofs`): the guarantees of the loop, as
  lemmas about `PoolBatch` and `Run`.
- `revenue.dfy` (`LpRevenue`): the revenue pass. It has `PoolNames` (`unique()`),
  `PoolRows` (the group filter), `SortByIndex`, `Diff`, `WithRevenue`, the
  accumulating method `DeriveRevenue`, and its lemmas.

The chain, the date-to-block resolver, the pool registry and the Parquet file
are outside the model. They are parameters instead:

- a `Chain` value (`blockTimestamp`, `virtualPrice`, `totalSupply`, each
  returning `None` when the read raises);
- the block range;
- the catalog, as a `seq<Pool>` in dict order;
- the loaded table, as a `seq<Row>`.

Scalars are the exact integers the contracts return.

## Model

| member | source | states |
|---|---|---|
| `PoolTable.PoolDataExists` | main.py:132-140 | True exactly when some row has both the given block number and the given pool name. |
| `Collector.ReadBatch` | main.py:57-97 | The inner loop over the catalog gives exactly `PoolBatch`: the rows in `pool_data`, the reads issued in order, and the read that raised, if any. |
| `Collector.Collect` | main.py:46-129 | The two nested loops give exactly `Run`. The loaded table is kept unchanged as a prefix. An aborted run is saved exactly when its table is non-empty. An empty or reversed range reads nothing and completes with the loaded table. |
| `CollectionProofs.BatchRows` | main.py:69-97 | Every row of a block's batch has that block's number and timestamp. Its pool was not already in the table. It holds that catalog pool's name and addresses, and the price and supply the chain reported at that block. |
| `CollectionProofs.BatchCalls` | main.py:71-86 | A batch reads only at its own block, and only for catalog pools whose pair is not yet in the table. When it raises, the failing read is the last one issued. |
| `CollectionProofs.BatchCompletes` | main.py:69-97 | A batch that did not raise leaves every catalog pool with a row at that block, once its rows are appended. |
| `CollectionProofs.BatchNoDuplicates` | main.py:69-97 | With unique pool names (dict keys), a batch holds at most one row per pool. |
| `CollectionProofs.BatchCount` | main.py:69-97 | When no catalog pool has a row at the block yet, a batch that did not raise has exactly one row per pool. |
| `CollectionProofs.BatchAllCollected` | main.py:71-80 | When every pool already has a row at the block, the batch reads nothing and adds nothing. |
| `CollectionProofs.BatchSameReads` | main.py:67-86 | A batch depends on the chain only through the reads at its own block, as `multicall(block_identifier=block_number)` fixes. |
| `CollectionProofs.RunExtends` | main.py:40-119 | The table only grows. The starting table stays as an untouched prefix. Every later row is for a block of the range, has that block's timestamp, and holds what the chain reported for a catalog pool whose pair was not in the starting table. |
| `CollectionProofs.RunAscending` | main.py:48-119 | The rows a run adds come out in ascending block order. |
| `CollectionProofs.RunNoDuplicates` | main.py:48-119 | If the loaded table has at most one row per (block, pool) and the pool names are unique, so does the final table. |
| `CollectionProofs.RunCalls` | main.py:48-86 | Every read is at a block of the range. A price or supply read is only ever issued for a catalog pool whose (block, pool) pair was not in the starting table, so skipped pairs issue no reads. |
| `CollectionProofs.RunCompletes` | main.py:48-122 | A completed run had every header read succeed and leaves every (block, pool) pair of the range in the table. |
| `CollectionProofs.RunCountFresh` | main.py:71-119 | From a table with no row at the visited blocks, no pair is skipped. A completed run adds one row per pool per block. |
| `CollectionProofs.EmptyTableSkipsNothing` | main.py:71-75 | With an empty loaded table, a completed run over `[start, end)` holds exactly (end - start) times the catalog size rows. |
| `CollectionProofs.RunAborted` | main.py:57-129 | A run that raises during block k keeps exactly the table that a run over `[start, k)` completes with, so the partial `pool_data` of block k is lost. That table is saved exactly when it is non-empty, and the exception is re-raised. |
| `CollectionProofs.RunFaultIsLast` | main.py:57-129 | A run that raises does so at a block of its range, and the read that failed is the last one issued: nothing is read after the fault. |
| `CollectionProofs.RunSplit` | main.py:48-119 | A run that gets past block `mid` is the run up to `mid` followed by the run from `mid` on the table the first part produced. |
| `CollectionProofs.RunAllCollected` | main.py:48-80 | If every header read succeeds and every pair is already present, a run reads only block headers and completes with the table unchanged. |
| `CollectionProofs.RerunChangesNothing` | main.py:46-122 | Re-running a completed range on its own output issues no price or supply read and completes with the same table. |
| `CollectionProofs.RunSameReads` | main.py:48-97 | A run depends on the chain only through the blocks it visits. |
| `CollectionProofs.ResumeAfterFault` | main.py:40-129 | Suppose a run raised at block k. Resume it over the same range, on the table it saved, against a chain that agrees on the blocks before k. It ends as an uninterrupted run against that chain would. For the blocks before k it reads only headers. |
| `LpRevenue.PoolNames` | lp_revenue.py:22 | `unique()` lists each pool name of the table exactly once and lists no other name. |
| `LpRevenue.PoolNamesFirstAppearance` | lp_revenue.py:22 | Pools are listed in order of first appearance: before any row of a later-listed pool there is a row of every earlier-listed pool. |
| `LpRevenue.PoolRows` | lp_revenue.py:24 | The group of a pool holds each row of that pool as often as the table does, and no other row. |
| `LpRevenue.SortByIndex` | lp_revenue.py:25 | `sort_index(ascending=True)` gives the rows in ascending timestamp order, as a permutation of its input. |
| `LpRevenue.DiffAt` | lp_revenue.py:27-29 | The first difference has no value at position 0. At every later position it is the value there minus the value before it. |
| `LpRevenue.WithRevenueAt` | lp_revenue.py:27-33 | Within a group the first row has no `virtual_price_diff`. Row i > 0 has `price[i] - price[i-1]`. `swap_fee_revenue` is that difference times the row's own supply times 2. It is missing exactly when the difference is. The rows themselves are unchanged. |
| `LpRevenue.DerivedPool` | lp_revenue.py:24-33 | A pool's derived group holds exactly that pool's rows, each as often as in the table, in ascending timestamp order. |
| `LpRevenue.GroupsPartition` | lp_revenue.py:22-37 | Concatenate the groups of distinct pool names. Each row whose pool is among them appears as often as in the table. No other row appears. |
| `LpRevenue.RevenuePartition` | lp_revenue.py:22-37 | The pool groups partition the table: every input row appears in the output exactly as often as in the input, so the sizes agree. |
| `LpRevenue.DeriveRevenue` | lp_revenue.py:20-39 | The loop over the pool names gives each pool's derived group, appended in first-appearance order. The output is a permutation of the input rows, of the same size. |

## Left out

- Date-to-block resolution (`utils/eth_blocks_utils.py`): it is an HTTP query plus a date parser. The block range is a parameter. A resolver returning `None` fails before the `try`, which is not modelled.
- The pool registry (`utils/curve_utils/registry.py`): not part of this model. The catalog is a parameter. `registry.py` stores `[pool, gauge, lp_token]` per name, while `main.py` reads index 1 as the LP token. The model takes the catalog in the shape `main.py` uses.
- Network connection, `brownie.multicall` batching and contract objects: the chain is the abstract `Chain`. The batching is modelled as reads all taken at the block under iteration. Each read may fail on its own, and reads are issued in source order: price, then supply.
- Parquet load and save, and `os.path` checks: the loaded table is a parameter. Saving is the recorded `Completed` or `Aborted(saved)` outcome, with `Persisted` naming the table written. A failure of the save itself is not modelled.
- The `1e-18` scaling and float arithmetic: scalars are exact integers, with no rounding and no NaN, other than the missing difference, which is `None`.
- The pandas index: rows carry their `timestamp`. The datetime index built from it at main.py:113-116 is not a separate column. Sorting by the index is sorting by `timestamp`.
- `SortByIndex`: ties in timestamp keep table order. Pandas' default `sort_index` does not promise a stable order for equal keys. The sortedness and permutation properties do not depend on tie order; the differences of tied rows do.
- A schema-less empty table: a completed run with nothing loaded and nothing read saves a `DataFrame()` without columns. `lp_revenue.py` would raise on reading `pool_name` from it. The model gives every table the row schema, so the revenue pass on an empty table yields an empty output.
- Only failed chain reads are modelled as faults. The handler at main.py:124-129 catches `Exception` only. A `KeyboardInterrupt` or `SystemExit` skips it, so nothing from the run is saved. Neither is modelled.
- Logging, timing and the time-left estimate (main.py:51-55, 99-111), and the click command line: instrumentation only.
- The missing-input check at lp_revenue.py:17-18 does nothing, so there is nothing to model.
- On a failed read the code keeps the rows of the blocks already completed. It drops the partial `pool_data` of the failing block, because the append at main.py:119 is never reached. It saves the table only when it is non-empty (main.py:126-127). The model follows the code (`RunAborted`).
- Adding a pool to the catalog between runs is not stated as its own lemma. `RunCalls`, `RunExtends` and `RunCompletes` cover it: only missing pairs are read, old rows stay as a prefix, and every pair ends collected.
