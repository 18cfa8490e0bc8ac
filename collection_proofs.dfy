/**
 * What the collection loop guarantees, proved about its specification
 * functions PoolBatch (one block) and Run (a range of blocks).
 */
module CollectionProofs {
  import opened Wrappers
  import opened PoolTable
  import opened Collection

  /** `r` is the row main.py:89-97 writes for pool `p`: the pool's name and
      addresses, and both scalars as the chain reported them at `r`'s block. */
  ghost predicate IsReadRow(r: Row, p: Pool, chain: Chain)
  {
    r.poolName == p.name && r.poolAddr == p.poolAddr && r.lpTokenAddr == p.lpTokenAddr
    && chain.virtualPrice(r.block, p.poolAddr) == Some(r.virtualPrice)
    && chain.totalSupply(r.block, p.lpTokenAddr) == Some(r.totalSupply)
  }

  /** `r` is a row a run over [from, to) may add on top of `table`: one of the
      visited blocks, stamped with that block's timestamp, for a catalog pool
      whose pair was not yet in `table`, holding what the chain reported. */
  ghost predicate IsNewRow(r: Row, from: int, to: int, catalog: seq<Pool>, table: seq<Row>, chain: Chain)
  {
    from <= r.block < to
    && chain.blockTimestamp(r.block) == Some(r.timestamp)
    && !PoolDataExists(r.poolName, r.block, table)
    && exists p :: p in catalog && IsReadRow(r, p, chain)
  }

  lemma AppendAssoc<T>(a: seq<T>, b: seq<T>, c: seq<T>)
    ensures a + (b + c) == a + b + c
  {
  }

  // ---------------------------------------------------------------- one block

  /** Every row of a block's batch belongs to that block, carries its
      timestamp, and is the read row of a catalog pool not yet collected. */
  lemma {:induction false} BatchRows(block: int, timestamp: int, pools: seq<Pool>, table: seq<Row>, chain: Chain)
    ensures forall r :: r in PoolBatch(block, timestamp, pools, table, chain).rows ==>
      r.block == block && r.timestamp == timestamp
      && !PoolDataExists(r.poolName, block, table)
      && exists p :: p in pools && IsReadRow(r, p, chain)
    decreases |pools|
  {
    if pools != [] {
      var pool := pools[0];
      BatchRows(block, timestamp, pools[1..], table, chain);
      assert forall p :: p in pools[1..] ==> p in pools;
      if !AlreadyCollected(table, block, pool.name)
        && chain.virtualPrice(block, pool.poolAddr).Some?
        && chain.totalSupply(block, pool.lpTokenAddr).Some?
      {
        var row := PoolBatch(block, timestamp, pools, table, chain).rows[0];
        assert IsReadRow(row, pool, chain);
        assert !PoolDataExists(row.poolName, block, table);
      }
    }
  }

  /** A block's batch only reads pools whose pair is not yet collected, only
      at that block; when it raises, the failing read is the last one issued. */
  lemma {:induction false} BatchCalls(block: int, timestamp: int, pools: seq<Pool>, table: seq<Row>, chain: Chain)
    ensures var batch := PoolBatch(block, timestamp, pools, table, chain);
      (forall c :: c in batch.calls ==>
        !c.GetBlock? && c.block == block && c.pool in pools && !PoolDataExists(c.pool.name, block, table))
      && (batch.fault.Some? ==> |batch.calls| > 0 && batch.calls[|batch.calls| - 1] == batch.fault.value)
    decreases |pools|
  {
    if pools != [] {
      var batch := PoolBatch(block, timestamp, pools, table, chain);
      var rest := PoolBatch(block, timestamp, pools[1..], table, chain);
      BatchCalls(block, timestamp, pools[1..], table, chain);
      assert forall p :: p in pools[1..] ==> p in pools;
      var pool := pools[0];
      if !AlreadyCollected(table, block, pool.name)
        && chain.virtualPrice(block, pool.poolAddr).Some?
        && chain.totalSupply(block, pool.lpTokenAddr).Some?
      {
        assert batch.calls == [GetVirtualPrice(block, pool), TotalSupply(block, pool)] + rest.calls;
        if batch.fault.Some? {
          assert batch.calls[|batch.calls| - 1] == rest.calls[|rest.calls| - 1];
        }
      }
    }
  }

  /** A batch that did not raise leaves every catalog pool collected at its block. */
  lemma {:induction false} BatchCompletes(block: int, timestamp: int, pools: seq<Pool>, table: seq<Row>, chain: Chain)
    ensures var batch := PoolBatch(block, timestamp, pools, table, chain);
      batch.fault.None? ==>
        forall p :: p in pools ==> PoolDataExists(p.name, block, table + batch.rows)
    decreases |pools|
  {
    if pools != [] {
      var batch := PoolBatch(block, timestamp, pools, table, chain);
      var rest := PoolBatch(block, timestamp, pools[1..], table, chain);
      BatchCompletes(block, timestamp, pools[1..], table, chain);
      var pool := pools[0];
      if batch.fault.None? {
        forall p | p in pools
          ensures PoolDataExists(p.name, block, table + batch.rows)
        {
          if AlreadyCollected(table, block, pool.name) {
            if p == pool {
              PoolDataExistsConcat(p.name, block, table, batch.rows);
            } else {
              assert p in pools[1..];
            }
          } else {
            var row := batch.rows[0];
            assert batch.rows == [row] + rest.rows;
            PoolDataExistsConcat(p.name, block, table, batch.rows);
            PoolDataExistsConcat(p.name, block, table, rest.rows);
            PoolDataExistsConcat(p.name, block, [row], rest.rows);
            if p == pool {
              assert [row][0].block == block && [row][0].poolName == p.name;
            } else {
              assert p in pools[1..];
            }
          }
        }
      }
    }
  }

  ghost function NamesOf(pools: seq<Pool>): set<string>
  {
    set p | p in pools :: p.name
  }

  lemma {:induction false} BatchNames(block: int, timestamp: int, pools: seq<Pool>, table: seq<Row>, chain: Chain)
    ensures forall r :: r in PoolBatch(block, timestamp, pools, table, chain).rows ==> r.poolName in NamesOf(pools)
    decreases |pools|
  {
    if pools != [] {
      BatchNames(block, timestamp, pools[1..], table, chain);
      assert NamesOf(pools[1..]) <= NamesOf(pools) by {
        assert forall p :: p in pools[1..] ==> p in pools;
      }
      assert pools[0].name in NamesOf(pools);
    }
  }

  /** Pool names are dict keys, so one block's batch has one row per pool at most. */
  lemma {:induction false} BatchNoDuplicates(block: int, timestamp: int, pools: seq<Pool>, table: seq<Row>, chain: Chain)
    requires UniqueNames(pools)
    ensures NoDuplicates(PoolBatch(block, timestamp, pools, table, chain).rows)
    decreases |pools|
  {
    if pools != [] {
      var batch := PoolBatch(block, timestamp, pools, table, chain);
      var rest := PoolBatch(block, timestamp, pools[1..], table, chain);
      BatchNoDuplicates(block, timestamp, pools[1..], table, chain);
      var pool := pools[0];
      if !AlreadyCollected(table, block, pool.name)
        && chain.virtualPrice(block, pool.poolAddr).Some?
        && chain.totalSupply(block, pool.lpTokenAddr).Some?
      {
        BatchNames(block, timestamp, pools[1..], table, chain);
        assert pool.name !in NamesOf(pools[1..]) by {
          forall p | p in pools[1..] ensures p.name != pool.name {
            var k :| 0 <= k < |pools[1..]| && pools[1..][k] == p;
            assert pools[k + 1] == p;
          }
        }
        assert batch.rows == [batch.rows[0]] + rest.rows;
        forall i, j | 0 <= i < j < |batch.rows|
          ensures batch.rows[i].block != batch.rows[j].block || batch.rows[i].poolName != batch.rows[j].poolName
        {
          assert batch.rows[j] == rest.rows[j - 1];
          if i == 0 {
            assert rest.rows[j - 1] in rest.rows;
          } else {
            assert batch.rows[i] == rest.rows[i - 1];
          }
        }
      }
    }
  }

  /** When no pool of the catalog is collected yet at this block, a batch that
      did not raise has one row per pool. */
  lemma {:induction false} BatchCount(block: int, timestamp: int, pools: seq<Pool>, table: seq<Row>, chain: Chain)
    requires forall p :: p in pools ==> !PoolDataExists(p.name, block, table)
    ensures var batch := PoolBatch(block, timestamp, pools, table, chain);
      batch.fault.None? ==> |batch.rows| == |pools|
    decreases |pools|
  {
    if pools != [] {
      assert forall p :: p in pools[1..] ==> p in pools;
      BatchCount(block, timestamp, pools[1..], table, chain);
    }
  }

  /** When every pool is already collected at this block, the batch reads nothing
      and adds nothing. */
  lemma {:induction false} BatchAllCollected(block: int, timestamp: int, pools: seq<Pool>, table: seq<Row>, chain: Chain)
    requires forall p :: p in pools ==> PoolDataExists(p.name, block, table)
    ensures PoolBatch(block, timestamp, pools, table, chain) == Batch([], [], None)
    decreases |pools|
  {
    if pools != [] {
      assert forall p :: p in pools[1..] ==> p in pools;
      assert PoolDataExists(pools[0].name, block, table);
      BatchAllCollected(block, timestamp, pools[1..], table, chain);
    }
  }

  /** A batch depends on the chain only through the reads at its own block. */
  lemma {:induction false} BatchSameReads(block: int, timestamp: int, pools: seq<Pool>, table: seq<Row>, chain: Chain, other: Chain)
    requires forall a :: chain.virtualPrice(block, a) == other.virtualPrice(block, a)
    requires forall a :: chain.totalSupply(block, a) == other.totalSupply(block, a)
    ensures PoolBatch(block, timestamp, pools, table, chain) == PoolBatch(block, timestamp, pools, table, other)
    decreases |pools|
  {
    if pools != [] {
      BatchSameReads(block, timestamp, pools[1..], table, chain, other);
      assert chain.virtualPrice(block, pools[0].poolAddr) == other.virtualPrice(block, pools[0].poolAddr);
      assert chain.totalSupply(block, pools[0].lpTokenAddr) == other.totalSupply(block, pools[0].lpTokenAddr);
    }
  }

  // ------------------------------------------------------------ many blocks

  /** The table only grows: the table the run started from is kept unchanged as
      a prefix, and every row after it is a new row of a visited block. */
  lemma {:induction false} RunExtends(block: int, blockEnd: int, catalog: seq<Pool>, table: seq<Row>, chain: Chain)
    ensures var t := Run(block, blockEnd, catalog, table, chain).outcome.table;
      |table| <= |t| && t[..|table|] == table
      && forall i :: |table| <= i < |t| ==> IsNewRow(t[i], block, blockEnd, catalog, table, chain)
    decreases blockEnd - block
  {
    if block < blockEnd && chain.blockTimestamp(block).Some? {
      var timestamp := chain.blockTimestamp(block).value;
      var batch := PoolBatch(block, timestamp, catalog, table, chain);
      if batch.fault.None? {
        var next := table + batch.rows;
        RunExtends(block + 1, blockEnd, catalog, next, chain);
        BatchRows(block, timestamp, catalog, table, chain);
        var t := Run(block, blockEnd, catalog, table, chain).outcome.table;
        assert t == Run(block + 1, blockEnd, catalog, next, chain).outcome.table;
        assert t[..|table|] == t[..|next|][..|table|];
        forall i | |table| <= i < |t| ensures IsNewRow(t[i], block, blockEnd, catalog, table, chain) {
          if i < |next| {
            assert t[i] == t[..|next|][i] == batch.rows[i - |table|];
          } else {
            assert IsNewRow(t[i], block + 1, blockEnd, catalog, next, chain);
            PoolDataExistsConcat(t[i].poolName, t[i].block, table, batch.rows);
          }
        }
      }
    }
  }

  /** Rows a run adds come out in ascending block order. */
  lemma {:induction false} RunAscending(block: int, blockEnd: int, catalog: seq<Pool>, table: seq<Row>, chain: Chain)
    ensures var t := Run(block, blockEnd, catalog, table, chain).outcome.table;
      forall i, j :: |table| <= i < j < |t| ==> t[i].block <= t[j].block
    decreases blockEnd - block
  {
    if block < blockEnd && chain.blockTimestamp(block).Some? {
      var timestamp := chain.blockTimestamp(block).value;
      var batch := PoolBatch(block, timestamp, catalog, table, chain);
      if batch.fault.None? {
        var next := table + batch.rows;
        RunAscending(block + 1, blockEnd, catalog, next, chain);
        RunExtends(block + 1, blockEnd, catalog, next, chain);
        BatchRows(block, timestamp, catalog, table, chain);
        var t := Run(block, blockEnd, catalog, table, chain).outcome.table;
        assert t == Run(block + 1, blockEnd, catalog, next, chain).outcome.table;
        forall i | |table| <= i < |next| ensures t[i].block == block {
          assert t[i] == t[..|next|][i] == batch.rows[i - |table|];
        }
        forall i | |next| <= i < |t| ensures t[i].block > block {
          assert IsNewRow(t[i], block + 1, blockEnd, catalog, next, chain);
        }
      }
    }
  }

  lemma NoDuplicatesConcat(a: seq<Row>, c: seq<Row>)
    requires NoDuplicates(a) && NoDuplicates(c)
    requires forall r :: r in c ==> !PoolDataExists(r.poolName, r.block, a)
    ensures NoDuplicates(a + c)
  {
    forall i, j | 0 <= i < j < |a + c|
      ensures (a + c)[i].block != (a + c)[j].block || (a + c)[i].poolName != (a + c)[j].poolName
    {
      if j < |a| {
        assert (a + c)[i] == a[i] && (a + c)[j] == a[j];
      } else if i < |a| {
        assert (a + c)[i] == a[i] && (a + c)[j] == c[j - |a|];
        assert c[j - |a|] in c;
      } else {
        assert (a + c)[i] == c[i - |a|] && (a + c)[j] == c[j - |a|];
      }
    }
  }

  /** No duplicates: if the loaded table has at most one row per (block, pool)
      and the catalog's names are unique, so has the table the run ends with. */
  lemma {:induction false} RunNoDuplicates(block: int, blockEnd: int, catalog: seq<Pool>, table: seq<Row>, chain: Chain)
    requires NoDuplicates(table) && UniqueNames(catalog)
    ensures NoDuplicates(Run(block, blockEnd, catalog, table, chain).outcome.table)
    decreases blockEnd - block
  {
    if block < blockEnd && chain.blockTimestamp(block).Some? {
      var timestamp := chain.blockTimestamp(block).value;
      var batch := PoolBatch(block, timestamp, catalog, table, chain);
      if batch.fault.None? {
        BatchRows(block, timestamp, catalog, table, chain);
        BatchNoDuplicates(block, timestamp, catalog, table, chain);
        NoDuplicatesConcat(table, batch.rows);
        RunNoDuplicates(block + 1, blockEnd, catalog, table + batch.rows, chain);
      }
    }
  }

  /** Skipped pairs issue no reads: every read is at a visited block, and every
      price or supply read is for a catalog pool whose (block, pool) pair was
      not in the table the run started from. */
  lemma {:induction false} RunCalls(block: int, blockEnd: int, catalog: seq<Pool>, table: seq<Row>, chain: Chain)
    ensures forall c :: c in Run(block, blockEnd, catalog, table, chain).calls ==>
      block <= c.block < blockEnd
      && (!c.GetBlock? ==> c.pool in catalog && !PoolDataExists(c.pool.name, c.block, table))
    decreases blockEnd - block
  {
    if block < blockEnd && chain.blockTimestamp(block).Some? {
      var timestamp := chain.blockTimestamp(block).value;
      var batch := PoolBatch(block, timestamp, catalog, table, chain);
      BatchCalls(block, timestamp, catalog, table, chain);
      if batch.fault.None? {
        var next := table + batch.rows;
        RunCalls(block + 1, blockEnd, catalog, next, chain);
        var rest := Run(block + 1, blockEnd, catalog, next, chain);
        forall c | c in rest.calls && !c.GetBlock?
          ensures !PoolDataExists(c.pool.name, c.block, table)
        {
          PoolDataExistsConcat(c.pool.name, c.block, table, batch.rows);
        }
      }
    }
  }

  /** A completed run read every block header and left every (block, pool)
      pair of the range collected. */
  lemma {:induction false} RunCompletes(block: int, blockEnd: int, catalog: seq<Pool>, table: seq<Row>, chain: Chain)
    ensures var r := Run(block, blockEnd, catalog, table, chain);
      r.outcome.Completed? ==>
        (forall b :: block <= b < blockEnd ==> chain.blockTimestamp(b).Some?)
        && forall b, p :: block <= b < blockEnd && p in catalog ==> PoolDataExists(p.name, b, r.outcome.table)
    decreases blockEnd - block
  {
    if block < blockEnd && chain.blockTimestamp(block).Some? {
      var timestamp := chain.blockTimestamp(block).value;
      var batch := PoolBatch(block, timestamp, catalog, table, chain);
      if batch.fault.None? {
        var next := table + batch.rows;
        RunCompletes(block + 1, blockEnd, catalog, next, chain);
        RunExtends(block + 1, blockEnd, catalog, next, chain);
        BatchCompletes(block, timestamp, catalog, table, chain);
        var t := Run(block, blockEnd, catalog, table, chain).outcome.table;
        assert t == next + t[|next|..];
        forall p | p in catalog ensures PoolDataExists(p.name, block, t) {
          PoolDataExistsConcat(p.name, block, next, t[|next|..]);
        }
      }
    }
  }

  /** From a table holding nothing of the visited blocks (the empty loaded
      table in particular) no pair is skipped: a completed run adds one row per
      pool per block. */
  lemma {:induction false} RunCountFresh(block: int, blockEnd: int, catalog: seq<Pool>, table: seq<Row>, chain: Chain)
    requires block <= blockEnd
    requires forall r :: r in table ==> !(block <= r.block < blockEnd)
    ensures var t := Run(block, blockEnd, catalog, table, chain).outcome;
      t.Completed? ==> |t.table| == |table| + (blockEnd - block) * |catalog|
    decreases blockEnd - block
  {
    if block < blockEnd && chain.blockTimestamp(block).Some? {
      var timestamp := chain.blockTimestamp(block).value;
      var batch := PoolBatch(block, timestamp, catalog, table, chain);
      if batch.fault.None? {
        var next := table + batch.rows;
        forall i | 0 <= i < |table| ensures table[i].block != block {
          assert table[i] in table;
        }
        BatchCount(block, timestamp, catalog, table, chain);
        BatchRows(block, timestamp, catalog, table, chain);
        RunCountFresh(block + 1, blockEnd, catalog, next, chain);
        assert (blockEnd - block) * |catalog| == |catalog| + (blockEnd - (block + 1)) * |catalog|;
      }
    }
  }

  /** When the loaded table is empty, no pair is skipped. */
  lemma EmptyTableSkipsNothing(blockStart: int, blockEnd: int, catalog: seq<Pool>, chain: Chain)
    requires blockStart <= blockEnd
    ensures var t := Run(blockStart, blockEnd, catalog, [], chain).outcome;
      t.Completed? ==> |t.table| == (blockEnd - blockStart) * |catalog|
  {
    RunCountFresh(blockStart, blockEnd, catalog, [], chain);
  }

  /** A run that raises does so at a block of its range, and the failing read
      is the last read it issued: nothing is read after the fault. */
  lemma {:induction false} RunFaultIsLast(block: int, blockEnd: int, catalog: seq<Pool>, table: seq<Row>, chain: Chain)
    ensures var r := Run(block, blockEnd, catalog, table, chain);
      r.outcome.Aborted? ==>
        block <= r.outcome.fault.block < blockEnd
        && |r.calls| > 0 && r.calls[|r.calls| - 1] == r.outcome.fault
    decreases blockEnd - block
  {
    if block < blockEnd && chain.blockTimestamp(block).Some? {
      var timestamp := chain.blockTimestamp(block).value;
      var batch := PoolBatch(block, timestamp, catalog, table, chain);
      BatchCalls(block, timestamp, catalog, table, chain);
      if batch.fault.Some? {
        assert batch.calls[|batch.calls| - 1] in batch.calls;
      } else {
        var next := table + batch.rows;
        RunFaultIsLast(block + 1, blockEnd, catalog, next, chain);
        var rest := Run(block + 1, blockEnd, catalog, next, chain);
        var r := Run(block, blockEnd, catalog, table, chain);
        assert r.calls == [GetBlock(block)] + batch.calls + rest.calls;
        if rest.outcome.Aborted? {
          assert r.calls[|r.calls| - 1] == rest.calls[|rest.calls| - 1];
        }
      }
    }
  }

  /** Crash behaviour: a run that raises during block k keeps exactly what a
      run over [block, k) would have completed with (the rows of block k read
      so far are lost), and saves it only when it is non-empty. */
  lemma {:induction false} RunAborted(block: int, blockEnd: int, catalog: seq<Pool>, table: seq<Row>, chain: Chain)
    ensures var r := Run(block, blockEnd, catalog, table, chain);
      r.outcome.Aborted? ==>
        (r.outcome.saved <==> |r.outcome.table| > 0)
        && Persisted(r.outcome) == (if |r.outcome.table| > 0 then Some(r.outcome.table) else None)
        && Run(block, r.outcome.fault.block, catalog, table, chain).outcome == Completed(r.outcome.table)
    decreases blockEnd - block
  {
    if block < blockEnd && chain.blockTimestamp(block).Some? {
      var timestamp := chain.blockTimestamp(block).value;
      var batch := PoolBatch(block, timestamp, catalog, table, chain);
      if batch.fault.Some? {
        BatchCalls(block, timestamp, catalog, table, chain);
        assert batch.calls[|batch.calls| - 1] in batch.calls;
      } else {
        var next := table + batch.rows;
        RunAborted(block + 1, blockEnd, catalog, next, chain);
        RunFaultIsLast(block + 1, blockEnd, catalog, next, chain);
        var rest := Run(block + 1, blockEnd, catalog, next, chain);
        if rest.outcome.Aborted? {
          var k := rest.outcome.fault.block;
          assert Run(block, k, catalog, table, chain).outcome == Run(block + 1, k, catalog, next, chain).outcome;
        }
      }
    }
  }

  /** The block-header reads of [from, to), in order. */
  ghost function BlockReads(from: int, to: int): seq<Call>
    decreases to - from
  {
    if from >= to then [] else [GetBlock(from)] + BlockReads(from + 1, to)
  }

  /** A run over [block, blockEnd) that gets past `mid` without a fault is the
      run over [block, mid) followed by the run over [mid, blockEnd) on the
      table the first part completed with. */
  lemma {:induction false} RunSplit(block: int, mid: int, blockEnd: int, catalog: seq<Pool>, table: seq<Row>, chain: Chain)
    requires block <= mid <= blockEnd
    requires Run(block, mid, catalog, table, chain).outcome.Completed?
    ensures var first := Run(block, mid, catalog, table, chain);
      var second := Run(mid, blockEnd, catalog, first.outcome.table, chain);
      Run(block, blockEnd, catalog, table, chain) == RunResult(second.outcome, first.calls + second.calls)
    decreases mid - block
  {
    if block < mid {
      var timestamp := chain.blockTimestamp(block).value;
      var batch := PoolBatch(block, timestamp, catalog, table, chain);
      var next := table + batch.rows;
      RunSplit(block + 1, mid, blockEnd, catalog, next, chain);
      var first := Run(block + 1, mid, catalog, next, chain);
      var second := Run(mid, blockEnd, catalog, first.outcome.table, chain);
      AppendAssoc([GetBlock(block)] + batch.calls, first.calls, second.calls);
    }
  }

  /** When every header read succeeds and every pair is already collected, a
      run reads only the block headers and changes nothing. */
  lemma {:induction false} RunAllCollected(block: int, blockEnd: int, catalog: seq<Pool>, table: seq<Row>, chain: Chain)
    requires forall b :: block <= b < blockEnd ==> chain.blockTimestamp(b).Some?
    requires forall b, p :: block <= b < blockEnd && p in catalog ==> PoolDataExists(p.name, b, table)
    ensures Run(block, blockEnd, catalog, table, chain) == RunResult(Completed(table), BlockReads(block, blockEnd))
    decreases blockEnd - block
  {
    if block < blockEnd {
      var timestamp := chain.blockTimestamp(block).value;
      BatchAllCollected(block, timestamp, catalog, table, chain);
      assert table + [] == table;
      RunAllCollected(block + 1, blockEnd, catalog, table, chain);
    }
  }

  /** Re-running a completed range on its own output issues no price or supply
      read and leaves the table as it is. */
  lemma RerunChangesNothing(block: int, blockEnd: int, catalog: seq<Pool>, table: seq<Row>, chain: Chain)
    requires Run(block, blockEnd, catalog, table, chain).outcome.Completed?
    ensures var t := Run(block, blockEnd, catalog, table, chain).outcome.table;
      Run(block, blockEnd, catalog, t, chain) == RunResult(Completed(t), BlockReads(block, blockEnd))
  {
    RunCompletes(block, blockEnd, catalog, table, chain);
    RunAllCollected(block, blockEnd, catalog, Run(block, blockEnd, catalog, table, chain).outcome.table, chain);
  }

  /** Two chains that report the same thing for every block of [from, to). */
  ghost predicate ChainsAgree(chain: Chain, other: Chain, from: int, to: int)
  {
    (forall b :: from <= b < to ==> chain.blockTimestamp(b) == other.blockTimestamp(b))
    && (forall b, a :: from <= b < to ==> chain.virtualPrice(b, a) == other.virtualPrice(b, a))
    && (forall b, a :: from <= b < to ==> chain.totalSupply(b, a) == other.totalSupply(b, a))
  }

  /** A run depends on the chain only through the blocks it visits. */
  lemma {:induction false} RunSameReads(block: int, blockEnd: int, catalog: seq<Pool>, table: seq<Row>, chain: Chain, other: Chain)
    requires ChainsAgree(chain, other, block, blockEnd)
    ensures Run(block, blockEnd, catalog, table, chain) == Run(block, blockEnd, catalog, table, other)
    decreases blockEnd - block
  {
    if block < blockEnd {
      assert chain.blockTimestamp(block) == other.blockTimestamp(block);
      if chain.blockTimestamp(block).Some? {
        var timestamp := chain.blockTimestamp(block).value;
        BatchSameReads(block, timestamp, catalog, table, chain, other);
        var batch := PoolBatch(block, timestamp, catalog, table, chain);
        RunSameReads(block + 1, blockEnd, catalog, table + batch.rows, chain, other);
      }
    }
  }

  /** Idempotent resume: after a run raised at block k, re-running the same
      range on the table it saved, against a chain that reports the same as
      before for the blocks already done, ends exactly as an uninterrupted run
      against that chain would; for the blocks before k it reads only the
      headers, never a price or a supply. */
  lemma ResumeAfterFault(blockStart: int, blockEnd: int, catalog: seq<Pool>, loaded: seq<Row>, chain: Chain, retry: Chain)
    requires Run(blockStart, blockEnd, catalog, loaded, chain).outcome.Aborted?
    requires ChainsAgree(chain, retry, blockStart, Run(blockStart, blockEnd, catalog, loaded, chain).outcome.fault.block)
    ensures var aborted := Run(blockStart, blockEnd, catalog, loaded, chain).outcome;
      var resumed := Run(blockStart, blockEnd, catalog, aborted.table, retry);
      resumed.outcome == Run(blockStart, blockEnd, catalog, loaded, retry).outcome
      && resumed.calls == BlockReads(blockStart, aborted.fault.block)
           + Run(aborted.fault.block, blockEnd, catalog, aborted.table, retry).calls
  {
    var aborted := Run(blockStart, blockEnd, catalog, loaded, chain).outcome;
    var k := aborted.fault.block;
    var t := aborted.table;
    RunAborted(blockStart, blockEnd, catalog, loaded, chain);
    RunFaultIsLast(blockStart, blockEnd, catalog, loaded, chain);
    RunSameReads(blockStart, k, catalog, loaded, chain, retry);
    RunSplit(blockStart, k, blockEnd, catalog, loaded, retry);
    RunCompletes(blockStart, k, catalog, loaded, chain);
    RunAllCollected(blockStart, k, catalog, t, retry);
    RunSplit(blockStart, k, blockEnd, catalog, t, retry);
  }
}
