/** The replay of ordered batches against the per-mint pools, as pure functions over a ledger:
    the specification the block builder's methods are proved against. */
module SlotReplay {
  import opened Ints
  import opened Types
  import opened MarketMath
  import opened BatchOrder

  datatype Option<T> = None | Some(value: T)

  /** Both reserves of a pool created on a mint's first trade. */
  const INITIAL_RESERVE: U64 := 1_000_000_000

  /** What the block builder carries from slot to slot: one pool per mint seen so far, the
      running regret total (an exact real here) and the number of conflicted trades. */
  datatype Ledger = Ledger(pools: map<string, Pool>, totalRegret: real, conflictedTxs: nat)

  /** Every pool keeps its invariant, and none has an empty base reserve (each starts at
      INITIAL_RESERVE and swaps only add to it). */
  predicate LedgerInv(l: Ledger)
  {
    forall m | m in l.pools :: PoolInv(l.pools[m]) && l.pools[m].reserveBase > 0
  }

  /** The ledger a new block builder starts with. */
  function EmptyLedger(): (l: Ledger)
    ensures LedgerInv(l) && l.pools == map[]
    ensures l.totalRegret == 0.0 && l.conflictedTxs == 0
  {
    Ledger(map[], 0.0, 0)
  }

  /** The pool a trade on mint runs against: the existing one, else a fresh symmetric pool. */
  function PoolFor(pools: map<string, Pool>, mint: string): Pool
  {
    if mint in pools then pools[mint] else NewPool(INITIAL_RESERVE, INITIAL_RESERVE)
  }

  /** What amountIn would have fetched at theoreticalPrice, less what it did fetch. */
  function RegretOf(amountIn: U64, theoreticalPrice: real, realizedAmountOut: U64): real
  {
    amountIn as real * theoreticalPrice - realizedAmountOut as real
  }

  /** The regret of a fill measured against the pool's spot price before the trade. */
  function Regret(before: Pool, amountIn: U64, amountOut: U64): real
    requires before.reserveBase > 0
  {
    RegretOf(amountIn, SpotPrice(before), amountOut)
  }

  /** The bookkeeping rule for one trade's regret. */
  function RecordRegret(l: Ledger, regret: real): (r: Ledger)
    ensures r.pools == l.pools
    ensures r.conflictedTxs == l.conflictedTxs + 1 <==> regret > 0.0
    ensures r.conflictedTxs == l.conflictedTxs <==> regret <= 0.0
    ensures r.totalRegret > l.totalRegret <==> regret > 0.0
    ensures r.totalRegret == l.totalRegret <==> regret <= 0.0
    ensures regret > 0.0 ==> r.totalRegret - l.totalRegret == regret
  {
    if regret > 0.0 then Ledger(l.pools, l.totalRegret + regret, l.conflictedTxs + 1) else l
  }

  /** One trade of an ordered batch: fetch or create the pool of its mint, swap its amount in,
      book the regret. None where the source's arithmetic overflows. */
  function Step(l: Ledger, t: InternalTrade): (r: Option<Ledger>)
    requires LedgerInv(l)
    ensures r.Some? <==> PoolFor(l.pools, t.tokenMintIn).reserveBase + t.amountIn < U64_LIMIT
    ensures r.Some? ==> LedgerInv(r.value)
    ensures r.Some? ==> r.value.pools.Keys == l.pools.Keys + {t.tokenMintIn}
    ensures r.Some? ==> forall m | m in l.pools && m != t.tokenMintIn :: r.value.pools[m] == l.pools[m]
    ensures r.Some? ==> l.totalRegret <= r.value.totalRegret
    ensures r.Some? ==> l.conflictedTxs <= r.value.conflictedTxs <= l.conflictedTxs + 1
  {
    var before := PoolFor(l.pools, t.tokenMintIn);
    if !SwapDefined(before, t.amountIn) then None
    else
      var (after, amountOut) := Swap(before, t.amountIn);
      var swapped := Ledger(l.pools[t.tokenMintIn := after], l.totalRegret, l.conflictedTxs);
      Some(RecordRegret(swapped, Regret(before, t.amountIn, amountOut)))
  }

  /** Step's result spelled out from the swap's outcome and the regret it books. */
  lemma StepOutcome(l: Ledger, t: InternalTrade, amountOut: U64, regret: real)
    requires LedgerInv(l) && Step(l, t).Some?
    requires amountOut == Swap(PoolFor(l.pools, t.tokenMintIn), t.amountIn).1
    requires regret == Regret(PoolFor(l.pools, t.tokenMintIn), t.amountIn, amountOut)
    ensures Step(l, t) == Some(RecordRegret(
      l.(pools := l.pools[t.tokenMintIn := Swap(PoolFor(l.pools, t.tokenMintIn), t.amountIn).0]), regret))
  {
  }

  /** The batch replayed trade by trade, in the order given. */
  function Replay(l: Ledger, batch: seq<InternalTrade>): (r: Option<Ledger>)
    requires LedgerInv(l)
    ensures r.Some? ==> LedgerInv(r.value)
    decreases |batch|
  {
    if batch == [] then Some(l)
    else
      match Replay(l, batch[..|batch| - 1])
      case None => None
      case Some(mid) => Step(mid, batch[|batch| - 1])
  }

  /** Replaying one more trade is replaying the batch, then that trade. */
  lemma ReplayAppend(l: Ledger, batch: seq<InternalTrade>, t: InternalTrade)
    requires LedgerInv(l)
    ensures Replay(l, batch + [t])
         == match Replay(l, batch) case None => None case Some(mid) => Step(mid, t)
  {
    assert (batch + [t])[..|batch|] == batch;
  }

  /** A replay that completes also completes on every prefix, and the next trade's step too. */
  lemma {:induction false} ReplayPrefix(l: Ledger, batch: seq<InternalTrade>, i: nat)
    requires LedgerInv(l)
    requires Replay(l, batch).Some?
    requires i < |batch|
    ensures Replay(l, batch[..i]).Some?
    ensures Step(Replay(l, batch[..i]).value, batch[i]).Some?
    decreases |batch|
  {
    var n := |batch| - 1;
    assert batch[..n] + [batch[n]] == batch;
    ReplayAppend(l, batch[..n], batch[n]);
    if i < n {
      ReplayPrefix(l, batch[..n], i);
      assert batch[..n][..i] == batch[..i];
    }
  }

  /** One more trade of a replay that completes: the prefix's ledger steps to the longer prefix's. */
  lemma ReplayNext(l: Ledger, batch: seq<InternalTrade>, i: nat, mid: Ledger)
    requires LedgerInv(l) && Replay(l, batch).Some? && i < |batch|
    requires Replay(l, batch[..i]) == Some(mid)
    ensures LedgerInv(mid) && Step(mid, batch[i]).Some?
    ensures Replay(l, batch[..i + 1]) == Step(mid, batch[i])
  {
    ReplayPrefix(l, batch, i);
    ReplayAppend(l, batch[..i], batch[i]);
    assert batch[..i + 1] == batch[..i] + [batch[i]];
  }

  /** The mints a batch trades. */
  function MintsOf(batch: seq<InternalTrade>): set<string>
  {
    set t | t in batch :: t.tokenMintIn
  }

  lemma MintsOfAppend(batch: seq<InternalTrade>, t: InternalTrade)
    ensures MintsOf(batch + [t]) == MintsOf(batch) + {t.tokenMintIn}
  {
    assert forall u | u in batch + [t] :: u in batch || u == t;
  }

  /** Pools are only ever added: after a replay the pool map covers the old mints and exactly
      the batch's new ones, and a pool whose mint the batch does not trade is unchanged. */
  lemma {:induction false} ReplayPoolKeys(l: Ledger, batch: seq<InternalTrade>)
    requires LedgerInv(l)
    requires Replay(l, batch).Some?
    ensures Replay(l, batch).value.pools.Keys == l.pools.Keys + MintsOf(batch)
    ensures forall m | m in l.pools && m !in MintsOf(batch) :: Replay(l, batch).value.pools[m] == l.pools[m]
    decreases |batch|
  {
    if batch != [] {
      var n := |batch| - 1;
      var init, t := batch[..n], batch[n];
      assert Replay(l, batch) == Step(Replay(l, init).value, t);
      MintsOfAppend(init, t);
      assert batch == init + [t];
      ReplayPoolKeys(l, init);
    }
  }

  /** Regret total and conflict count never decrease, and the count grows by at most one per
      trade replayed. */
  lemma {:induction false} ReplayMetrics(l: Ledger, batch: seq<InternalTrade>)
    requires LedgerInv(l)
    requires Replay(l, batch).Some?
    ensures l.totalRegret <= Replay(l, batch).value.totalRegret
    ensures l.conflictedTxs <= Replay(l, batch).value.conflictedTxs <= l.conflictedTxs + |batch|
    decreases |batch|
  {
    if batch != [] {
      ReplayMetrics(l, batch[..|batch| - 1]);
    }
  }

  /** The amounts a batch sells into the pool of mint, in batch order. */
  function AmountsFor(batch: seq<InternalTrade>, mint: string): seq<U64>
  {
    if batch == [] then []
    else
      var t := batch[|batch| - 1];
      AmountsFor(batch[..|batch| - 1], mint) + (if t.tokenMintIn == mint then [t.amountIn] else [])
  }

  /** A pool swapped with each amount in turn; None where a swap would overflow. */
  function SwapChain(p: Pool, amounts: seq<U64>): (r: Option<Pool>)
    requires PoolInv(p) && p.reserveBase > 0
    ensures r.Some? ==> PoolInv(r.value) && r.value.reserveBase > 0 && r.value.k == p.k
    ensures r.Some? ==> p.reserveBase <= r.value.reserveBase && r.value.reserveQuote <= p.reserveQuote
    decreases |amounts|
  {
    if amounts == [] then Some(p)
    else
      match SwapChain(p, amounts[..|amounts| - 1])
      case None => None
      case Some(mid) =>
        if SwapDefined(mid, amounts[|amounts| - 1]) then Some(Swap(mid, amounts[|amounts| - 1]).0) else None
  }

  /** Exactly-once replay, pool by pool: each mint's pool ends as its starting pool swapped with
      the amounts of that mint's trades, each once, in batch order; other mints play no part. */
  lemma {:induction false} ReplayPerPool(l: Ledger, batch: seq<InternalTrade>, mint: string)
    requires LedgerInv(l)
    requires Replay(l, batch).Some?
    requires mint in Replay(l, batch).value.pools
    ensures SwapChain(PoolFor(l.pools, mint), AmountsFor(batch, mint)) == Some(Replay(l, batch).value.pools[mint])
    decreases |batch|
  {
    var start := PoolFor(l.pools, mint);
    if batch == [] {
    } else {
      var n := |batch| - 1;
      var t := batch[n];
      var init := batch[..n];
      assert batch == init + [t];
      ReplayAppend(l, init, t);
      var mid := Replay(l, init).value;
      if mint in mid.pools {
        ReplayPerPool(l, init, mint);
      } else {
        ReplayPoolKeys(l, init);
        AmountsForAbsent(init, mint);
        assert mint !in l.pools;
      }
      assert SwapChain(start, AmountsFor(init, mint)) == Some(PoolFor(mid.pools, mint));
      if t.tokenMintIn == mint {
        var amounts := AmountsFor(init, mint) + [t.amountIn];
        assert AmountsFor(batch, mint) == amounts;
        assert amounts[..|amounts| - 1] == AmountsFor(init, mint);
      } else {
        assert AmountsFor(batch, mint) == AmountsFor(init, mint);
      }
    }
  }

  lemma {:induction false} AmountsForAbsent(batch: seq<InternalTrade>, mint: string)
    requires mint !in MintsOf(batch)
    ensures AmountsFor(batch, mint) == []
    decreases |batch|
  {
    if batch != [] {
      assert MintsOf(batch[..|batch| - 1]) <= MintsOf(batch);
      assert batch[|batch| - 1] in batch;
      AmountsForAbsent(batch[..|batch| - 1], mint);
    }
  }

  /** Slots replayed in turn, each batch sorted into execution order first. */
  function ReplayBatches(l: Ledger, batches: seq<seq<InternalTrade>>): (r: Option<Ledger>)
    requires LedgerInv(l)
    ensures r.Some? ==> LedgerInv(r.value)
    decreases |batches|
  {
    if batches == [] then Some(l)
    else
      match ReplayBatches(l, batches[..|batches| - 1])
      case None => None
      case Some(mid) => Replay(mid, SortBatch(batches[|batches| - 1]))
  }

  /** All trades of a list of batches, in arrival order. */
  function Flatten(batches: seq<seq<InternalTrade>>): seq<InternalTrade>
  {
    if batches == [] then [] else Flatten(batches[..|batches| - 1]) + batches[|batches| - 1]
  }

  /** Replaying one more batch extends the run by that batch's sorted replay. */
  lemma ReplayBatchesAppend(l: Ledger, batches: seq<seq<InternalTrade>>, batch: seq<InternalTrade>)
    requires LedgerInv(l)
    requires ReplayBatches(l, batches).Some?
    ensures ReplayBatches(l, batches + [batch]) == Replay(ReplayBatches(l, batches).value, SortBatch(batch))
    ensures Flatten(batches + [batch]) == Flatten(batches) + batch
  {
    assert (batches + [batch])[..|batches|] == batches;
  }

  /** Over a whole run the conflict count never exceeds the number of trades replayed, and the
      regret total never falls below where it started. */
  lemma {:induction false} ReplayBatchesMetrics(l: Ledger, batches: seq<seq<InternalTrade>>)
    requires LedgerInv(l)
    requires ReplayBatches(l, batches).Some?
    ensures l.totalRegret <= ReplayBatches(l, batches).value.totalRegret
    ensures l.conflictedTxs <= ReplayBatches(l, batches).value.conflictedTxs <= l.conflictedTxs + |Flatten(batches)|
    decreases |batches|
  {
    if batches != [] {
      var n := |batches| - 1;
      ReplayBatchesMetrics(l, batches[..n]);
      var mid := ReplayBatches(l, batches[..n]).value;
      ReplayMetrics(mid, SortBatch(batches[n]));
      SortBatchOrders(batches[n]);
    }
  }

  /** The regret of the worked example: 100,000 base into a 1,000,000 / 1,000,000 pool fetches
      90,910 quote against 100,000 at the pre-trade price, a regret of 9,090. */
  lemma RegretExample()
    ensures Regret(NewPool(1_000_000, 1_000_000), 100_000, Swap(NewPool(1_000_000, 1_000_000), 100_000).1) == 9090.0
  {
    SwapExample();
  }

  /** Regret can be exactly zero, so the strict test matters: a one-unit sale into a fresh pool
      fetches one quote unit, what the spot price promised, and is not counted as conflicted. */
  lemma UnitTradeNoRegret(t: InternalTrade)
    requires t.amountIn == 1
    ensures Step(EmptyLedger(), t).Some?
    ensures Step(EmptyLedger(), t).value.conflictedTxs == 0
    ensures Step(EmptyLedger(), t).value.totalRegret == 0.0
  {
    var start := NewPool(INITIAL_RESERVE, INITIAL_RESERVE);
    assert start.k / (INITIAL_RESERVE + 1) == INITIAL_RESERVE - 1 by {
      DivUnique(start.k, INITIAL_RESERVE + 1, INITIAL_RESERVE - 1);
    }
    assert Swap(start, 1).1 == 1;
    assert Regret(start, 1, 1) == 0.0;
  }
}
