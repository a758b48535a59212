# chronos-solana-mev: the block builder and its constant-product pools, in Dafny

The simulator reads a stream of trades and groups them into slots. For each slot it puts the
batch into execution order: bundled transactions first, then the rest by ascending transaction
index. It then replays the batch against one constant-product (x * y = k) liquidity pool per
traded mint. Each trade's regret is the amount its sale would have fetched at the pool's spot
price before it executed, less what it actually fetched. The simulator counts the trades with
positive regret as "conflicted" and sums their regret.

This project models that core:

- `ints.dfy` (module `Ints`): the source's `u16`, `u64` and `u128` as subset types of `int`.
- `types.dfy` (module `Types`): `RawTradeRecord`, `InternalTrade` and the `From` conversion
  between them.
- `market_math.dfy` (module `MarketMath`):
  - the pool as a value, `Pool`, with its swap as the function `Swap`;
  - the invariant `PoolInv`: the quote reserve is `k / reserveBase` rounded down;
  - the pool as the simulator's mutable object, the class `ConstantProductPool`, whose
    `SwapBaseForQuote` updates both reserves in place and is proved against `Swap`.
- `batch_order.dfy` (module `BatchOrder`):
  - the sort comparator, and the stable sort of a batch as an insertion sort `SortBatch`;
  - proofs that `SortBatch` permutes the batch, leaves it in execution order and keeps each
    key's trades in their arrival order;
  - a proof that these properties determine the result, so any stable sort by the comparator
    agrees with `SortBatch`.
- `slot_replay.dfy` (module `SlotReplay`): the replay as pure functions over a `Ledger`, which
  holds the pool map, the regret total and the conflict count.
  - `Step` is one trade and `Replay` one ordered batch.
  - `ReplayBatches` is a whole run of slots from empty pools.
  - Lemmas cover exactly-once replay per pool, pools that are never removed, and the monotone,
    bounded metrics.
- `engine.dfy` (module `Engine`): the class `BlockBuilder`, with the source's fields and its
  operations `AddTrade`, `Flush` and `ProcessBlock`.
  - `ProcessBlock` empties the buffer after a replay loop, `ReplayBuffer`, whose body is
    `ExecuteTrade`.
  - Each method is proved against the ledger functions.
  - The ghost fields `added` and `batches` record every trade received and every batch
    replayed. The invariant `Valid` says the buffer holds one slot's trades, and every trade
    received is either buffered or in exactly one replayed batch. It also says the pools and
    metrics are exactly `ReplayBatches` of the replayed batches.

The source panics when a `u64` addition overflows or the swap divides by zero. Those operations
carry that as a precondition (`SwapDefined`), or as `None` from the ledger functions. The
engine methods require the replay they perform to be defined.

The swap's two unchecked steps are safe under the pool invariant:

- The narrowing of the new quote reserve from `u128` to `u64` is written out as
  `% U64_LIMIT` and proved lossless.
- The subtraction `reserve_quote - new_reserve_quote` is proved never to go negative.

The source has no guard for either step, and the model adds none.

Three facts about the code that the model keeps as they are:

- Rounding direction: flooring the new quote reserve (src/market_math.rs:30) rounds the payout
  **up** from the exact constant-product payout, so rounding favours the trader.
  `SwapRoundsForTrader` states this.
- `new` accepts zero reserves unchecked, and so does the model.
- The swap has no underflow guard; the model proves underflow unreachable instead of adding one.

## Model

| member | source | states |
|---|---|---|
| Types.FromRawDropsOnlyUnusedFields | src/types.rs:27-37 | two raw records convert to the same trade exactly when they agree on slot, amount in, bundled flag, index, signature and input mint; timestamp, amount out and output mint are dropped |
| Types.FromRawKeepsFields | src/types.rs:27-37 | the conversion copies each kept field unchanged, whatever the dropped fields hold |
| MarketMath.ProductFitsU128 | src/market_math.rs:13 | the product of two u64 reserves is below 2^128, so computing k in 128 bits cannot overflow |
| MarketMath.NewPool | src/market_math.rs:12-19 | a new pool has the given reserves and k equal to their exact product, and satisfies the pool invariant (zero reserves included) |
| MarketMath.Swap | src/market_math.rs:24-40 | a swap keeps the invariant and k, raises the base reserve by exactly amountIn, never raises the quote reserve, and pays out exactly the drop in the quote reserve (so the subtraction never underflows) |
| MarketMath.NewQuoteReserve | src/market_math.rs:30 | under the invariant, k divided by the grown base reserve is at most the old quote reserve, so the u128-to-u64 cast loses nothing |
| MarketMath.QuotientBound | src/market_math.rs:30-33 | a larger divisor than the current base reserve never yields more than the current quote reserve |
| MarketMath.ProductAtMostK | src/market_math.rs:24-40 | every pool keeping the invariant has reserveBase * reserveQuote <= k |
| MarketMath.PoolInvIsLargestQuote | src/market_math.rs:30 | for a positive base reserve, the invariant holds exactly when the quote reserve is the largest whose product with the base stays within k |
| MarketMath.SwapRoundsForTrader | src/market_math.rs:26-33 | the payout is the least whole amount at or above the exact constant-product payout reserveQuote - k / (base + amountIn): flooring favours the trader |
| MarketMath.SwapZero | src/market_math.rs:24-40 | a swap of 0 pays 0 and leaves the pool unchanged |
| MarketMath.SwapExample | src/market_math.rs:23-40 | a 1,000,000 / 1,000,000 pool selling 100,000 ends at 1,100,000 / 909,090 and pays 90,910 |
| MarketMath.SpotPrice | src/market_math.rs:43-45 | the spot price is the ratio whose product with the base reserve is the quote reserve |
| MarketMath.ConstantProductPool.constructor | src/market_math.rs:12-19 | the object's value is NewPool of the given reserves, so it satisfies the invariant |
| MarketMath.ConstantProductPool.SwapBaseForQuote | src/market_math.rs:24-40 | updating only the two reserves in place, the new value and the payout are what Swap gives, the invariant is kept, k is untouched |
| MarketMath.ConstantProductPool.GetSpotPrice | src/market_math.rs:43-45 | reading the object gives the spot price of its value |
| BatchOrder.CompareIsRankOrder | src/engine.rs:51-55 | the comparator orders trades exactly by one number (bundled lane below the ordinary lane, then index), so it is a total preorder |
| BatchOrder.RankIsKey | src/engine.rs:51-55 | the comparator ties two trades exactly when they have the same bundled flag and index |
| BatchOrder.SortedIsExecutionOrder | src/engine.rs:49-55 | sorted by the comparator means every bundled trade precedes every ordinary one and indices do not decrease within a lane |
| BatchOrder.SortBatchPermutes | src/engine.rs:51-55 | the sort only reorders: the sorted batch is a permutation of the buffer |
| BatchOrder.SortBatchRankSorted | src/engine.rs:51-55 | the sorted batch is in comparator order |
| BatchOrder.SortBatchOrders | src/engine.rs:51-55 | the sorted batch is a permutation of the buffer, of the same length, sorted and in execution order |
| BatchOrder.SortBatchStable | src/engine.rs:51-55 | for every key, the trades carrying it appear in the sorted batch in their arrival order (stability) |
| BatchOrder.SortBatchKeepsSorted | src/engine.rs:51-55 | a batch already in order is left unchanged |
| BatchOrder.SortBatchIdempotent | src/engine.rs:51-55 | sorting twice is sorting once |
| BatchOrder.SortedUnique | src/engine.rs:51-55 | two ordered sequences with the same trades of every key, in the same order, are equal |
| BatchOrder.StableSortIsUnique | src/engine.rs:51-55 | any sequence that is sorted and keeps each key's trades in their arrival order is exactly SortBatch of the buffer |
| BatchOrder.BundledJumpsQueue | src/engine.rs:52-53 | a bundled trade that arrives after an ordinary one executes first, whatever their transaction indices |
| SlotReplay.EmptyLedger | src/engine.rs:19-27 | a new builder has no pools, zero regret and zero conflicts, and satisfies the ledger invariant |
| SlotReplay.RecordRegret | src/engine.rs:80-83 | the conflict count rises by one, and the total by exactly the regret, if and only if the regret is positive; otherwise nothing changes |
| SlotReplay.Step | src/engine.rs:58-83 | one trade is defined exactly when its pool's base reserve plus its amount fits in u64; it then keeps every pool's invariant, adds only its own mint to the pool map, leaves every other pool unchanged, and neither metric decreases (the count by at most one) |
| SlotReplay.Replay | src/engine.rs:58-84 | a completed replay of a batch keeps every pool's invariant |
| SlotReplay.ReplayPoolKeys | src/engine.rs:61-62 | pools are never removed: after a batch the pool map holds the old mints plus exactly the batch's mints, and pools of untraded mints are unchanged |
| SlotReplay.ReplayMetrics | src/engine.rs:80-83 | over a batch, the regret total does not decrease, and the conflict count grows by at most the number of trades |
| SlotReplay.SwapChain | src/engine.rs:69 | swapping a pool through a list of amounts keeps its invariant and k, never lowers its base reserve and never raises its quote reserve |
| SlotReplay.ReplayPerPool | src/engine.rs:58-69 | each mint's pool ends as its starting pool (or a fresh 1,000,000,000 / 1,000,000,000 pool) swapped once with each of that mint's trade amounts, in execution order |
| SlotReplay.ReplayBatches | src/engine.rs:46-92 | a run of slots replayed from empty pools keeps every pool's invariant |
| SlotReplay.ReplayBatchesMetrics | src/engine.rs:80-83 | over a run, the regret total never falls and the conflict count never exceeds the number of trades replayed |
| SlotReplay.RegretExample | src/engine.rs:64-78 | in the worked example the regret is 100,000 - 90,910 = 9,090 |
| SlotReplay.UnitTradeNoRegret | src/engine.rs:78-83 | a one-unit trade into a fresh pool has regret exactly zero and is not counted as conflicted |
| Engine.BlockBuilder.constructor | src/engine.rs:19-27 | a new builder is at slot 0 with an empty buffer, no pools and zero metrics, and satisfies the invariant |
| Engine.BlockBuilder.AddTrade | src/engine.rs:29-40 | the invariant is kept and the trade's slot becomes current. A trade reaching an empty buffer, or of the current slot, is appended and nothing else changes. A trade of another slot first replays the sorted buffer and then starts a new buffer holding only itself |
| Engine.BlockBuilder.Flush | src/engine.rs:42-44 | end of stream: the buffer is replayed in execution order and emptied; on an empty buffer nothing changes |
| Engine.BlockBuilder.ProcessBlock | src/engine.rs:46-92 | the invariant is kept, the buffer is empty on return, the pools and metrics are the replay of the sorted buffer, and the batch joins the history (an empty buffer changes nothing) |
| Engine.BlockBuilder.ReplayBuffer | src/engine.rs:58-84 | the loop over the ordered buffer leaves the pools and metrics equal to the replay of the buffer |
| Engine.BlockBuilder.ExecuteTrade | src/engine.rs:59-83 | one iteration (get or create the pool, read the spot price, swap, book the regret) leaves the pools and metrics equal to Step |
| Engine.CloseBatch | src/engine.rs:46-92 | replaying the buffered batch and appending it to the history re-establishes the builder invariant with an empty buffer |
| Engine.ConflictsBounded | src/engine.rs:80-83 | in every reachable state the conflict count is at most the number of trades replayed, and the regret total is non-negative |

## Left out

- `src/ingestor.rs` is not part of this model. It covers file reading, CSV decoding, SHA-256
  hashing and the send over a bounded channel: I/O and foreign library calls.
- `src/main.rs` is not part of this model. It covers the file check, printing and timing.
- `gen_data.py` is not part of this model. It is random test-data generation.
- Concurrency between the ingestor thread and the builder is not modelled. The builder is
  driven by direct calls.
- Floating point is not modelled.
  - The spot price and the regret are exact reals, so the model makes no claim about `f64`
    rounding, totals or NaN.
  - `total_regret_usd` is a `real`.
  - `conflictedTxs` counts the trades whose exact real regret is positive. The source tests
    the sign of an `f64` value (src/engine.rs:73-80), and rounding in
    `amount_in as f64 * (quote as f64 / base as f64)` can flip the sign of a zero or tiny
    regret, so the source's count can differ from the model's.
- MarketMath.SpotPrice: requires a positive base reserve. The source divides and gets infinity
  or NaN on an empty pool. Every pool the engine creates has a base reserve of at least
  1,000,000,000, so the engine never meets that case.
- MarketMath.ConstantProductPool.GetSpotPrice: requires a positive base reserve, for the same
  reason.
- MarketMath.ConstantProductPool.SwapBaseForQuote: requires `SwapDefined`, the no-overflow,
  non-zero-divisor condition under which the source does not panic. Release-build wrap-around
  of `reserve_base + amount_in` is not modelled.
- Engine.BlockBuilder.ProcessBlock: requires that replaying the sorted buffer does not overflow
  a base reserve, where the source would panic.
  - The same holds for Engine.BlockBuilder.Flush and Engine.BlockBuilder.AddTrade.
  - No other behaviour is lost: `SlotReplay.Step` is `None` exactly on those inputs.
- `conflicted_txs` is a `u64` in the source and an unbounded `nat` here. Overflowing it would
  take 2^64 trades.
- The engine keeps each pool as a `Pool` value in a `map<string, Pool>` field. It writes the
  swapped value back, rather than mutating a `ConstantProductPool` object reached through the
  map entry.
  - The in-place update and aliasing of a pool object are therefore modelled only by the
    `ConstantProductPool` class on its own.
  - Both use the same `NewPool`, `SpotPrice` and `Swap`.
- The library `sort_by` (a merge sort) is modelled by the stable insertion sort `SortBatch`,
  and the sorted sequence is assigned back to the buffer field.
  `BatchOrder.StableSortIsUnique` shows that every stable sort by this comparator yields the
  same sequence, so the choice of algorithm does not matter.
- `Vec::with_capacity(5000)` is not modelled: the capacity is only an allocation hint.
- `Debug`, `Clone` and `Deserialize` derivations are not modelled. String fields are
  `seq<char>` with no encoding.
