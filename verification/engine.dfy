/** The block builder: buffers the trades of one slot, and when the slot changes (or the
    stream ends) sorts the batch into execution order and replays it against the pools. */
module Engine {
  import opened Ints
  import opened Types
  import opened MarketMath
  import opened BatchOrder
  import opened SlotReplay

  class BlockBuilder {
    var currentSlot: U64
    var buffer: seq<InternalTrade>
    /** The pool of each mint seen so far; created on first use and never removed. */
    var pools: map<string, Pool>
    /** Running regret total (an exact real; the source accumulates an f64). */
    var totalRegretUsd: real
    var conflictedTxs: nat

    /** Every trade handed to AddTrade, in arrival order. */
    ghost var added: seq<InternalTrade>
    /** Every batch replayed so far, each as it was buffered (before sorting). */
    ghost var batches: seq<seq<InternalTrade>>

    /** The pools and metrics as one value. */
    function State(): Ledger
      reads this`pools, this`totalRegretUsd, this`conflictedTxs
    {
      Ledger(pools, totalRegretUsd, conflictedTxs)
    }

    /** The builder's invariant, over its fields. */
    ghost predicate Valid()
      reads this
    {
      Consistent(State(), currentSlot, buffer, added, batches)
    }

    constructor ()
      ensures Valid()
      ensures currentSlot == 0 && buffer == [] && pools == map[]
      ensures totalRegretUsd == 0.0 && conflictedTxs == 0
      ensures added == [] && batches == []
    {
      currentSlot := 0;
      buffer := [];
      pools := map[];
      totalRegretUsd := 0.0;
      conflictedTxs := 0;
      added := [];
      batches := [];
    }

    /** Buffers a trade. A trade of a different slot first replays the buffered batch; a trade
        reaching an empty buffer only opens its slot. */
    method AddTrade(trade: InternalTrade)
      requires Valid()
      requires buffer != [] && trade.slot != currentSlot ==> Replay(State(), SortBatch(buffer)).Some?
      modifies this
      ensures Valid()
      ensures currentSlot == trade.slot && forall t | t in buffer :: t.slot == currentSlot
      ensures added == old(added) + [trade]
      ensures old(buffer) == [] || trade.slot == old(currentSlot) ==>
        && buffer == old(buffer) + [trade]
        && batches == old(batches)
        && State() == old(State())
      ensures old(buffer) != [] && trade.slot != old(currentSlot) ==>
        && buffer == [trade]
        && batches == old(batches) + [old(buffer)]
        && State() == Replay(old(State()), SortBatch(old(buffer))).value
    {
      if buffer == [] {
        currentSlot := trade.slot;
      }
      if trade.slot != currentSlot {
        ProcessBlock();
        currentSlot := trade.slot;
      }
      buffer := buffer + [trade];
      added := added + [trade];
    }

    /** End of stream: replays whatever is buffered; on an empty buffer nothing changes. */
    method Flush()
      requires Valid()
      requires Replay(State(), SortBatch(buffer)).Some?
      modifies this
      ensures Valid()
      ensures buffer == [] && currentSlot == old(currentSlot) && added == old(added)
      ensures batches == old(batches) + (if old(buffer) == [] then [] else [old(buffer)])
      ensures State() == Replay(old(State()), SortBatch(old(buffer))).value
    {
      ProcessBlock();
    }

    /** Sorts the buffered batch into execution order, replays it trade by trade and empties
        the buffer. */
    method ProcessBlock()
      requires Valid()
      requires Replay(State(), SortBatch(buffer)).Some?
      modifies this
      ensures Valid()
      ensures buffer == [] && currentSlot == old(currentSlot) && added == old(added)
      ensures batches == old(batches) + (if old(buffer) == [] then [] else [old(buffer)])
      ensures State() == Replay(old(State()), SortBatch(old(buffer))).value
    {
      if buffer == [] {
        return;
      }
      ghost var batch := buffer;
      ghost var start := State();
      buffer := SortBatch(buffer);
      ReplayBuffer();
      ghost var l := State();
      CloseBatch(start, currentSlot, batch, added, batches, l);
      batches := batches + [batch];
      buffer := [];
      assert State() == l;
    }

    /** The replay loop over the ordered buffer, one trade after the other. */
    method ReplayBuffer()
      requires LedgerInv(State()) && Replay(State(), buffer).Some?
      modifies this`pools, this`totalRegretUsd, this`conflictedTxs
      ensures State() == Replay(old(State()), buffer).value
    {
      ghost var start := State();
      ghost var trades := buffer;
      var i := 0;
      while i < |buffer|
        invariant 0 <= i <= |trades| && trades == buffer
        invariant Replay(start, trades[..i]) == Some(State())
      {
        ReplayNext(start, trades, i, State());
        ExecuteTrade(buffer[i]);
        i := i + 1;
      }
      assert trades[..i] == trades;
    }

    /** The body of the replay loop, one trade: get or create the pool of its mint, note the
        spot price, swap against the pool, and book the regret. */
    method ExecuteTrade(trade: InternalTrade)
      requires LedgerInv(State()) && Step(State(), trade).Some?
      modifies this`pools, this`totalRegretUsd, this`conflictedTxs
      ensures State() == Step(old(State()), trade).value
    {
      ghost var before := State();
      var mint := trade.tokenMintIn;
      var pool := if mint in pools then pools[mint] else NewPool(INITIAL_RESERVE, INITIAL_RESERVE);
      var theoreticalPrice := SpotPrice(pool);
      var (after, actualAmountOut) := Swap(pool, trade.amountIn);
      pools := pools[mint := after];
      var regret := RegretOf(trade.amountIn, theoreticalPrice, actualAmountOut);
      if regret > 0.0 {
        totalRegretUsd := totalRegretUsd + regret;
        conflictedTxs := conflictedTxs + 1;
      }
      StepOutcome(before, trade, actualAmountOut, regret);
    }
  }

  /** A non-empty batch whose trades all belong to the same slot. */
  ghost predicate OneSlot(batch: seq<InternalTrade>)
  {
    batch != [] && forall t | t in batch :: t.slot == batch[0].slot
  }

  /** The buffer holds trades of the current slot only; every trade added so far is either
      buffered or in a replayed batch of a single slot; and the pools and metrics are exactly
      what replaying those batches, each in execution order, from empty pools gives. */
  ghost predicate Consistent(l: Ledger, slot: U64, buffer: seq<InternalTrade>, added: seq<InternalTrade>,
                             batches: seq<seq<InternalTrade>>)
  {
    && LedgerInv(l)
    && (forall t | t in buffer :: t.slot == slot)
    && Flatten(batches) + buffer == added
    && (forall b | b in batches :: OneSlot(b))
    && ReplayBatches(EmptyLedger(), batches) == Some(l)
  }

  /** Replaying the buffered batch and appending it to the history keeps the invariant. */
  lemma CloseBatch(start: Ledger, slot: U64, batch: seq<InternalTrade>, added: seq<InternalTrade>,
                   batches: seq<seq<InternalTrade>>, l: Ledger)
    requires Consistent(start, slot, batch, added, batches) && batch != []
    requires Replay(start, SortBatch(batch)) == Some(l)
    ensures Consistent(l, slot, [], added, batches + [batch])
  {
    assert OneSlot(batch);
    ReplayBatchesAppend(EmptyLedger(), batches, batch);
  }

  /** Over the builder's lifetime the conflict count never exceeds the number of trades
      replayed, and the regret total never goes negative. */
  lemma ConflictsBounded(b: BlockBuilder)
    requires b.Valid()
    ensures b.conflictedTxs <= |Flatten(b.batches)|
    ensures 0.0 <= b.totalRegretUsd
  {
    ReplayBatchesMetrics(EmptyLedger(), b.batches);
  }
}
