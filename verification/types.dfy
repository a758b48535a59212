/** The trade records that flow from the ingestor into the block builder. */
module Types {
  import opened Ints

  /** One row of the input log, as decoded. */
  datatype RawTradeRecord = RawTradeRecord(
    slot: U64,
    timestamp: U64,
    amountIn: U64,
    amountOut: U64,
    txSignature: string,
    tokenMintIn: string,
    tokenMintOut: string,
    isBundled: bool,
    txIndex: U16)

  /** The trade the engine orders and replays. */
  datatype InternalTrade = InternalTrade(
    slot: U64,
    amountIn: U64,
    isBundled: bool,
    txIndex: U16,
    txSignature: string,
    tokenMintIn: string)

  /** Conversion from a decoded row: a projection onto the six fields the engine uses. */
  function FromRaw(raw: RawTradeRecord): InternalTrade
  {
    InternalTrade(raw.slot, raw.amountIn, raw.isBundled, raw.txIndex, raw.txSignature, raw.tokenMintIn)
  }

  /** Two rows agree on everything the engine reads. */
  predicate SameKeptFields(a: RawTradeRecord, b: RawTradeRecord)
  {
    && a.slot == b.slot
    && a.amountIn == b.amountIn
    && a.isBundled == b.isBundled
    && a.txIndex == b.txIndex
    && a.txSignature == b.txSignature
    && a.tokenMintIn == b.tokenMintIn
  }

  /** Two rows convert to the same trade exactly when they agree on the kept fields:
      timestamp, amountOut and tokenMintOut are dropped and nothing else is. */
  lemma FromRawDropsOnlyUnusedFields(a: RawTradeRecord, b: RawTradeRecord)
    ensures FromRaw(a) == FromRaw(b) <==> SameKeptFields(a, b)
  {
  }

  /** Every trade is the conversion of some row, whatever its dropped fields hold;
      the conversion keeps each kept field unchanged. */
  lemma FromRawKeepsFields(t: InternalTrade, timestamp: U64, amountOut: U64, tokenMintOut: string)
    ensures FromRaw(RawTradeRecord(t.slot, timestamp, t.amountIn, amountOut, t.txSignature,
                                   t.tokenMintIn, tokenMintOut, t.isBundled, t.txIndex)) == t
  {
  }
}
