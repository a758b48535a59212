/** The constant-product (x * y = k) liquidity pool, one per traded mint. */
module MarketMath {
  import opened Ints

  /** The value of a pool: the base reserve, the quote reserve and the invariant product
      fixed at creation. */
  datatype Pool = Pool(reserveBase: U64, reserveQuote: U64, k: U128)

  /** The invariant every pool keeps: the quote reserve is k / reserveBase rounded down.
      A pool created with an empty base reserve has k == 0. */
  predicate PoolInv(p: Pool)
  {
    if p.reserveBase == 0 then p.k == 0 else p.reserveQuote == p.k / p.reserveBase
  }

  lemma MulLeMul(a: nat, b: nat, c: nat, d: nat)
    requires a <= b && c <= d
    ensures a * c <= b * d
  {
    calc {
      a * c;
    <= { assert (b - a) * c >= 0; }
      b * c;
    <= { assert b * (d - c) >= 0; }
      b * d;
    }
  }

  /** The product of two 64-bit reserves fits in 128 bits, so computing k cannot overflow. */
  lemma ProductFitsU128(a: U64, b: U64)
    ensures a * b < U128_LIMIT
  {
    MulLeMul(a, U64_LIMIT - 1, b, U64_LIMIT - 1);
    assert (U64_LIMIT - 1) * (U64_LIMIT - 1) < U128_LIMIT;
  }

  /** Floor division characterised by its bounds. */
  lemma DivBounds(k: nat, d: nat)
    requires d > 0
    ensures d * (k / d) <= k < d * (k / d + 1)
  {
    assert k == d * (k / d) + k % d;
  }

  /** The only quotient within those bounds is the floor. */
  lemma DivUnique(k: nat, d: nat, q: nat)
    requires d > 0
    requires d * q <= k < d * (q + 1)
    ensures q == k / d
  {
    DivBounds(k, d);
    if q < k / d {
      MulLeMul(d, d, q + 1, k / d);
    } else if q > k / d {
      MulLeMul(d, d, k / d + 1, q);
    }
  }

  /** A new pool with the given reserves; k is their exact product (computed in 128 bits). */
  function NewPool(reserveBase: U64, reserveQuote: U64): (p: Pool)
    ensures p.reserveBase == reserveBase && p.reserveQuote == reserveQuote
    ensures p.k == reserveBase * reserveQuote
    ensures PoolInv(p)
  {
    ProductFitsU128(reserveBase, reserveQuote);
    if reserveBase > 0 then
      DivUnique(reserveBase * reserveQuote, reserveBase, reserveQuote);
      Pool(reserveBase, reserveQuote, reserveBase * reserveQuote)
    else
      Pool(reserveBase, reserveQuote, reserveBase * reserveQuote)
  }

  /** What the source needs of a swap so that it does not panic: the new base reserve fits in
      64 bits, and it is not zero (it is the divisor). */
  predicate SwapDefined(p: Pool, amountIn: U64)
  {
    0 < p.reserveBase + amountIn < U64_LIMIT
  }

  /** Selling amountIn of base into the pool: the new pool and the quote amount paid out.
      The u128-to-u64 narrowing of the new quote reserve is written out; the invariant makes it
      lossless, and makes the unchecked subtraction non-negative. */
  function Swap(p: Pool, amountIn: U64): (r: (Pool, U64))
    requires PoolInv(p) && SwapDefined(p, amountIn)
    ensures PoolInv(r.0)
    ensures r.0.k == p.k
    ensures r.0.reserveBase == p.reserveBase + amountIn
    ensures r.0.reserveQuote <= p.reserveQuote
    ensures r.1 == p.reserveQuote - r.0.reserveQuote
  {
    var newReserveBase: U64 := p.reserveBase + amountIn;
    NewQuoteReserve(p, newReserveBase);
    var newReserveQuote: U64 := (p.k / newReserveBase) % U64_LIMIT;
    (Pool(newReserveBase, newReserveQuote, p.k), p.reserveQuote - newReserveQuote)
  }

  /** The quote reserve a swap leaves: the u128 quotient is at most the old quote reserve, so
      narrowing it to 64 bits loses nothing, and the resulting pool keeps the invariant. */
  lemma NewQuoteReserve(p: Pool, newReserveBase: U64)
    requires PoolInv(p)
    requires 0 < newReserveBase && p.reserveBase <= newReserveBase
    ensures p.k / newReserveBase <= p.reserveQuote
    ensures (p.k / newReserveBase) % U64_LIMIT == p.k / newReserveBase
    ensures PoolInv(Pool(newReserveBase, p.k / newReserveBase, p.k))
  {
    QuotientBound(p, newReserveBase);
    var q := p.k / newReserveBase;
    ModOfSmaller(q, U64_LIMIT);
  }

  lemma ModOfSmaller(x: nat, m: nat)
    requires x < m
    ensures x % m == x
  {
  }

  /** k divided by a base reserve at least the current one is at most the current quote reserve. */
  lemma QuotientBound(p: Pool, newReserveBase: nat)
    requires PoolInv(p)
    requires 0 < newReserveBase && p.reserveBase <= newReserveBase
    ensures p.k / newReserveBase <= p.reserveQuote
  {
    if p.reserveBase > 0 {
      DivBounds(p.k, p.reserveBase);
      DivBounds(p.k, newReserveBase);
      var q := p.k / newReserveBase;
      if q > p.reserveQuote {
        MulLeMul(p.reserveBase, newReserveBase, p.reserveQuote + 1, q);
        assert false;
      }
    }
  }

  /** Every pool that keeps the invariant has reserve product at most k. */
  lemma ProductAtMostK(p: Pool)
    requires PoolInv(p)
    ensures p.reserveBase * p.reserveQuote <= p.k
  {
    if p.reserveBase > 0 {
      DivBounds(p.k, p.reserveBase);
    }
  }

  /** The invariant says exactly that the quote reserve is the largest one whose product with
      the base reserve stays within k. */
  lemma PoolInvIsLargestQuote(p: Pool)
    requires p.reserveBase > 0
    ensures PoolInv(p) <==> p.reserveBase * p.reserveQuote <= p.k < p.reserveBase * (p.reserveQuote + 1)
  {
    DivBounds(p.k, p.reserveBase);
    if p.reserveBase * p.reserveQuote <= p.k < p.reserveBase * (p.reserveQuote + 1) {
      DivUnique(p.k, p.reserveBase, p.reserveQuote);
    }
  }

  /** Price of one base unit in quote units, as an exact ratio. */
  function SpotPrice(p: Pool): (price: real)
    requires p.reserveBase > 0
    ensures price * p.reserveBase as real == p.reserveQuote as real
  {
    p.reserveQuote as real / p.reserveBase as real
  }

  /** The rounding direction of a swap: with d the new base reserve, the exact constant-product
      payout is reserveQuote - k / d, and the payout is the least whole amount at or above it.
      Flooring the pool's new quote reserve favours the trader, not the pool. */
  lemma SwapRoundsForTrader(p: Pool, amountIn: U64)
    requires PoolInv(p) && SwapDefined(p, amountIn)
    ensures var d, out := p.reserveBase + amountIn, Swap(p, amountIn).1;
      && out * d + p.k >= p.reserveQuote * d
      && (out - 1) * d + p.k < p.reserveQuote * d
  {
    var d := p.reserveBase + amountIn;
    var q := p.k / d;
    var out := Swap(p, amountIn).1;
    assert out == p.reserveQuote - q;
    DivBounds(p.k, d);
    assert out * d == p.reserveQuote * d - q * d by {
      Distribute(p.reserveQuote, q, d);
    }
    assert (out - 1) * d == p.reserveQuote * d - (q + 1) * d by {
      Distribute(p.reserveQuote, q + 1, d);
    }
  }

  lemma Distribute(a: int, b: int, c: int)
    ensures (a - b) * c == a * c - b * c
  {
  }

  /** A zero-sized swap pays nothing and leaves the pool as it was. */
  lemma SwapZero(p: Pool)
    requires PoolInv(p) && SwapDefined(p, 0)
    ensures Swap(p, 0) == (p, 0)
  {
  }

  /** The worked example: a 1,000,000 / 1,000,000 pool selling 100,000 base ends at
      1,100,000 / 909,090 and pays out 90,910. */
  lemma SwapExample()
    ensures Swap(NewPool(1_000_000, 1_000_000), 100_000)
         == (Pool(1_100_000, 909_090, 1_000_000_000_000), 90_910)
  {
  }

  /** The pool as the simulator holds it: the reserves change in place, k never does. */
  class ConstantProductPool {
    var reserveBase: U64
    var reserveQuote: U64
    var k: U128

    function Value(): Pool
      reads this
    {
      Pool(reserveBase, reserveQuote, k)
    }

    ghost predicate Valid()
      reads this
    {
      PoolInv(Value())
    }

    /** Accepts any reserves, zero included; k is their 128-bit product. */
    constructor (reserveBase: U64, reserveQuote: U64)
      ensures Value() == NewPool(reserveBase, reserveQuote)
      ensures Valid()
    {
      ProductFitsU128(reserveBase, reserveQuote);
      this.reserveBase := reserveBase;
      this.reserveQuote := reserveQuote;
      this.k := reserveBase * reserveQuote;
      new;
      assert Value() == NewPool(reserveBase, reserveQuote);
    }

    /** Sells amountIn of base for quote, updating both reserves; k is left untouched. */
    method SwapBaseForQuote(amountIn: U64) returns (amountOut: U64)
      requires Valid()
      requires SwapDefined(Value(), amountIn)
      modifies this`reserveBase, this`reserveQuote
      ensures Valid()
      ensures (Value(), amountOut) == Swap(old(Value()), amountIn)
      ensures reserveBase == old(reserveBase) + amountIn
      ensures reserveQuote <= old(reserveQuote)
      ensures amountOut == old(reserveQuote) - reserveQuote
    {
      var newReserveBase: U64 := reserveBase + amountIn;
      NewQuoteReserve(Value(), newReserveBase);
      var newReserveQuote: U64 := (k / newReserveBase) % U64_LIMIT;
      amountOut := reserveQuote - newReserveQuote;
      reserveBase := newReserveBase;
      reserveQuote := newReserveQuote;
    }

    /** The current spot price, as an exact ratio. */
    function GetSpotPrice(): (price: real)
      reads this
      requires reserveBase > 0
      ensures price == SpotPrice(Value())
    {
      reserveQuote as real / reserveBase as real
    }
  }
}
