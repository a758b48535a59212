/** The execution order the block builder imposes on one slot's batch: a stable sort whose
    comparator puts bundled trades first and otherwise orders by ascending transaction index. */
module BatchOrder {
  import opened Ints
  import opened Types

  datatype Ordering = Less | Equal | Greater

  /** The comparator given to the sort. */
  function CompareTrades(a: InternalTrade, b: InternalTrade): Ordering
  {
    if a.isBundled && !b.isBundled then Less
    else if !a.isBundled && b.isBundled then Greater
    else if a.txIndex < b.txIndex then Less
    else if a.txIndex == b.txIndex then Equal
    else Greater
  }

  /** A trade's place in the execution order as one number: the bundled lane occupies the
      ranks below U16_LIMIT, the ordinary lane the ranks above. */
  function Rank(t: InternalTrade): nat
  {
    (if t.isBundled then 0 else U16_LIMIT) + t.txIndex
  }

  /** The comparator is exactly the comparison of ranks, so it is a total preorder. */
  lemma CompareIsRankOrder(a: InternalTrade, b: InternalTrade)
    ensures CompareTrades(a, b) == Less <==> Rank(a) < Rank(b)
    ensures CompareTrades(a, b) == Equal <==> Rank(a) == Rank(b)
    ensures CompareTrades(a, b) == Greater <==> Rank(a) > Rank(b)
  {
  }

  /** Equal rank means equal sort key (bundled flag and transaction index). */
  lemma RankIsKey(a: InternalTrade, b: InternalTrade)
    ensures Rank(a) == Rank(b) <==> a.isBundled == b.isBundled && a.txIndex == b.txIndex
  {
  }

  /** No trade compares greater than a later one. */
  predicate Sorted(s: seq<InternalTrade>)
  {
    forall i, j | 0 <= i < j < |s| :: CompareTrades(s[i], s[j]) != Greater
  }

  predicate RankSorted(s: seq<InternalTrade>)
  {
    forall i, j | 0 <= i < j < |s| :: Rank(s[i]) <= Rank(s[j])
  }

  /** The order stated in the simulator's own terms: every bundled trade precedes every
      ordinary one, and within each lane transaction indices do not decrease. */
  predicate InExecutionOrder(s: seq<InternalTrade>)
  {
    && (forall i, j | 0 <= i < j < |s| :: s[j].isBundled ==> s[i].isBundled)
    && (forall i, j | 0 <= i < j < |s| && s[i].isBundled == s[j].isBundled :: s[i].txIndex <= s[j].txIndex)
  }

  lemma SortedIsExecutionOrder(s: seq<InternalTrade>)
    ensures Sorted(s) <==> RankSorted(s)
    ensures Sorted(s) <==> InExecutionOrder(s)
  {
  }

  /** The trades of s with the given sort key, in their order in s. */
  function WithKey(s: seq<InternalTrade>, bundled: bool, index: int): seq<InternalTrade>
  {
    if s == [] then []
    else
      var last := s[|s| - 1];
      WithKey(s[..|s| - 1], bundled, index)
        + (if last.isBundled == bundled && last.txIndex == index then [last] else [])
  }

  lemma {:induction false} WithKeyAppend(a: seq<InternalTrade>, b: seq<InternalTrade>, bundled: bool, index: int)
    ensures WithKey(a + b, bundled, index) == WithKey(a, bundled, index) + WithKey(b, bundled, index)
    decreases |b|
  {
    if b == [] {
      assert a + b == a;
    } else {
      var n := |b| - 1;
      assert (a + b)[..|a + b| - 1] == a + b[..n];
      WithKeyAppend(a, b[..n], bundled, index);
    }
  }

  /** A key that no trade of s carries selects nothing. */
  lemma {:induction false} WithKeyAbsent(s: seq<InternalTrade>, bundled: bool, index: int)
    requires forall j | 0 <= j < |s| :: !(s[j].isBundled == bundled && s[j].txIndex == index)
    ensures WithKey(s, bundled, index) == []
  {
    if s != [] {
      WithKeyAbsent(s[..|s| - 1], bundled, index);
    }
  }

  /** One step of the sort: x goes after every trade that does not compare greater than it. */
  function Insert(x: InternalTrade, s: seq<InternalTrade>): seq<InternalTrade>
  {
    if s == [] then [x]
    else if CompareTrades(x, s[0]) == Less then [x] + s
    else [s[0]] + Insert(x, s[1..])
  }

  /** Inserting adds x and keeps everything else. */
  lemma {:induction false} InsertPermutes(x: InternalTrade, s: seq<InternalTrade>)
    ensures multiset(Insert(x, s)) == multiset(s) + multiset{x}
    ensures |Insert(x, s)| == |s| + 1
  {
    if s != [] && CompareTrades(x, s[0]) != Less {
      InsertPermutes(x, s[1..]);
      assert s == [s[0]] + s[1..];
    }
  }

  /** Inserting into a sequence in execution order keeps it in execution order; the result
      starts with x or with the old first trade. */
  lemma {:induction false} InsertSorted(x: InternalTrade, s: seq<InternalTrade>)
    requires RankSorted(s)
    ensures |Insert(x, s)| == |s| + 1
    ensures Insert(x, s)[0] == x || (s != [] && Insert(x, s)[0] == s[0])
    ensures RankSorted(Insert(x, s))
  {
    if s != [] && CompareTrades(x, s[0]) != Less {
      var t := Insert(x, s[1..]);
      InsertSorted(x, s[1..]);
      assert Rank(s[0]) <= Rank(t[0]) by {
        CompareIsRankOrder(x, s[0]);
        if s[1..] != [] {
          assert s[1..][0] == s[1];
        }
      }
      var r := [s[0]] + t;
      assert Insert(x, s) == r;
      forall i, j | 0 <= i < j < |r| ensures Rank(r[i]) <= Rank(r[j]) {
        if i == 0 && j > 1 {
          assert Rank(t[0]) <= Rank(t[j - 1]);
        }
      }
    } else if s != [] {
      CompareIsRankOrder(x, s[0]);
      var r := [x] + s;
      forall i, j | 0 <= i < j < |r| ensures Rank(r[i]) <= Rank(r[j]) {
        if i == 0 && j > 1 {
          assert Rank(s[0]) <= Rank(s[j - 1]);
        }
      }
    }
  }

  /** Inserting into a sorted sequence keeps, for every key, the trades of that key in order
      and puts x after the ones it ties with. */
  lemma {:induction false} InsertStable(x: InternalTrade, s: seq<InternalTrade>, bundled: bool, index: int)
    requires RankSorted(s)
    ensures WithKey(Insert(x, s), bundled, index)
         == WithKey(s, bundled, index) + WithKey([x], bundled, index)
  {
    if s == [] {
    } else if CompareTrades(x, s[0]) == Less {
      InsertStableFront(x, s, bundled, index);
    } else {
      InsertStable(x, s[1..], bundled, index);
      InsertStableBehind(x, s[0], s[1..], bundled, index);
      assert [s[0]] + s[1..] == s;
    }
  }

  /** x goes in front of s: s holds nothing of x's key, since all of s ranks above x. */
  lemma InsertStableFront(x: InternalTrade, s: seq<InternalTrade>, bundled: bool, index: int)
    requires RankSorted(s) && s != [] && CompareTrades(x, s[0]) == Less
    ensures WithKey(Insert(x, s), bundled, index)
         == WithKey(s, bundled, index) + WithKey([x], bundled, index)
  {
    var mine := WithKey([x], bundled, index);
    assert WithKey(Insert(x, s), bundled, index) == mine + WithKey(s, bundled, index) by {
      assert Insert(x, s) == [x] + s;
      WithKeyAppend([x], s, bundled, index);
    }
    WithKeySingle(x, bundled, index);
    if x.isBundled == bundled && x.txIndex == index {
      assert WithKey(s, bundled, index) == [] by {
        forall j | 0 <= j < |s| ensures !(s[j].isBundled == bundled && s[j].txIndex == index) {
          CompareIsRankOrder(x, s[0]);
          assert Rank(s[0]) <= Rank(s[j]);
        }
        WithKeyAbsent(s, bundled, index);
      }
    }
  }

  lemma WithKeySingle(x: InternalTrade, bundled: bool, index: int)
    ensures WithKey([x], bundled, index) == if x.isBundled == bundled && x.txIndex == index then [x] else []
  {
    assert [x][..0] == [];
  }

  /** x goes behind the head h: the claim for [h] + t follows from the claim for t. */
  lemma InsertStableBehind(x: InternalTrade, h: InternalTrade, t: seq<InternalTrade>, bundled: bool, index: int)
    requires CompareTrades(x, h) != Less
    requires WithKey(Insert(x, t), bundled, index) == WithKey(t, bundled, index) + WithKey([x], bundled, index)
    ensures WithKey(Insert(x, [h] + t), bundled, index)
         == WithKey([h] + t, bundled, index) + WithKey([x], bundled, index)
  {
    assert Insert(x, [h] + t) == [h] + Insert(x, t) by {
      assert ([h] + t)[0] == h && ([h] + t)[1..] == t;
    }
    WithKeyAppend([h], Insert(x, t), bundled, index);
    WithKeyAppend([h], t, bundled, index);
  }

  /** The batch in execution order: a stable sort by the comparator, each trade inserted
      into the sorted trades that arrived before it. */
  function SortBatch(s: seq<InternalTrade>): seq<InternalTrade>
  {
    if s == [] then [] else Insert(s[|s| - 1], SortBatch(s[..|s| - 1]))
  }

  /** Sorting permutes the batch and leaves it in execution order. */
  lemma SortBatchOrders(s: seq<InternalTrade>)
    ensures multiset(SortBatch(s)) == multiset(s) && |SortBatch(s)| == |s|
    ensures RankSorted(SortBatch(s))
    ensures Sorted(SortBatch(s)) && InExecutionOrder(SortBatch(s))
  {
    SortBatchPermutes(s);
    assert |multiset(SortBatch(s))| == |multiset(s)|;
    SortBatchRankSorted(s);
    SortedIsExecutionOrder(SortBatch(s));
  }

  lemma {:induction false} SortBatchPermutes(s: seq<InternalTrade>)
    ensures multiset(SortBatch(s)) == multiset(s)
  {
    if s != [] {
      var init, last := s[..|s| - 1], s[|s| - 1];
      var sorted := SortBatch(init);
      assert multiset(sorted) == multiset(init) by {
        SortBatchPermutes(init);
      }
      assert multiset(SortBatch(s)) == multiset(sorted) + multiset{last} by {
        InsertPermutes(last, sorted);
      }
      assert multiset(s) == multiset(init) + multiset{last} by {
        assert s == init + [last];
      }
    }
  }

  lemma {:induction false} SortBatchRankSorted(s: seq<InternalTrade>)
    ensures RankSorted(SortBatch(s))
  {
    if s != [] {
      var init := s[..|s| - 1];
      SortBatchRankSorted(init);
      InsertSorted(s[|s| - 1], SortBatch(init));
    }
  }

  /** Stability: for every sort key, the trades carrying it keep their original relative order. */
  lemma {:induction false} SortBatchStable(s: seq<InternalTrade>, bundled: bool, index: int)
    ensures WithKey(SortBatch(s), bundled, index) == WithKey(s, bundled, index)
  {
    if s != [] {
      var init, last := s[..|s| - 1], s[|s| - 1];
      SortBatchStable(init, bundled, index);
      SortBatchOrders(init);
      InsertStable(last, SortBatch(init), bundled, index);
      WithKeyAppend(init, [last], bundled, index);
      assert init + [last] == s;
    }
  }

  lemma {:induction false} InsertAtEnd(x: InternalTrade, s: seq<InternalTrade>)
    requires forall y | y in s :: Rank(y) <= Rank(x)
    ensures Insert(x, s) == s + [x]
  {
    if s != [] {
      assert s[0] in s;
      InsertAtEnd(x, s[1..]);
      assert [s[0]] + (s[1..] + [x]) == s + [x];
    }
  }

  /** A batch already in execution order is left as it is; hence sorting twice is sorting once. */
  lemma {:induction false} SortBatchKeepsSorted(s: seq<InternalTrade>)
    requires RankSorted(s)
    ensures SortBatch(s) == s
  {
    if s != [] {
      var init, last := s[..|s| - 1], s[|s| - 1];
      SortBatchKeepsSorted(init);
      InsertAtEnd(last, init);
      assert init + [last] == s;
    }
  }

  lemma SortBatchIdempotent(s: seq<InternalTrade>)
    ensures SortBatch(SortBatch(s)) == SortBatch(s)
  {
    SortBatchOrders(s);
    SortBatchKeepsSorted(SortBatch(s));
  }

  /** Two sequences in execution order that agree on every key's subsequence are equal. */
  lemma {:induction false} SortedUnique(r1: seq<InternalTrade>, r2: seq<InternalTrade>)
    requires RankSorted(r1) && RankSorted(r2)
    requires forall b: bool, i: int :: WithKey(r1, b, i) == WithKey(r2, b, i)
    ensures r1 == r2
    decreases |r1| + |r2|
  {
    if r1 == [] && r2 == [] {
    } else if r2 == [] || (r1 != [] && Rank(r1[|r1| - 1]) >= Rank(r2[|r2| - 1])) {
      SortedUniqueStep(r1, r2);
    } else {
      SortedUniqueStep(r2, r1);
    }
  }

  lemma {:induction false} SortedUniqueStep(r1: seq<InternalTrade>, r2: seq<InternalTrade>)
    requires RankSorted(r1) && RankSorted(r2)
    requires forall b: bool, i: int :: WithKey(r1, b, i) == WithKey(r2, b, i)
    requires r1 != []
    requires r2 != [] ==> Rank(r1[|r1| - 1]) >= Rank(r2[|r2| - 1])
    ensures r1 == r2
    decreases |r1| + |r2|, 0
  {
    SameLast(r1, r2);
    var init1, init2 := r1[..|r1| - 1], r2[..|r2| - 1];
    DropCommonLastAll(r1, r2, init1, init2);
    SortedUnique(init1, init2);
    SplitLast(r1);
    SplitLast(r2);
  }

  lemma SplitLast(r: seq<InternalTrade>)
    requires r != []
    ensures r == r[..|r| - 1] + [r[|r| - 1]]
  {
  }

  /** Of two sequences with equal key subsequences, r2 in execution order and ending no higher
      than r1, both end with the same trade. */
  lemma SameLast(r1: seq<InternalTrade>, r2: seq<InternalTrade>)
    requires RankSorted(r2)
    requires r1 != []
    requires WithKey(r1, r1[|r1| - 1].isBundled, r1[|r1| - 1].txIndex)
          == WithKey(r2, r1[|r1| - 1].isBundled, r1[|r1| - 1].txIndex)
    requires r2 != [] ==> Rank(r1[|r1| - 1]) >= Rank(r2[|r2| - 1])
    ensures r2 != [] && r1[|r1| - 1] == r2[|r2| - 1]
  {
    var x := r1[|r1| - 1];
    // The last trade of r1 is the last of its key in r1, so r2 has a trade of that key.
    var w := WithKey(r2, x.isBundled, x.txIndex);
    assert w == WithKey(r1[..|r1| - 1], x.isBundled, x.txIndex) + [x];
    assert r2 != [] by {
      assert |w| > 0;
    }
    var y := r2[|r2| - 1];
    LastHasKey(r2, x);
    assert w == WithKey(r2[..|r2| - 1], x.isBundled, x.txIndex) + [y];
  }

  /** When r2 in execution order ends no higher than x and has a trade of x's key, its last
      trade has x's key. */
  lemma LastHasKey(r2: seq<InternalTrade>, x: InternalTrade)
    requires RankSorted(r2) && r2 != []
    requires Rank(x) >= Rank(r2[|r2| - 1])
    requires WithKey(r2, x.isBundled, x.txIndex) != []
    ensures r2[|r2| - 1].isBundled == x.isBundled && r2[|r2| - 1].txIndex == x.txIndex
  {
    var y := r2[|r2| - 1];
    if !(y.isBundled == x.isBundled && y.txIndex == x.txIndex) {
      // Then every trade of r2 ranks below x, so r2 has none of x's key.
      forall j | 0 <= j < |r2| ensures !(r2[j].isBundled == x.isBundled && r2[j].txIndex == x.txIndex) {
        assert Rank(r2[j]) <= Rank(y);
      }
      WithKeyAbsent(r2, x.isBundled, x.txIndex);
      assert false;
    }
  }

  /** Removing the same last trade from two sequences with equal key subsequences keeps them equal. */
  lemma DropCommonLast(r1: seq<InternalTrade>, r2: seq<InternalTrade>, b: bool, i: int)
    requires r1 != [] && r2 != [] && r1[|r1| - 1] == r2[|r2| - 1]
    requires WithKey(r1, b, i) == WithKey(r2, b, i)
    ensures WithKey(r1[..|r1| - 1], b, i) == WithKey(r2[..|r2| - 1], b, i)
  {
    var x := r1[|r1| - 1];
    var tail := if x.isBundled == b && x.txIndex == i then [x] else [];
    var v := WithKey(r1, b, i);
    assert v == WithKey(r1[..|r1| - 1], b, i) + tail;
    assert v == WithKey(r2[..|r2| - 1], b, i) + tail;
    assert WithKey(r1[..|r1| - 1], b, i) == v[..|v| - |tail|];
  }

  lemma DropCommonLastAll(r1: seq<InternalTrade>, r2: seq<InternalTrade>,
                          init1: seq<InternalTrade>, init2: seq<InternalTrade>)
    requires r1 != [] && r2 != [] && r1[|r1| - 1] == r2[|r2| - 1]
    requires init1 == r1[..|r1| - 1] && init2 == r2[..|r2| - 1]
    requires forall b: bool, i: int :: WithKey(r1, b, i) == WithKey(r2, b, i)
    ensures forall b: bool, i: int :: WithKey(init1, b, i) == WithKey(init2, b, i)
  {
    forall b: bool, i: int ensures WithKey(init1, b, i) == WithKey(init2, b, i) {
      DropCommonLast(r1, r2, b, i);
    }
  }

  /** SortBatch is the only stable sort by the comparator: any ordering of the batch that is
      sorted and keeps each key's trades in their original order is exactly SortBatch. */
  lemma StableSortIsUnique(s: seq<InternalTrade>, r: seq<InternalTrade>)
    requires Sorted(r)
    requires forall b: bool, i: int :: WithKey(r, b, i) == WithKey(s, b, i)
    ensures r == SortBatch(s)
  {
    SortedIsExecutionOrder(r);
    forall b: bool, i: int ensures WithKey(r, b, i) == WithKey(SortBatch(s), b, i) {
      SortBatchStable(s, b, i);
    }
    SortBatchOrders(s);
    SortedUnique(r, SortBatch(s));
  }

  /** A bundled trade submitted after an ordinary one still executes first, whatever their
      transaction indices. */
  lemma BundledJumpsQueue(ordinary: InternalTrade, bundled: InternalTrade)
    requires !ordinary.isBundled && bundled.isBundled
    ensures SortBatch([ordinary, bundled]) == [bundled, ordinary]
  {
    assert [ordinary, bundled][..1] == [ordinary];
    assert SortBatch([ordinary]) == [ordinary] by {
      assert [ordinary][..0] == [];
    }
  }
}
