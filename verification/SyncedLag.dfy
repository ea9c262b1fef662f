/**
 What the cache says of a stream of blocks: how far behind the highest one a block that is
 found can be.
 */
module SyncedLag {
  import opened Sequences
  import opened LruCaches
  import opened BlockHashNums

  /** The highest number of a non-empty stream. */
  ghost function Highest(h: Puts): int
    requires h != []
  {
    var last := h[|h| - 1].1;
    if |h| == 1 then last
    else
      var before := Highest(h[..|h| - 1]);
      if last > before then last else before
  }

  /** The same hash always comes with the same number. */
  ghost predicate NumbersAgree(h: Puts) {
    forall i, j :: 0 <= i < |h| && 0 <= j < |h| && h[i].0 == h[j].0 ==> h[i].1 == h[j].1
  }

  /** The highest number rises by at most one at a time, and no block is more than `d` below it. */
  ghost predicate Paced(h: Puts, d: nat) {
    forall i :: 0 < i < |h| ==> InPace(h, i, d)
  }

  ghost predicate InPace(h: Puts, i: nat, d: nat)
    requires 0 < i < |h|
  {
    Highest(h[..i]) - d <= h[i].1 <= Highest(h[..i]) + 1
  }

  lemma {:induction false} HighestBounds(h: Puts, i: nat)
    requires i < |h|
    ensures h[i].1 <= Highest(h)
    decreases |h|
  {
    if i < |h| - 1 {
      HighestBounds(h[..|h| - 1], i);
    }
  }

  lemma PrefixIsPaced(h: Puts, n: nat, d: nat)
    requires NumbersAgree(h) && Paced(h, d) && n <= |h|
    ensures NumbersAgree(h[..n]) && Paced(h[..n], d)
  {
    forall i | 0 < i < n
      ensures InPace(h[..n], i, d)
    {
      assert InPace(h, i, d);
      assert h[..n][..i] == h[..i];
    }
  }

  /** The keys from `i` on, with one more put. */
  lemma KeysGrow(h: Puts, i: nat)
    requires i < |h|
    ensures KeysFrom(h, i) == KeysFrom(h[..|h| - 1], i) + {h[|h| - 1].0}
  {
    forall x | x in KeysFrom(h[..|h| - 1], i)
      ensures x in KeysFrom(h, i)
    {
      var j :| i <= j < |h| - 1 && h[..|h| - 1][j].0 == x;
      assert h[j].0 == x;
    }
  }

  /** A number above all before it comes with a hash not seen before. */
  lemma NewHighestIsNewHash(h: Puts, i: nat)
    requires NumbersAgree(h) && 1 < |h| && i < |h| && h[|h| - 1].1 > Highest(h[..|h| - 1])
    ensures h[|h| - 1].0 !in KeysFrom(h[..|h| - 1], i)
  {
    var past := h[..|h| - 1];
    forall j | i <= j < |past|
      ensures past[j].0 != h[|h| - 1].0
    {
      HighestBounds(past, j);
      assert h[j].1 != h[|h| - 1].1;
    }
  }

  /** Every rise of the highest number brings a hash not seen before. */
  lemma {:induction false} ClimbNeedsHashes(h: Puts, i: nat, d: nat)
    requires NumbersAgree(h) && Paced(h, d) && i < |h|
    ensures Highest(h) - Highest(h[..i + 1]) <= |KeysFrom(h, i + 1)|
    decreases |h|
  {
    if i == |h| - 1 {
      assert h[..i + 1] == h;
    } else {
      var past := h[..|h| - 1];
      assert past[..i + 1] == h[..i + 1];
      PrefixIsPaced(h, |h| - 1, d);
      ClimbNeedsHashes(past, i, d);
      assert InPace(h, |h| - 1, d);
      KeysGrow(h, i + 1);
      if h[|h| - 1].1 > Highest(past) {
        NewHighestIsNewHash(h, i + 1);
      } else {
        SubsetCount(KeysFrom(past, i + 1), KeysFrom(h, i + 1));
      }
    }
  }

  /** A block is at most `d` below the highest number at the moment it is put. */
  lemma LagWhenPut(h: Puts, i: nat, d: nat)
    requires Paced(h, d) && i < |h|
    ensures Highest(h[..i + 1]) - h[i].1 <= d
  {
    if i > 0 {
      assert InPace(h, i, d);
      assert h[..i + 1][..i] == h[..i];
    }
  }

  /**
   A hash found in the cache lags the highest number by less than the threshold plus the
   depth `d` of the deepest late block, even when blocks are repeated.
   */
  lemma FoundHashLag(h: Puts, hash: H256, d: nat)
    requires NumbersAgree(h) && Paced(h, d) && Recent(SYNCED_THRESHOLD, h, hash)
    ensures 0 <= Highest(h) - h[LastPut(h, hash)].1 < SYNCED_THRESHOLD + d
  {
    var i := LastPut(h, hash);
    HighestBounds(h, i);
    ClimbNeedsHashes(h, i, d);
    LagWhenPut(h, i, d);
  }

  // ---------- the bound is reached ----------

  /** Blocks 0 to d, then another block numbered 0, then `n` more blocks. */
  ghost function LateBlock(d: nat, n: nat): (h: Puts)
    requires d + n < U64_END
    ensures |h| == d + 2 + n
    ensures forall i :: 0 <= i <= d ==> h[i] == (2 * i, i)
    ensures h[d + 1] == (1, 0)
    ensures forall i :: d + 1 < i < |h| ==> h[i] == (2 * (i - 1), i - 1)
  {
    seq(d + 2 + n, i requires 0 <= i < d + 2 + n =>
      if i <= d then (2 * i, i) else if i == d + 1 then (1, 0) else (2 * (i - 1), i - 1))
  }

  lemma {:induction false} LateBlockHighest(d: nat, n: nat, m: nat)
    requires d + n < U64_END && 0 < m <= d + 2 + n
    ensures Highest(LateBlock(d, n)[..m]) == if m <= d + 1 then m - 1 else m - 2
    decreases m
  {
    var h := LateBlock(d, n);
    assert h[..m][..m - 1] == h[..m - 1];
    if m > 1 {
      LateBlockHighest(d, n, m - 1);
    }
  }

  lemma LateBlockIsPaced(d: nat, n: nat)
    requires d + n < U64_END
    ensures NumbersAgree(LateBlock(d, n)) && Paced(LateBlock(d, n), d)
  {
    var h := LateBlock(d, n);
    assert forall i :: 0 <= i < |h| ==> h[i].1 == h[i].0 / 2;
    forall i | 0 < i < |h|
      ensures InPace(h, i, d)
    {
      LateBlockHighest(d, n, i);
    }
  }

  lemma {:induction false} LateBlockSince(d: nat, n: nat, i: nat)
    requires d + n < U64_END && d + 2 <= i <= d + 2 + n
    ensures |KeysFrom(LateBlock(d, n), i)| == d + 2 + n - i
    decreases d + 2 + n - i
  {
    var h := LateBlock(d, n);
    if i < |h| {
      LateBlockSince(d, n, i + 1);
      assert KeysFrom(h, i) == {h[i].0} + KeysFrom(h, i + 1);
      assert h[i].0 !in KeysFrom(h, i + 1);
    }
  }

  /** The bound cannot be lowered: a late block can be found although it lags by 99 plus d. */
  lemma FoundHashLagIsReached(d: nat)
    requires d + 99 < U64_END
    ensures var h := LateBlock(d, 99);
            && NumbersAgree(h) && Paced(h, d) && Recent(SYNCED_THRESHOLD, h, 1)
            && Highest(h) - h[LastPut(h, 1)].1 == SYNCED_THRESHOLD - 1 + d
  {
    var h := LateBlock(d, 99);
    LateBlockIsPaced(d, 99);
    LateBlockHighest(d, 99, d + 101);
    assert h[..d + 101] == h;
    LateBlockSince(d, 99, d + 2);
    assert LastPut(h, 1) == d + 1;
  }

  /** Blocks numbered one after the other, each with its own hash. */
  ghost predicate Consecutive(h: Puts) {
    && (forall i :: 0 <= i < |h| ==> h[i].1 == h[0].1 + i)
    && (forall i, j :: 0 <= i < j < |h| ==> h[i].0 != h[j].0)
  }

  lemma {:induction false} HighestIsLast(h: Puts)
    requires h != [] && Consecutive(h)
    ensures Highest(h) == h[|h| - 1].1
    decreases |h|
  {
    if |h| > 1 {
      HighestIsLast(h[..|h| - 1]);
    }
  }

  lemma {:induction false} DistinctTail(h: Puts, i: nat)
    requires i <= |h| && Consecutive(h)
    ensures |KeysFrom(h, i)| == |h| - i
    decreases |h| - i
  {
    if i < |h| {
      DistinctTail(h, i + 1);
      assert KeysFrom(h, i) == {h[i].0} + KeysFrom(h, i + 1);
      assert h[i].0 !in KeysFrom(h, i + 1);
    }
  }

  /** On consecutive blocks the cache finds exactly those lagging by less than the threshold. */
  lemma ConsecutiveExactly(h: Puts, i: nat)
    requires i < |h| && Consecutive(h)
    ensures Recent(SYNCED_THRESHOLD, h, h[i].0) <==> Highest(h) - h[i].1 < SYNCED_THRESHOLD
  {
    HighestIsLast(h);
    DistinctTail(h, i + 1);
    assert LastPut(h, h[i].0) == i;
  }

  /** Consecutive blocks meet the conditions of the general bound with no late block. */
  lemma ConsecutiveIsPaced(h: Puts)
    requires Consecutive(h)
    ensures NumbersAgree(h) && Paced(h, 0)
  {
    forall i | 0 < i < |h|
      ensures InPace(h, i, 0)
    {
      HighestIsLast(h[..i]);
    }
  }
}
