/** Whose failures stand behind which ban, and which failures stand behind nothing. */
module BanBacking {
  import opened BanChains
  import opened Handshakes
  import opened Sequences

  ghost predicate IsFailureAt(run: seq<Event>, p: nat, id: PeerId) {
    && p < |run| && IsRun(run[..p]) && Enabled(After(run[..p]), run[p])
    && IsFailure(After(run[..p]), run[p], id)
  }

  ghost predicate IsBanAt(run: seq<Event>, p: nat, id: PeerId) {
    IsFailureAt(run, p, id) && IsThresholdBan(After(run[..p]), run[p], id)
  }

  /** The later failure was counted from the count that the earlier one wrote. */
  ghost predicate Continues(run: seq<Event>, id: PeerId, earlier: Link, later: Link, n: nat) {
    IsLink(run, id, earlier, n) && IsLink(run, id, later, n + 1) && Follows(run, id, earlier, later)
  }

  // ---------- a failure has one past ----------

  /** A link's failure is a counted one, which bans exactly when it was counted from four. */
  lemma LinkFails(run: seq<Event>, id: PeerId, l: Link, n: nat)
    requires IsRun(run) && IsLink(run, id, l, n)
    ensures n <= 4 && IsFailureAt(run, l.failedAt, id)
    ensures IsBanAt(run, l.failedAt, id) <==> n == 4
    ensures WritesCountAt(run, l.failedAt, id) <==> n < 4
  {
    EnabledAt(run, l.failedAt);
    CountsStayBelowThreshold(run[..l.failedAt]);
  }

  lemma OneLinkPerFailure(run: seq<Event>, id: PeerId, l: Link, n: nat, m: Link, k: nat)
    requires IsRun(run) && IsLink(run, id, l, n) && IsLink(run, id, m, k) && l.failedAt == m.failedAt
    ensures l == m && n == k
  {
    if l.readAt < m.readAt {
      ReadsOnce(run, l.readAt, m.readAt, l.task);
    } else if m.readAt < l.readAt {
      ReadsOnce(run, m.readAt, l.readAt, l.task);
    }
  }

  /** Only one failure wrote the count that a task read. */
  lemma OneWriterPerRead(run: seq<Event>, id: PeerId, e: Link, f: Link, l: Link, n: nat)
    requires IsRun(run) && Continues(run, id, e, l, n) && Continues(run, id, f, l, n)
    ensures e == f
  {
    LinkFails(run, id, l, n + 1);
    LinkFails(run, id, e, n);
    LinkFails(run, id, f, n);
    OneLinkPerFailureIfSame(run, id, e, f, n);
  }

  lemma OneLinkPerFailureIfSame(run: seq<Event>, id: PeerId, e: Link, f: Link, n: nat)
    requires IsRun(run) && IsLink(run, id, e, n) && IsLink(run, id, f, n)
    ensures e.failedAt == f.failedAt ==> e == f
  {
    if e.failedAt == f.failedAt {
      OneLinkPerFailure(run, id, e, n, f, n);
    }
  }

  lemma ChainContinues(run: seq<Event>, id: PeerId, chain: seq<Link>, i: nat)
    requires IsChain(run, id, chain) && i + 1 < |chain|
    ensures Continues(run, id, chain[i], chain[i + 1], i)
  {
    assert Follows(run, id, chain[i + 1 - 1], chain[i + 1]);
  }

  /** Chains that share a failure share everything before it. */
  lemma {:induction false} SharedFailureSharesPast(
    run: seq<Event>, id: PeerId, c: seq<Link>, d: seq<Link>, i: nat, j: nat)
    requires IsRun(run) && IsChain(run, id, c) && IsChain(run, id, d)
    requires i < |c| && j < |d| && c[i].failedAt == d[j].failedAt
    ensures i == j && c[..i + 1] == d[..i + 1]
    decreases i
  {
    OneLinkPerFailure(run, id, c[i], i, d[j], j);
    if i > 0 {
      ChainContinues(run, id, c, i - 1);
      ChainContinues(run, id, d, i - 1);
      OneWriterPerRead(run, id, c[i - 1], d[i - 1], c[i], i - 1);
      SharedFailureSharesPast(run, id, c, d, i - 1, i - 1);
      assert c[..i + 1] == c[..i] + [c[i]] && d[..i + 1] == d[..i] + [d[i]];
    }
  }

  // ---------- bans with failures of their own ----------

  /** The chain of a threshold ban: the one chain of five that ends at it. */
  ghost predicate IsBanChain(run: seq<Event>, id: PeerId, chain: seq<Link>) {
    IsChain(run, id, chain) && |chain| == 5
  }

  ghost predicate Disjoint(c: seq<Link>, d: seq<Link>) {
    forall i, j :: 0 <= i < |c| && 0 <= j < |d| ==> c[i].failedAt != d[j].failedAt
  }

  /** Every ban has exactly one chain of five. */
  lemma BanChainIsUnique(run: seq<Event>, id: PeerId, p: nat) returns (chain: seq<Link>)
    requires IsRun(run) && IsBanAt(run, p, id)
    ensures IsBanChain(run, id, chain) && chain[4].failedAt == p
    ensures forall d: seq<Link> :: IsBanChain(run, id, d) && d[4].failedAt == p ==> d == chain
  {
    chain := BanHasFiveFailures(run, p, id);
    forall d: seq<Link> | IsBanChain(run, id, d) && d[4].failedAt == p
      ensures d == chain
    {
      SharedFailureSharesPast(run, id, chain, d, 4, 4);
      assert chain[..5] == chain && d[..5] == d;
    }
  }

  /** Two bans share no failure exactly when their chains start at different failures. */
  lemma DisjointExactly(run: seq<Event>, id: PeerId, c: seq<Link>, d: seq<Link>)
    requires IsRun(run) && IsBanChain(run, id, c) && IsBanChain(run, id, d)
    ensures Disjoint(c, d) <==> c[0] != d[0]
  {
    forall i, j | 0 <= i < 5 && 0 <= j < 5 && c[i].failedAt == d[j].failedAt
      ensures c[0] == d[0]
    {
      SharedFailureSharesPast(run, id, c, d, i, j);
      assert c[0] == c[..i + 1][0] && d[0] == d[..i + 1][0];
    }
  }

  /** Every ban of the run has five failures of its own. */
  ghost predicate BansOwnFailures(run: seq<Event>, id: PeerId) {
    forall c: seq<Link>, d: seq<Link> :: IsBanChain(run, id, c) && IsBanChain(run, id, d) && c != d ==> Disjoint(c, d)
  }

  ghost predicate LeadsToBan(run: seq<Event>, id: PeerId, l: Link) {
    exists chain: seq<Link> :: IsBanChain(run, id, chain) && l in chain
  }

  /** No written count is read by two tasks whose failures both go into bans. */
  ghost predicate NoCountReadByTwoBans(run: seq<Event>, id: PeerId) {
    forall e, l, m, n: nat ::
      (&& Continues(run, id, e, l, n) && Continues(run, id, e, m, n)
       && LeadsToBan(run, id, l) && LeadsToBan(run, id, m)) ==> l == m
  }

  /** Where a link lies on a chain, and what comes before it there. */
  lemma PlaceOnChain(run: seq<Event>, id: PeerId, e: Link, l: Link, n: nat, chain: seq<Link>)
    requires IsRun(run) && IsChain(run, id, chain) && l in chain && Continues(run, id, e, l, n)
    ensures n + 1 < |chain| && chain[n + 1] == l && chain[n] == e
  {
    var i :| 0 <= i < |chain| && chain[i] == l;
    OneLinkPerFailure(run, id, chain[i], i, l, n + 1);
    ChainContinues(run, id, chain, n);
    OneWriterPerRead(run, id, chain[n], e, l, n);
  }

  lemma {:induction false} SameFromStart(run: seq<Event>, id: PeerId, c: seq<Link>, d: seq<Link>, k: nat)
    requires NoCountReadByTwoBans(run, id) && IsBanChain(run, id, c) && IsBanChain(run, id, d)
    requires c[0] == d[0] && k < 5
    ensures c[k] == d[k]
    decreases k
  {
    if k > 0 {
      SameFromStart(run, id, c, d, k - 1);
      ChainContinues(run, id, c, k - 1);
      ChainContinues(run, id, d, k - 1);
      assert LeadsToBan(run, id, c[k]) && LeadsToBan(run, id, d[k]);
    }
  }

  lemma SameStartSameBan(run: seq<Event>, id: PeerId, c: seq<Link>, d: seq<Link>)
    requires NoCountReadByTwoBans(run, id) && IsBanChain(run, id, c) && IsBanChain(run, id, d)
    requires c[0] == d[0]
    ensures c == d
  {
    forall k | 0 <= k < 5
      ensures c[k] == d[k]
    {
      SameFromStart(run, id, c, d, k);
    }
  }

  /** A count read by the tasks of two bans makes their chains share the failure that wrote it. */
  lemma TwoReadersShare(
    run: seq<Event>, id: PeerId, e: Link, l: Link, m: Link, n: nat, c: seq<Link>, d: seq<Link>)
    requires IsRun(run) && Continues(run, id, e, l, n) && Continues(run, id, e, m, n)
    requires IsChain(run, id, c) && l in c && IsChain(run, id, d) && m in d
    requires c == d || Disjoint(c, d)
    ensures l == m
  {
    PlaceOnChain(run, id, e, l, n, c);
    PlaceOnChain(run, id, e, m, n, d);
    assert c[n].failedAt == d[n].failedAt;
  }

  /**
   Every ban has five failures of its own exactly when no count is ever read by two tasks whose
   failures both go into bans.
   */
  lemma BansOwnFailuresExactly(run: seq<Event>, id: PeerId)
    requires IsRun(run)
    ensures BansOwnFailures(run, id) <==> NoCountReadByTwoBans(run, id)
  {
    if BansOwnFailures(run, id) {
      forall e, l, m, n: nat |
          && Continues(run, id, e, l, n) && Continues(run, id, e, m, n)
          && LeadsToBan(run, id, l) && LeadsToBan(run, id, m)
        ensures l == m
      {
        var c: seq<Link> :| IsBanChain(run, id, c) && l in c;
        var d: seq<Link> :| IsBanChain(run, id, d) && m in d;
        TwoReadersShare(run, id, e, l, m, n, c, d);
      }
    } else if NoCountReadByTwoBans(run, id) {
      var c: seq<Link>, d: seq<Link> :|
        IsBanChain(run, id, c) && IsBanChain(run, id, d) && c != d && !Disjoint(c, d);
      DisjointExactly(run, id, c, d);
      SameStartSameBan(run, id, c, d);
    }
  }

  /** No written count is read by two tasks that then fail. */
  ghost predicate NoCountReadTwice(run: seq<Event>, id: PeerId) {
    forall e, l, m, n: nat :: Continues(run, id, e, l, n) && Continues(run, id, e, m, n) ==> l == m
  }

  lemma OwnWhenNoCountReadTwice(run: seq<Event>, id: PeerId)
    requires IsRun(run) && NoCountReadTwice(run, id)
    ensures BansOwnFailures(run, id)
  {
    BansOwnFailuresExactly(run, id);
  }

  // ---------- failures that are part of something ----------

  /** The failure is part of a ban or of the stored count. */
  ghost predicate IsKept(run: seq<Event>, id: PeerId, p: nat)
    requires IsRun(run)
  {
    exists chain: seq<Link>, i: nat :: 0 <= i < |chain| && chain[i].failedAt == p && HasUse(run, id, chain)
  }

  /** The chain of a ban, or the one behind the stored count. */
  ghost predicate HasUse(run: seq<Event>, id: PeerId, chain: seq<Link>)
    requires IsRun(run)
  {
    || IsBanChain(run, id, chain)
    || (IsStanding(run, id, chain) && |chain| == Stored(After(run).p2pFailures, id))
  }

  ghost predicate EveryFailureIsKept(run: seq<Event>, id: PeerId)
    requires IsRun(run)
  {
    forall p: nat :: IsFailureAt(run, p, id) ==> IsKept(run, id, p)
  }

  /** The count the failure wrote is still stored, or some task read it and then failed. */
  ghost predicate GoesOn(run: seq<Event>, id: PeerId, p: nat) {
    NoWrites(run, p + 1, |run|, id) || exists e, l, n: nat :: Continues(run, id, e, l, n) && e.failedAt == p
  }

  /** Every failure bans or goes on: no count it wrote is overwritten before a task that fails has read it. */
  ghost predicate EveryFailureGoesOn(run: seq<Event>, id: PeerId) {
    forall p: nat :: IsFailureAt(run, p, id) && !IsBanAt(run, p, id) ==> GoesOn(run, id, p)
  }

  lemma KeptGoesOn(run: seq<Event>, id: PeerId, p: nat)
    requires IsRun(run) && IsKept(run, id, p) && !IsBanAt(run, p, id)
    ensures GoesOn(run, id, p)
  {
    var chain: seq<Link>, i: nat :| 0 <= i < |chain| && chain[i].failedAt == p && HasUse(run, id, chain);
    LinkFails(run, id, chain[i], i);
    if i + 1 < |chain| {
      ChainContinues(run, id, chain, i);
    }
  }

  /** A count stays stored until it is written again. */
  lemma {:induction false} StaysStored(run: seq<Event>, id: PeerId, l: Link, n: nat)
    requires IsRun(run) && IsLink(run, id, l, n) && n < 4 && NoWrites(run, l.failedAt + 1, |run|, id)
    ensures Stored(After(run).p2pFailures, id) == n + 1
    decreases |run|
  {
    var past := Past(run);
    assert run[..|run| - 1] == past;
    OnlyWritesMoveCount(After(past), Last(run), id);
    if l.failedAt < |past| {
      assert past[..l.failedAt] == run[..l.failedAt] && past[..l.readAt] == run[..l.readAt];
      NoWritesStays(run, |past|, l.failedAt + 1, |past|, id);
      assert !WritesCountAt(run, |past|, id);
      StaysStored(past, id, l, n);
    } else {
      LinkFails(run, id, l, n);
    }
  }

  /** The chain that ends at a failure. */
  lemma ChainOfFailure(run: seq<Event>, id: PeerId, p: nat) returns (chain: seq<Link>)
    requires IsRun(run) && IsFailureAt(run, p, id)
    ensures IsChain(run, id, chain) && chain != [] && chain[|chain| - 1].failedAt == p
  {
    EnabledAt(run, p);
    assert Past(run[..p + 1]) == run[..p];
    chain := FailureChain(run[..p + 1]);
    ChainStays(run, p + 1, id, chain);
  }

  /** What the next failure of a chain is part of, the one before it is part of too. */
  lemma KeptWithNext(run: seq<Event>, id: PeerId, e: Link, l: Link, n: nat)
    requires IsRun(run) && Continues(run, id, e, l, n) && IsKept(run, id, l.failedAt)
    ensures IsKept(run, id, e.failedAt)
  {
    var chain: seq<Link>, i: nat :| i < |chain| && chain[i].failedAt == l.failedAt && HasUse(run, id, chain);
    OneLinkPerFailure(run, id, chain[i], i, l, n + 1);
    PlaceOnChain(run, id, e, l, n, chain);
  }

  /** The last failure of its chain is kept when it bans or its count is still stored. */
  lemma LastIsKept(run: seq<Event>, id: PeerId, p: nat)
    requires IsRun(run) && IsFailureAt(run, p, id)
    requires IsBanAt(run, p, id) || NoWrites(run, p + 1, |run|, id)
    ensures IsKept(run, id, p)
  {
    var chain := ChainOfFailure(run, id, p);
    var n := |chain| - 1;
    LinkFails(run, id, chain[n], n);
    if !IsBanAt(run, p, id) {
      StaysStored(run, id, chain[n], n);
    }
    assert HasUse(run, id, chain);
  }

  lemma {:induction false} GoesOnIsKept(run: seq<Event>, id: PeerId, p: nat)
    requires IsRun(run) && EveryFailureGoesOn(run, id) && IsFailureAt(run, p, id)
    ensures IsKept(run, id, p)
    decreases |run| - p
  {
    if IsBanAt(run, p, id) || NoWrites(run, p + 1, |run|, id) {
      LastIsKept(run, id, p);
    } else {
      assert GoesOn(run, id, p);
      var e, l, n: nat :| Continues(run, id, e, l, n) && e.failedAt == p;
      LinkFails(run, id, l, n + 1);
      GoesOnIsKept(run, id, l.failedAt);
      KeptWithNext(run, id, e, l, n);
    }
  }

  /**
   Every counted failure is part of a ban or of the stored count exactly when no count is
   overwritten before a task that fails has read it.
   */
  lemma KeptExactly(run: seq<Event>, id: PeerId)
    requires IsRun(run)
    ensures EveryFailureIsKept(run, id) <==> EveryFailureGoesOn(run, id)
  {
    forall p: nat | IsFailureAt(run, p, id)
      ensures EveryFailureGoesOn(run, id) ==> IsKept(run, id, p)
      ensures IsKept(run, id, p) && !IsBanAt(run, p, id) ==> GoesOn(run, id, p)
    {
      if EveryFailureGoesOn(run, id) {
        GoesOnIsKept(run, id, p);
      }
      if IsKept(run, id, p) && !IsBanAt(run, p, id) {
        KeptGoesOn(run, id, p);
      }
    }
  }
}
