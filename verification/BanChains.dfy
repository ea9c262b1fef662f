/** What stands behind a ban for too many failures. */
module BanChains {
  import opened Handshakes
  import opened Sequences

  /** The event writes that peer's stored count: a failure that does not ban it, or the reset after a ban. */
  ghost predicate WritesCount(s: State, e: Event, id: PeerId)
    requires Enabled(s, e)
  {
    || (IsFailure(s, e, id) && !IsThresholdBan(s, e, id))
    || (e.ResetCount? && s.tasks[e.task].peer.id == id)
  }

  ghost predicate WritesCountAt(run: seq<Event>, p: nat, id: PeerId) {
    && p < |run| && IsRun(run[..p]) && Enabled(After(run[..p]), run[p])
    && WritesCount(After(run[..p]), run[p], id)
  }

  /** No event from `from` up to `to` writes that peer's count. */
  ghost predicate NoWrites(run: seq<Event>, from: nat, to: nat, id: PeerId) {
    forall p: nat :: from <= p < to ==> !WritesCountAt(run, p, id)
  }

  /** A task that read the count at one point of the run and counted a failure at a later one. */
  datatype Link = Link(task: nat, readAt: nat, failedAt: nat)

  /** The read returned the stored count, `n`, and the failure was counted from it. */
  ghost predicate IsLink(run: seq<Event>, id: PeerId, l: Link, n: nat)
  {
    && l.readAt < l.failedAt < |run|
    && run[l.readAt] == ReadCount(l.task)
    && run[l.failedAt] == P2pDone(l.task, Failed)
    && IsRun(run[..l.readAt]) && Stored(After(run[..l.readAt]).p2pFailures, id) == n
    && IsRun(run[..l.failedAt]) && l.task < |After(run[..l.failedAt]).tasks|
    && After(run[..l.failedAt]).tasks[l.task].peer.id == id
    && After(run[..l.failedAt]).tasks[l.task].phase == Counting(n)
  }

  /** The later task reads after the earlier one's failure, and reads the count that failure wrote. */
  ghost predicate Follows(run: seq<Event>, id: PeerId, earlier: Link, later: Link) {
    earlier.failedAt < later.readAt && NoWrites(run, earlier.failedAt + 1, later.readAt, id)
  }

  /** Failures counted from 0, 1, 2 and so on, each from the count the one before it wrote. */
  ghost predicate IsChain(run: seq<Event>, id: PeerId, chain: seq<Link>)
  {
    && (forall i :: 0 <= i < |chain| ==> IsLink(run, id, chain[i], i))
    && (forall i :: 0 < i < |chain| ==> Follows(run, id, chain[i - 1], chain[i]))
  }

  /** The count that stands at the end of the run is the one the chain's last failure wrote. */
  ghost predicate IsStanding(run: seq<Event>, id: PeerId, chain: seq<Link>) {
    && IsChain(run, id, chain)
    && (chain != [] ==> NoWrites(run, chain[|chain| - 1].failedAt + 1, |run|, id))
  }

  lemma NoWritesStays(run: seq<Event>, n: nat, from: nat, to: nat, id: PeerId)
    requires n <= |run| && to <= n
    ensures NoWrites(run[..n], from, to, id) <==> NoWrites(run, from, to, id)
  {
    forall p: nat | p < n
      ensures WritesCountAt(run[..n], p, id) <==> WritesCountAt(run, p, id)
    {
      assert run[..n][..p] == run[..p];
    }
  }

  lemma ChainStays(run: seq<Event>, n: nat, id: PeerId, chain: seq<Link>)
    requires n <= |run| && IsChain(run[..n], id, chain)
    ensures IsChain(run, id, chain)
  {
    forall i | 0 <= i < |chain|
      ensures IsLink(run, id, chain[i], i)
      ensures i > 0 ==> Follows(run, id, chain[i - 1], chain[i])
    {
      var l := chain[i];
      assert IsLink(run[..n], id, l, i);
      assert run[..n][..l.readAt] == run[..l.readAt] && run[..n][..l.failedAt] == run[..l.failedAt];
      if i > 0 {
        assert Follows(run[..n], id, chain[i - 1], l);
        NoWritesStays(run, n, chain[i - 1].failedAt + 1, l.readAt, id);
      }
    }
  }

  /** A write stores one more than its task read, or zero; nothing else moves a stored count. */
  lemma OnlyWritesMoveCount(s: State, e: Event, id: PeerId)
    requires Enabled(s, e)
    ensures Stored(Step(s, e).p2pFailures, id) ==
            if !WritesCount(s, e, id) then Stored(s.p2pFailures, id)
            else if e.ResetCount? then 0
            else s.tasks[e.task].phase.count + 1
  {
  }

  /** A count that is read is the stored one, and stays with its task until it is used. */
  lemma ReadCountStays(s: State, e: Event, t: nat)
    requires Enabled(s, e) && t < |Step(s, e).tasks| && Step(s, e).tasks[t].phase.Counting?
    ensures t < |s.tasks|
    ensures if e == ReadCount(t)
            then Step(s, e).tasks[t] == s.tasks[t].(phase := Counting(Stored(s.p2pFailures, s.tasks[t].peer.id)))
            else Step(s, e).tasks[t] == s.tasks[t]
  {
  }

  /** A stored count of `n` was written by the last of a chain of `n` failures. */
  lemma {:induction false} StoredCountChain(run: seq<Event>, id: PeerId) returns (chain: seq<Link>)
    requires IsRun(run)
    ensures IsStanding(run, id, chain) && |chain| == Stored(After(run).p2pFailures, id)
    decreases |run|, 1
  {
    chain := [];
    if run != [] && Stored(After(run).p2pFailures, id) != 0 {
      OnlyWritesMoveCount(After(Past(run)), Last(run), id);
      if WritesCount(After(Past(run)), Last(run), id) {
        chain := FailureChain(run);
      } else {
        chain := StoredCountChain(Past(run), id);
        StandsOn(run, id, chain);
      }
    }
  }

  /** An event that writes no count leaves what stands. */
  lemma StandsOn(run: seq<Event>, id: PeerId, chain: seq<Link>)
    requires run != [] && IsRun(run) && IsStanding(Past(run), id, chain)
    requires !WritesCount(After(Past(run)), Last(run), id)
    ensures IsStanding(run, id, chain)
  {
    ChainStays(run, |run| - 1, id, chain);
    if chain != [] {
      LastEventDoesNotWrite(run, chain[|chain| - 1].failedAt + 1, id);
    }
  }

  lemma LastEventDoesNotWrite(run: seq<Event>, from: nat, id: PeerId)
    requires run != [] && IsRun(run) && !WritesCount(After(Past(run)), Last(run), id)
    requires NoWrites(Past(run), from, |run| - 1, id)
    ensures NoWrites(run, from, |run|, id)
  {
    NoWritesStays(run, |run| - 1, from, |run| - 1, id);
    assert !WritesCountAt(run, |run| - 1, id) by {
      assert run[..|run| - 1] == Past(run);
    }
  }

  /** A task that has read `n` read what the last of a chain of `n` failures wrote. */
  lemma {:induction false} ReadCountChain(run: seq<Event>, t: nat) returns (chain: seq<Link>, readAt: nat)
    requires IsRun(run) && t < |After(run).tasks| && After(run).tasks[t].phase.Counting?
    ensures readAt < |run| && run[readAt] == ReadCount(t) && IsRun(run[..readAt])
    ensures var id, n := After(run).tasks[t].peer.id, After(run).tasks[t].phase.count;
            && IsStanding(run[..readAt], id, chain) && |chain| == n
            && Stored(After(run[..readAt]).p2pFailures, id) == n
    decreases |run|, 0
  {
    var past := Past(run);
    ReadCountStays(After(past), Last(run), t);
    if Last(run) == ReadCount(t) {
      readAt := |past|;
      chain := StoredCountChain(past, After(past).tasks[t].peer.id);
    } else {
      chain, readAt := ReadCountChain(past, t);
      assert past[..readAt] == run[..readAt];
    }
  }

  /** A counted failure extends the chain whose count its task read. */
  lemma {:induction false} FailureChain(run: seq<Event>) returns (chain: seq<Link>)
    requires run != [] && IsRun(run) && Last(run).P2pDone? && Last(run).result.Failed?
    ensures var task := After(Past(run)).tasks[Last(run).task];
            && IsStanding(run, task.peer.id, chain)
            && |chain| == task.phase.count + 1
            && chain[|chain| - 1].task == Last(run).task && chain[|chain| - 1].failedAt == |run| - 1
    decreases |run|, 0
  {
    var t := Last(run).task;
    var past, readAt := ReadCountChain(Past(run), t);
    assert Past(run)[..readAt] == run[..readAt];
    chain := Linked(run, readAt, past);
  }

  /** A chain that stands when a task reads is followed by that task's failure. */
  lemma ChainGrows(run: seq<Event>, id: PeerId, past: seq<Link>, link: Link)
    requires link.readAt <= |run| && IsStanding(run[..link.readAt], id, past) && IsLink(run, id, link, |past|)
    ensures IsChain(run, id, past + [link])
  {
    ChainStays(run, link.readAt, id, past);
    if past != [] {
      var last := past[|past| - 1];
      assert IsLink(run[..link.readAt], id, last, |past| - 1);
      NoWritesStays(run, link.readAt, last.failedAt + 1, link.readAt, id);
      assert Follows(run, id, last, link);
    }
  }

  lemma Linked(run: seq<Event>, readAt: nat, past: seq<Link>) returns (chain: seq<Link>)
    requires run != [] && IsRun(run) && Last(run).P2pDone? && Last(run).result.Failed?
    requires readAt < |run| - 1 && run[readAt] == ReadCount(Last(run).task) && IsRun(run[..readAt])
    requires var task := After(Past(run)).tasks[Last(run).task];
             && IsStanding(run[..readAt], task.peer.id, past) && |past| == task.phase.count
             && Stored(After(run[..readAt]).p2pFailures, task.peer.id) == task.phase.count
    ensures IsStanding(run, After(Past(run)).tasks[Last(run).task].peer.id, chain)
    ensures chain == past + [Link(Last(run).task, readAt, |run| - 1)]
  {
    var id := After(Past(run)).tasks[Last(run).task].peer.id;
    var link := Link(Last(run).task, readAt, |run| - 1);
    assert run[..|run| - 1] == Past(run);
    ChainGrows(run, id, past, link);
    chain := past + [link];
  }

  /** A task that has read its count never starts again. */
  lemma {:induction false} NeverStartsAgain(run: seq<Event>, p: nat, t: nat)
    requires IsRun(run) && p < |run| && run[p] == ReadCount(t)
    ensures t < |After(run).tasks| && !After(run).tasks[t].phase.Starting?
    decreases |run|
  {
    if p < |run| - 1 {
      NeverStartsAgain(Past(run), p, t);
      StepKeepsTask(After(Past(run)), Last(run), t);
    }
  }

  lemma ReadsOnce(run: seq<Event>, p: nat, q: nat, t: nat)
    requires IsRun(run) && p < q < |run| && run[p] == ReadCount(t)
    ensures run[q] != ReadCount(t)
  {
    EnabledAt(run, q);
    NeverStartsAgain(run[..q], p, t);
  }

  lemma {:induction false} ChainIsOrdered(run: seq<Event>, id: PeerId, chain: seq<Link>, i: nat, j: nat)
    requires IsChain(run, id, chain) && i < j < |chain|
    ensures chain[i].failedAt < chain[j].readAt
    decreases j - i
  {
    assert Follows(run, id, chain[j - 1], chain[j]);
    if i < j - 1 {
      ChainIsOrdered(run, id, chain, i, j - 1);
      assert IsLink(run, id, chain[j - 1], j - 1);
    }
  }

  /**
   Behind every threshold ban there is a chain of exactly five counted failures of the same
   peer by five different tasks: the first was counted from zero, each next one from the count
   the one before it wrote, no other task having written in between, and the last is the ban.
   */
  lemma BanHasFiveFailures(run: seq<Event>, p: nat, id: PeerId) returns (chain: seq<Link>)
    requires IsRun(run) && p < |run| && IsRun(run[..p]) && Enabled(After(run[..p]), run[p])
    requires IsThresholdBan(After(run[..p]), run[p], id)
    ensures |chain| == P2P_FAILURE_THRESHOLD && IsChain(run, id, chain)
    ensures chain[4].task == run[p].task && chain[4].failedAt == p
    ensures forall i, j :: 0 <= i < j < |chain| ==> chain[i].task != chain[j].task
  {
    EnabledAt(run, p);
    CountsStayBelowThreshold(run[..p]);
    assert Past(run[..p + 1]) == run[..p];
    chain := FailureChain(run[..p + 1]);
    ChainStays(run, p + 1, id, chain);
    forall i, j | 0 <= i < j < |chain|
      ensures chain[i].task != chain[j].task
    {
      ChainIsOrdered(run, id, chain, i, j);
      assert IsLink(run, id, chain[i], i) && IsLink(run, id, chain[j], j);
      ReadsOnce(run, chain[i].readAt, chain[j].readAt, chain[i].task);
    }
  }

  /** So a failure bans exactly when it is the fifth of such a chain. */
  lemma BansExactlyOnTheFifth(run: seq<Event>, p: nat, id: PeerId)
    requires IsRun(run) && p < |run| && IsRun(run[..p]) && Enabled(After(run[..p]), run[p])
    requires IsFailure(After(run[..p]), run[p], id)
    ensures IsThresholdBan(After(run[..p]), run[p], id) <==>
            exists chain: seq<Link> :: IsChain(run, id, chain) && |chain| == 5 && chain[4].failedAt == p
  {
    if IsThresholdBan(After(run[..p]), run[p], id) {
      var chain := BanHasFiveFailures(run, p, id);
    }
    forall chain: seq<Link> | IsChain(run, id, chain) && |chain| == 5 && chain[4].failedAt == p
      ensures IsThresholdBan(After(run[..p]), run[p], id)
    {
      assert IsLink(run, id, chain[4], 4);
    }
  }
}
