/** When the failure counts are exact. */
module ExactCounting {
  import opened Handshakes
  import opened Sequences

  ghost function Failures(run: seq<Event>, id: PeerId): nat
    requires IsRun(run)
  {
    if run == [] then 0
    else Failures(Past(run), id) + if IsFailure(After(Past(run)), Last(run), id) then 1 else 0
  }

  ghost function ThresholdBans(run: seq<Event>, id: PeerId): nat
    requires IsRun(run)
  {
    if run == [] then 0
    else ThresholdBans(Past(run), id) + if IsThresholdBan(After(Past(run)), Last(run), id) then 1 else 0
  }

  /** A task of the peer has banned it and not yet reset its count. */
  ghost predicate ResetPending(s: State, id: PeerId) {
    exists t :: 0 <= t < |s.tasks| && s.tasks[t].peer.id == id && s.tasks[t].phase.Banning?
  }

  /** The count that stands for the peer: zero as soon as it is banned. */
  ghost function Effective(s: State, id: PeerId): nat {
    if ResetPending(s, id) then 0 else Stored(s.p2pFailures, id)
  }

  /** After `n` failures the count is `n` modulo five, and there has been a ban for every five. */
  ghost predicate Exact(s: State, id: PeerId, n: nat, bans: nat) {
    Effective(s, id) == n % P2P_FAILURE_THRESHOLD && bans == n / P2P_FAILURE_THRESHOLD
  }

  ghost predicate CountIsExact(run: seq<Event>, id: PeerId)
    requires IsRun(run)
  {
    Exact(After(run), id, Failures(run, id), ThresholdBans(run, id))
  }

  /** When the failure is counted, the count it was read from is still the one that stands. */
  ghost predicate IsCurrent(s: State, e: Event, id: PeerId)
    requires Enabled(s, e) && IsFailure(s, e, id)
  {
    !ResetPending(s, id) && s.tasks[e.task].phase.count == Stored(s.p2pFailures, id)
  }

  ghost predicate AlwaysExact(run: seq<Event>, id: PeerId)
    requires IsRun(run)
    decreases |run|
  {
    CountIsExact(run, id) && (run != [] ==> AlwaysExact(Past(run), id))
  }

  ghost predicate AlwaysCurrent(run: seq<Event>, id: PeerId)
    requires IsRun(run)
    decreases |run|
  {
    run != [] ==>
      && AlwaysCurrent(Past(run), id)
      && (IsFailure(After(Past(run)), Last(run), id) ==> IsCurrent(After(Past(run)), Last(run), id))
  }

  /** Any event but a counted failure of the peer leaves its standing count, unless it resets it. */
  lemma OtherEventsKeepCount(s: State, e: Event, id: PeerId)
    requires Enabled(s, e) && !IsFailure(s, e, id)
    ensures Effective(Step(s, e), id) == Effective(s, id)
  {
    var n := Step(s, e);
    forall t | 0 <= t < |n.tasks| && n.tasks[t].peer.id == id && n.tasks[t].phase.Banning?
      ensures ResetPending(s, id)
    {
      assert t < |s.tasks| && s.tasks[t].phase.Banning?;
    }
    if ResetPending(s, id) {
      var t :| 0 <= t < |s.tasks| && s.tasks[t].peer.id == id && s.tasks[t].phase.Banning?;
      if e != ResetCount(t) {
        assert n.tasks[t].phase.Banning?;
      }
    }
  }

  /** What a counted failure does to the standing count. */
  lemma FailureMovesCount(s: State, e: Event, id: PeerId)
    requires Enabled(s, e) && IsFailure(s, e, id)
    ensures Effective(Step(s, e), id) ==
            if ResetPending(s, id) || IsThresholdBan(s, e, id) then 0 else s.tasks[e.task].phase.count + 1
  {
    var n := Step(s, e);
    if ResetPending(s, id) {
      var t :| 0 <= t < |s.tasks| && s.tasks[t].peer.id == id && s.tasks[t].phase.Banning?;
      assert n.tasks[t].phase.Banning?;
    } else if IsThresholdBan(s, e, id) {
      assert n.tasks[e.task].phase.Banning?;
    } else {
      forall t | 0 <= t < |n.tasks| && n.tasks[t].peer.id == id
        ensures !n.tasks[t].phase.Banning?
      {
        assert s.tasks[t].peer.id == id;
      }
    }
  }

  /** A counted failure keeps the count exact exactly when the count it was read from is current. */
  lemma ExactFailure(s: State, e: Event, id: PeerId, n: nat, bans: nat)
    requires Enabled(s, e) && IsFailure(s, e, id) && CountsBelowThreshold(s) && Exact(s, id, n, bans)
    ensures Exact(Step(s, e), id, n + 1, bans + if IsThresholdBan(s, e, id) then 1 else 0) <==>
            IsCurrent(s, e, id)
  {
    FailureMovesCount(s, e, id);
    CountStep(n, s.tasks[e.task].phase.count);
  }

  lemma ExactStep(run: seq<Event>, id: PeerId)
    requires run != [] && IsRun(run) && CountIsExact(Past(run), id)
    ensures CountIsExact(run, id) <==>
            (IsFailure(After(Past(run)), Last(run), id) ==> IsCurrent(After(Past(run)), Last(run), id))
  {
    var s, e := After(Past(run)), Last(run);
    var n, bans := Failures(Past(run), id), ThresholdBans(Past(run), id);
    if IsFailure(s, e, id) {
      CountsStayBelowThreshold(Past(run));
      ExactFailure(s, e, id, n, bans);
    } else {
      OtherEventsKeepCount(s, e, id);
    }
  }

  lemma CountStep(n: nat, count: nat)
    requires count < 5
    ensures count == 4 ==> ((n + 1) % 5 == 0 && n / 5 + 1 == (n + 1) / 5 <==> n % 5 == 4)
    ensures count < 4 ==> ((n + 1) % 5 == count + 1 && n / 5 == (n + 1) / 5 <==> n % 5 == count)
    ensures n % 5 == 0 ==> (n + 1) % 5 != 0
  {
  }

  /**
   Counting is exact at every point of a run exactly when no failure is ever counted from a
   count that is out of date.
   */
  lemma {:induction false} ExactlyWhenCurrent(run: seq<Event>, id: PeerId)
    requires IsRun(run)
    ensures AlwaysExact(run, id) <==> AlwaysCurrent(run, id)
  {
    if run != [] {
      ExactlyWhenCurrent(Past(run), id);
      if AlwaysExact(Past(run), id) {
        ExactStep(run, id);
      }
    }
  }

  // ---------- tasks that do not overlap ----------

  /** Between reading its count and the last write that depends on it. */
  predicate InFlight(task: Task) {
    task.phase.Counting? || task.phase.Banning?
  }

  ghost predicate AtMostOneInFlight(s: State, id: PeerId) {
    forall t, u :: 0 <= t < u < |s.tasks| && s.tasks[t].peer.id == id && s.tasks[u].peer.id == id ==>
      !(InFlight(s.tasks[t]) && InFlight(s.tasks[u]))
  }

  ghost predicate NoOverlap(run: seq<Event>, id: PeerId)
    requires IsRun(run)
    decreases |run|
  {
    AtMostOneInFlight(After(run), id) && (run != [] ==> NoOverlap(Past(run), id))
  }

  ghost predicate ReadsAreCurrent(s: State, id: PeerId) {
    forall t :: 0 <= t < |s.tasks| && s.tasks[t].peer.id == id && s.tasks[t].phase.Counting? ==>
      s.tasks[t].phase.count == Stored(s.p2pFailures, id)
  }

  lemma ReadsStayCurrent(s: State, e: Event, id: PeerId)
    requires Enabled(s, e) && ReadsAreCurrent(s, id) && AtMostOneInFlight(s, id)
    ensures ReadsAreCurrent(Step(s, e), id)
    ensures IsFailure(s, e, id) ==> IsCurrent(s, e, id)
  {
    var n := Step(s, e);
    forall t | 0 <= t < |n.tasks| && n.tasks[t].peer.id == id && n.tasks[t].phase.Counting?
      ensures n.tasks[t].phase.count == Stored(n.p2pFailures, id)
    {
      if e != ReadCount(t) {
        assert s.tasks[t] == n.tasks[t];
        assert InFlight(s.tasks[t]);
        if e.P2pDone? || e.ResetCount? {
          assert InFlight(s.tasks[e.task]);
        }
      }
    }
    if IsFailure(s, e, id) {
      assert InFlight(s.tasks[e.task]);
      forall t | 0 <= t < |s.tasks| && s.tasks[t].peer.id == id
        ensures !s.tasks[t].phase.Banning?
      {
        assert s.tasks[t].phase.Banning? ==> InFlight(s.tasks[t]);
      }
    }
  }

  lemma {:induction false} NoOverlapIsCurrent(run: seq<Event>, id: PeerId)
    requires IsRun(run) && NoOverlap(run, id)
    ensures AlwaysCurrent(run, id) && ReadsAreCurrent(After(run), id)
  {
    if run != [] {
      NoOverlapIsCurrent(Past(run), id);
      ReadsStayCurrent(After(Past(run)), Last(run), id);
    }
  }

  /**
   When the tasks of a peer do not overlap, whatever tasks of other peers do in between:
   whenever none of them is in flight, the stored count is the counted failures modulo five
   and the peer has been banned once for every five.
   */
  lemma ExactWithoutOverlap(run: seq<Event>, id: PeerId)
    requires IsRun(run) && NoOverlap(run, id)
    requires forall t :: 0 <= t < |After(run).tasks| && After(run).tasks[t].peer.id == id ==>
               !InFlight(After(run).tasks[t])
    ensures Stored(After(run).p2pFailures, id) == Failures(run, id) % 5
    ensures ThresholdBans(run, id) == Failures(run, id) / 5
  {
    NoOverlapIsCurrent(run, id);
    ExactlyWhenCurrent(run, id);
    assert !ResetPending(After(run), id);
  }

  // ---------- what overlap costs ----------

  /** Failures the peer did not have: the counted failure read a higher count than the one that stands. */
  ghost function GainedBy(s: State, e: Event, id: PeerId): nat
    requires Enabled(s, e)
  {
    if !IsFailure(s, e, id) then 0
    else if ResetPending(s, id) && !IsThresholdBan(s, e, id) then 0
    else AtLeastZero(s.tasks[e.task].phase.count - Effective(s, id))
  }

  /** Failures forgotten: the counted failure read a lower count, or is wiped out by the reset that follows. */
  ghost function LostBy(s: State, e: Event, id: PeerId): nat
    requires Enabled(s, e)
  {
    if !IsFailure(s, e, id) then 0
    else if ResetPending(s, id) && !IsThresholdBan(s, e, id) then 1
    else AtLeastZero(Effective(s, id) - s.tasks[e.task].phase.count)
  }

  function AtLeastZero(n: int): nat {
    if n < 0 then 0 else n
  }

  ghost function Gained(run: seq<Event>, id: PeerId): nat
    requires IsRun(run)
  {
    if run == [] then 0 else Gained(Past(run), id) + GainedBy(After(Past(run)), Last(run), id)
  }

  ghost function Lost(run: seq<Event>, id: PeerId): nat
    requires IsRun(run)
  {
    if run == [] then 0 else Lost(Past(run), id) + LostBy(After(Past(run)), Last(run), id)
  }

  lemma FailureBalances(s: State, e: Event, id: PeerId)
    requires Enabled(s, e) && IsFailure(s, e, id) && CountsBelowThreshold(s)
    ensures (if IsThresholdBan(s, e, id) then 5 else 0) + Effective(Step(s, e), id) + LostBy(s, e, id) ==
            Effective(s, id) + 1 + GainedBy(s, e, id)
  {
    FailureMovesCount(s, e, id);
  }

  /**
   The accounts balance after every run, overlap or not: five failures for each ban, those
   that still stand and those that were lost are the ones that happened and those that were gained.
   */
  lemma {:induction false} AccountsBalance(run: seq<Event>, id: PeerId)
    requires IsRun(run)
    ensures 5 * ThresholdBans(run, id) + Effective(After(run), id) + Lost(run, id) ==
            Failures(run, id) + Gained(run, id)
  {
    if run != [] {
      var s, e := After(Past(run)), Last(run);
      AccountsBalance(Past(run), id);
      if IsFailure(s, e, id) {
        CountsStayBelowThreshold(Past(run));
        FailureBalances(s, e, id);
      } else {
        OtherEventsKeepCount(s, e, id);
      }
    }
  }

  /**
   On balance, at every point, there have been five failures for each ban and those that stand.
   This counts failures; it does not say which ban a failure is part of.
   */
  ghost predicate BackedOnBalance(run: seq<Event>, id: PeerId)
    requires IsRun(run)
    decreases |run|
  {
    && 5 * ThresholdBans(run, id) + Effective(After(run), id) <= Failures(run, id)
    && (run != [] ==> BackedOnBalance(Past(run), id))
  }

  /** On balance, at every point, there have been no more failures than the bans and the standing count take up. */
  ghost predicate KeptOnBalance(run: seq<Event>, id: PeerId)
    requires IsRun(run)
    decreases |run|
  {
    && Failures(run, id) <= 5 * ThresholdBans(run, id) + Effective(After(run), id)
    && (run != [] ==> KeptOnBalance(Past(run), id))
  }

  /** No failure gains more than was lost, net of what was gained, before it. */
  ghost predicate GainsAreCovered(run: seq<Event>, id: PeerId)
    requires IsRun(run)
    decreases |run|
  {
    run != [] ==>
      && GainsAreCovered(Past(run), id)
      && GainedBy(After(Past(run)), Last(run), id) <= AtLeastZero(Lost(Past(run), id) - Gained(Past(run), id))
  }

  /** No failure loses more than was gained, net of what was lost, before it. */
  ghost predicate LossesAreCovered(run: seq<Event>, id: PeerId)
    requires IsRun(run)
    decreases |run|
  {
    run != [] ==>
      && LossesAreCovered(Past(run), id)
      && LostBy(After(Past(run)), Last(run), id) <= AtLeastZero(Gained(Past(run), id) - Lost(Past(run), id))
  }

  /** No event both gains and loses. */
  lemma GainsOrLoses(s: State, e: Event, id: PeerId)
    requires Enabled(s, e)
    ensures GainedBy(s, e, id) == 0 || LostBy(s, e, id) == 0
  {
  }

  /** Bans are backed on balance, at every point, exactly when what is gained makes up for earlier losses only. */
  lemma {:induction false} BackedOnBalanceExactly(run: seq<Event>, id: PeerId)
    requires IsRun(run)
    ensures BackedOnBalance(run, id) <==> GainsAreCovered(run, id)
  {
    AccountsBalance(run, id);
    if run != [] {
      BackedOnBalanceExactly(Past(run), id);
      AccountsBalance(Past(run), id);
      GainsOrLoses(After(Past(run)), Last(run), id);
    }
  }

  /** No failure is missing on balance, at every point, exactly when what is lost was gained before. */
  lemma {:induction false} KeptOnBalanceExactly(run: seq<Event>, id: PeerId)
    requires IsRun(run)
    ensures KeptOnBalance(run, id) <==> LossesAreCovered(run, id)
  {
    AccountsBalance(run, id);
    if run != [] {
      KeptOnBalanceExactly(Past(run), id);
      AccountsBalance(Past(run), id);
      GainsOrLoses(After(Past(run)), Last(run), id);
    }
  }

  /** No failure is ever counted from a count above the one that stands. */
  ghost predicate NeverAbove(run: seq<Event>, id: PeerId)
    requires IsRun(run)
    decreases |run|
  {
    run != [] ==>
      var s, e := After(Past(run)), Last(run);
      NeverAbove(Past(run), id) && (IsFailure(s, e, id) ==> s.tasks[e.task].phase.count <= Effective(s, id))
  }

  /** In particular bans are backed on balance if no failure is counted from a count above the one that stands. */
  lemma {:induction false} BansAreBackedOnBalance(run: seq<Event>, id: PeerId)
    requires IsRun(run) && NeverAbove(run, id)
    ensures Gained(run, id) == 0 && BackedOnBalance(run, id)
  {
    AccountsBalance(run, id);
    if run != [] {
      BansAreBackedOnBalance(Past(run), id);
    }
  }

  /** One more enabled event, and what it adds to the failures and the bans. */
  lemma Counted(id: PeerId, run: seq<Event>, e: Event) returns (next: seq<Event>)
    requires IsRun(run) && Enabled(After(run), e)
    ensures IsRun(next) && After(next) == Step(After(run), e)
    ensures Failures(next, id) == Failures(run, id) + if IsFailure(After(run), e, id) then 1 else 0
    ensures ThresholdBans(next, id) == ThresholdBans(run, id) + if IsThresholdBan(After(run), e, id) then 1 else 0
  {
    next := Extend(run, e);
  }

  /** Two overlapping tasks lose a failure: both read zero, two failures are counted and one is stored. */
  lemma OverlapLosesAFailure(peer: NodeRecord) returns (run: seq<Event>)
    ensures IsRun(run) && Failures(run, peer.id) == 2 && ThresholdBans(run, peer.id) == 0
    ensures Stored(After(run).p2pFailures, peer.id) == 1
    ensures !CountIsExact(run, peer.id) && !KeptOnBalance(run, peer.id)
  {
    run := Counted(peer.id, [], Discover(peer));
    run := Counted(peer.id, run, Discover(peer));
    run := Counted(peer.id, run, ReadCount(0));
    run := Counted(peer.id, run, ReadCount(1));
    assert After(run).tasks == [Task(peer, true, Counting(0)), Task(peer, true, Counting(0))];
    run := Counted(peer.id, run, P2pDone(0, Failed));
    run := Counted(peer.id, run, P2pDone(1, Failed));
    assert After(run).tasks == [Task(peer, true, Finished), Task(peer, true, Finished)];
    assert !ResetPending(After(run), peer.id);
  }

  /** A state in which every task so far is of that peer and has finished, after `n` failures and no ban. */
  ghost predicate Settled(run: seq<Event>, peer: NodeRecord, n: nat)
  {
    && IsRun(run) && Failures(run, peer.id) == n && ThresholdBans(run, peer.id) == 0
    && Stored(After(run).p2pFailures, peer.id) == n
    && forall t :: 0 <= t < |After(run).tasks| ==> After(run).tasks[t] == Task(peer, true, Finished)
  }

  /** Failures one after the other, each task starting when the one before it has finished. */
  lemma {:induction false} FailuresInARow(peer: NodeRecord, n: nat) returns (run: seq<Event>)
    requires n <= 4
    ensures Settled(run, peer, n)
  {
    run := [];
    if n > 0 {
      run := FailuresInARow(peer, n - 1);
      var t := |After(run).tasks|;
      run := Counted(peer.id, run, Discover(peer));
      run := Counted(peer.id, run, ReadCount(t));
      run := Counted(peer.id, run, P2pDone(t, Failed));
    }
  }

  /** Six failures ban the peer twice, when the last two overlap: both read four. */
  lemma OverlapBansTwice(peer: NodeRecord) returns (run: seq<Event>)
    ensures IsRun(run) && Failures(run, peer.id) == 6 && ThresholdBans(run, peer.id) == 2
    ensures !BackedOnBalance(run, peer.id)
  {
    run := FailuresInARow(peer, 4);
    var t := |After(run).tasks|;
    run := Counted(peer.id, run, Discover(peer));
    run := Counted(peer.id, run, Discover(peer));
    run := Counted(peer.id, run, ReadCount(t));
    run := Counted(peer.id, run, ReadCount(t + 1));
    assert After(run).tasks[t] == After(run).tasks[t + 1] == Task(peer, true, Counting(4));
    run := Counted(peer.id, run, P2pDone(t, Failed));
    run := Counted(peer.id, run, P2pDone(t + 1, Failed));
  }
}
