/** Tasks that do not overlap: every ban has its own failures, and every failure is kept. */
module OverlapFree {
  import opened BanBacking
  import opened BanChains
  import opened ExactCounting
  import opened Handshakes
  import opened Sequences

  lemma {:induction false} AtMostOneAt(run: seq<Event>, id: PeerId, n: nat)
    requires IsRun(run) && NoOverlap(run, id) && n <= |run|
    ensures IsRun(run[..n]) && AtMostOneInFlight(After(run[..n]), id)
    decreases |run|
  {
    if n == |run| {
      assert run[..n] == run;
    } else {
      assert Past(run)[..n] == run[..n];
      AtMostOneAt(Past(run), id, n);
    }
  }

  /** From its read to its failure a link's task is counting. */
  lemma {:induction false} CountingUntil(run: seq<Event>, id: PeerId, l: Link, n: nat, q: nat)
    requires IsRun(run) && IsLink(run, id, l, n) && l.readAt < q <= l.failedAt
    ensures IsRun(run[..q]) && l.task < |After(run[..q]).tasks|
    ensures After(run[..q]).tasks[l.task].peer.id == id && After(run[..q]).tasks[l.task].phase == Counting(n)
    decreases l.failedAt - q
  {
    if q < l.failedAt {
      CountingUntil(run, id, l, n, q + 1);
      EnabledAt(run, q);
      ReadsOnce(run, l.readAt, q, l.task);
      ReadCountStays(After(run[..q]), run[q], l.task);
    }
  }

  /** The task of an event that writes a count is in flight, and not counting any more afterwards. */
  lemma WriterIsInFlight(s: State, e: Event, id: PeerId)
    requires Enabled(s, e) && (WritesCount(s, e, id) || IsFailure(s, e, id))
    ensures e.P2pDone? || e.ResetCount?
    ensures e.task < |s.tasks| && s.tasks[e.task].peer.id == id && InFlight(s.tasks[e.task])
    ensures e.task < |Step(s, e).tasks| && !Step(s, e).tasks[e.task].phase.Counting?
  {
  }

  lemma TwoInFlight(s: State, id: PeerId, t: nat, u: nat)
    requires t < |s.tasks| && u < |s.tasks| && t != u && s.tasks[t].peer.id == s.tasks[u].peer.id == id
    requires InFlight(s.tasks[t]) && InFlight(s.tasks[u])
    ensures !AtMostOneInFlight(s, id)
  {
    if t < u {
      assert InFlight(s.tasks[t]) && InFlight(s.tasks[u]);
    }
  }

  /** While a task counts and goes on counting, no event writes its peer's count or fails. */
  lemma CountingKeepsOthersOut(s: State, e: Event, id: PeerId, t: nat)
    requires Enabled(s, e) && AtMostOneInFlight(s, id)
    requires t < |s.tasks| && s.tasks[t].peer.id == id && s.tasks[t].phase.Counting?
    requires t < |Step(s, e).tasks| && Step(s, e).tasks[t].phase.Counting?
    ensures !WritesCount(s, e, id) && !IsFailure(s, e, id)
  {
    if WritesCount(s, e, id) || IsFailure(s, e, id) {
      WriterIsInFlight(s, e, id);
      if e.task != t {
        TwoInFlight(s, id, t, e.task);
      }
    }
  }

  /** No other task's write, or failure, comes between a read and the failure counted from it. */
  lemma NothingWhileCounting(run: seq<Event>, id: PeerId, l: Link, n: nat, p: nat)
    requires IsRun(run) && NoOverlap(run, id) && IsLink(run, id, l, n) && l.readAt <= p < l.failedAt
    ensures !WritesCountAt(run, p, id) && !IsFailureAt(run, p, id)
  {
    if l.readAt < p {
      CountingUntil(run, id, l, n, p);
      CountingUntil(run, id, l, n, p + 1);
      AtMostOneAt(run, id, p);
      EnabledAt(run, p);
      CountingKeepsOthersOut(After(run[..p]), run[p], id, l.task);
    }
  }

  /** A task that has banned its peer stays so until it resets the count. */
  lemma BanningStays(s: State, e: Event, t: nat)
    requires Enabled(s, e) && t < |s.tasks| && s.tasks[t].phase.Banning? && e != ResetCount(t)
    ensures t < |Step(s, e).tasks| && Step(s, e).tasks[t] == s.tasks[t]
  {
  }

  lemma BanStarts(s: State, e: Event, id: PeerId)
    requires Enabled(s, e) && IsThresholdBan(s, e, id)
    ensures e.task < |Step(s, e).tasks| && Step(s, e).tasks[e.task].peer.id == id
    ensures Step(s, e).tasks[e.task].phase.Banning?
  {
  }

  lemma {:induction false} BanningUntil(run: seq<Event>, id: PeerId, p: nat, q: nat)
    requires IsRun(run) && IsBanAt(run, p, id) && p < q <= |run| && NoWrites(run, p + 1, q, id)
    ensures IsRun(run[..q]) && run[p].task < |After(run[..q]).tasks|
    ensures After(run[..q]).tasks[run[p].task].peer.id == id
    ensures After(run[..q]).tasks[run[p].task].phase.Banning?
    decreases q
  {
    var r := q - 1;
    EnabledAt(run, r);
    if r == p {
      BanStarts(After(run[..r]), run[r], id);
    } else {
      BanningUntil(run, id, p, r);
      assert !WritesCountAt(run, r, id);
      BanningStays(After(run[..r]), run[r], run[p].task);
    }
  }

  /** A task that reads between a ban and its reset overlaps with it. */
  lemma ReadBeforeResetOverlaps(run: seq<Event>, id: PeerId, p: nat, m: Link, n: nat)
    requires IsRun(run) && IsBanAt(run, p, id) && IsLink(run, id, m, n)
    requires p < m.readAt && NoWrites(run, p + 1, m.readAt, id)
    ensures !NoOverlap(run, id)
  {
    var q := m.readAt + 1;
    assert !WritesCountAt(run, m.readAt, id);
    BanningUntil(run, id, p, q);
    CountingUntil(run, id, m, n, q);
    TwoInFlight(After(run[..q]), id, run[p].task, m.task);
    if NoOverlap(run, id) {
      AtMostOneAt(run, id, q);
    }
  }

  /** Two failures counted from the same count belong to tasks that overlap. */
  lemma SameCountOverlaps(run: seq<Event>, id: PeerId, e: Link, l: Link, m: Link, n: nat)
    requires IsRun(run) && l.failedAt < m.failedAt
    requires Continues(run, id, e, l, n) && Continues(run, id, e, m, n)
    ensures !NoOverlap(run, id)
  {
    var p := l.failedAt;
    LinkFails(run, id, l, n + 1);
    if m.readAt <= p {
      if NoOverlap(run, id) {
        NothingWhileCounting(run, id, m, n + 1, p);
      }
    } else {
      assert IsBanAt(run, p, id);
      ReadBeforeResetOverlaps(run, id, p, m, n + 1);
    }
  }

  lemma NoOverlapReadsOnce(run: seq<Event>, id: PeerId)
    requires IsRun(run) && NoOverlap(run, id)
    ensures NoCountReadTwice(run, id)
  {
    forall e, l, m, n: nat | Continues(run, id, e, l, n) && Continues(run, id, e, m, n)
      ensures l == m
    {
      if l.failedAt < m.failedAt {
        SameCountOverlaps(run, id, e, l, m, n);
      } else if m.failedAt < l.failedAt {
        SameCountOverlaps(run, id, e, m, l, n);
      } else {
        OneLinkPerFailure(run, id, l, n + 1, m, n + 1);
      }
    }
  }

  // ---------- every count is read before it is overwritten ----------

  lemma {:induction false} FirstWrite(run: seq<Event>, from: nat, end: nat, id: PeerId) returns (w: nat)
    requires from <= end && !NoWrites(run, from, end, id)
    ensures from <= w < end && WritesCountAt(run, w, id) && NoWrites(run, from, w, id)
    decreases end
  {
    if NoWrites(run, from, end - 1, id) {
      w := end - 1;
    } else {
      w := FirstWrite(run, from, end - 1, id);
    }
  }

  /** A task that has banned its peer did so at some event, and has been banning ever since. */
  lemma {:induction false} BannedBy(run: seq<Event>, t: nat) returns (b: nat)
    requires IsRun(run) && t < |After(run).tasks| && After(run).tasks[t].phase.Banning?
    ensures IsBanAt(run, b, After(run).tasks[t].peer.id)
    ensures forall q :: b < q <= |run| ==>
              IsRun(run[..q]) && t < |After(run[..q]).tasks| && After(run[..q]).tasks[t] == After(run).tasks[t]
    decreases |run|
  {
    var past := Past(run);
    assert run[..|run| - 1] == past && run[..|run|] == run;
    BanningComes(After(past), Last(run), t);
    if t < |After(past).tasks| && After(past).tasks[t] == After(run).tasks[t] {
      b := BannedBy(past, t);
      assert past[..b] == run[..b];
      forall q | b < q < |run|
        ensures IsRun(run[..q]) && t < |After(run[..q]).tasks| && After(run[..q]).tasks[t] == After(run).tasks[t]
      {
        assert past[..q] == run[..q];
      }
    } else {
      b := |run| - 1;
    }
  }

  lemma BanningComes(s: State, e: Event, t: nat)
    requires Enabled(s, e) && t < |Step(s, e).tasks| && Step(s, e).tasks[t].phase.Banning?
    ensures t < |s.tasks| && s.tasks[t].peer == Step(s, e).tasks[t].peer
    ensures s.tasks[t] == Step(s, e).tasks[t] || (IsThresholdBan(s, e, s.tasks[t].peer.id) && e.task == t)
  {
  }

  /** The failure that leads to the first write after another failure: that write, or the ban it resets. */
  lemma FailureOfWrite(run: seq<Event>, id: PeerId, p: nat, w: nat) returns (f: nat)
    requires IsRun(run) && NoOverlap(run, id) && IsFailureAt(run, p, id) && !IsBanAt(run, p, id)
    requires p < w && WritesCountAt(run, w, id)
    ensures p < f <= w && IsFailureAt(run, f, id)
  {
    if run[w].P2pDone? {
      f := w;
    } else {
      var t := run[w].task;
      f := BannedBy(run[..w], t);
      assert run[..w][..f] == run[..f];
      if f < p {
        assert run[..w][..p] == run[..p];
        AtMostOneAt(run, id, p);
        WriterIsInFlight(After(run[..p]), run[p], id);
      }
    }
  }

  /** The next failure is counted from the count that the failure before it wrote. */
  lemma NextContinues(run: seq<Event>, id: PeerId, e: Link, n: nat, k: Link, m: nat)
    requires IsRun(run) && NoOverlap(run, id) && IsLink(run, id, e, n) && IsLink(run, id, k, m) && n < 4
    requires e.failedAt < k.failedAt && NoWrites(run, e.failedAt + 1, k.failedAt, id)
    ensures Continues(run, id, e, k, n)
  {
    LinkFails(run, id, e, n);
    if k.readAt <= e.failedAt {
      NothingWhileCounting(run, id, k, m, e.failedAt);
    }
    assert run[..k.readAt][..e.readAt] == run[..e.readAt] && run[..k.readAt][..e.failedAt] == run[..e.failedAt];
    NoWritesStays(run, k.readAt, e.failedAt + 1, k.readAt, id);
    StaysStored(run[..k.readAt], id, e, n);
  }

  lemma NoOverlapGoesOn(run: seq<Event>, id: PeerId, p: nat)
    requires IsRun(run) && NoOverlap(run, id) && IsFailureAt(run, p, id) && !IsBanAt(run, p, id)
    ensures GoesOn(run, id, p)
  {
    if !NoWrites(run, p + 1, |run|, id) {
      var w := FirstWrite(run, p + 1, |run|, id);
      var f := FailureOfWrite(run, id, p, w);
      var c := ChainOfFailure(run, id, p);
      var d := ChainOfFailure(run, id, f);
      LinkFails(run, id, c[|c| - 1], |c| - 1);
      NextContinues(run, id, c[|c| - 1], |c| - 1, d[|d| - 1], |d| - 1);
    }
  }

  /**
   When the tasks of a peer do not overlap, every ban has five failures of its own and every
   failure is part of a ban or of the stored count.
   */
  lemma OwnAndKeptWithoutOverlap(run: seq<Event>, id: PeerId)
    requires IsRun(run) && NoOverlap(run, id)
    ensures BansOwnFailures(run, id) && EveryFailureIsKept(run, id)
  {
    NoOverlapReadsOnce(run, id);
    OwnWhenNoCountReadTwice(run, id);
    forall p: nat | IsFailureAt(run, p, id) && !IsBanAt(run, p, id)
      ensures GoesOn(run, id, p)
    {
      NoOverlapGoesOn(run, id, p);
    }
    KeptExactly(run, id);
  }
}
