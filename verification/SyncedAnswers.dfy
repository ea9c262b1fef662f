/**
 What "synced" means for a peer: how far behind the head of the stream its block can be when
 the service, in whatever interleaving, answers that it is present, or that it is not.
 */
module SyncedAnswers {
  import opened Sequences
  import opened LruCaches
  import opened BlockHashNums
  import opened SyncedLag
  import StateListeners

  /** Every update acknowledged before request `i` was sent is among the first `k`. */
  ghost predicate CountsAcknowledged(run: seq<Event>, i: nat, k: nat) {
    forall a, q: nat, j: nat :: 0 <= a < q < |run| && run[a] == ReceiveAck(j) && IsRequest(run, q, i) ==> j < k
  }

  /** Request `i` is sent at `q`. */
  ghost predicate IsRequest(run: seq<Event>, q: nat, i: nat) {
    q < |run| && run[q].SendRequest? && |Requests(run[..q])| == i
  }

  /** The request sent at `q` asks for its own hash. */
  lemma AskedHash(run: seq<Event>, q: nat, i: nat)
    requires IsRequest(run, q, i)
    ensures i < |Requests(run)| && Requests(run)[i] == run[q].hash
  {
    GrowsWithRun(run, q + 1);
    assert Past(run[..q + 1]) == run[..q];
  }

  /** An answer stands for the first `Prefixes(run)[i]` updates. */
  lemma AnswerStandsFor(run: seq<Event>, p: nat, i: nat, present: bool)
    requires IsRun(run) && p < |run| && run[p] == ReceiveReply(i, present)
    ensures i < |Prefixes(run)| && i < |Requests(run)|
    ensures Prefixes(run)[i] <= |Updates(run[..p])| && Updates(run[..p]) <= Updates(run)
    ensures present == Answer(run, Prefixes(run)[i], i)
    ensures CountsAcknowledged(run, i, Prefixes(run)[i])
  {
    ReplyIsPrefix(run, p, i, present);
    GrowsWithRun(run, p);
    forall a, q: nat, j: nat | 0 <= a < q < |run| && run[a] == ReceiveAck(j) && IsRequest(run, q, i)
      ensures j < Prefixes(run)[i]
    {
      AckBeforeRequest(run, a, q, j);
    }
  }

  /** The block is among those streamed, and the highest of them is less than `lag` above it. */
  ghost predicate StreamedWithin(seen: Puts, hash: H256, lag: nat) {
    exists j :: 0 <= j < |seen| && seen[j].0 == hash && Highest(seen) - seen[j].1 < lag
  }

  /**
   The answer a peer's status gets, end to end: it is the cache's answer after the updates it
   stands for, which include every update acknowledged before the request and none sent after
   the answer; and when it is "present", the block was streamed by then and lags the highest
   number by less than the threshold plus `d`.
   */
  lemma SyncedAnswer(run: seq<Event>, p: nat, i: nat, present: bool, d: nat)
    requires IsRun(run) && p < |run| && run[p] == ReceiveReply(i, present)
    requires NumbersAgree(Updates(run)) && Paced(Updates(run), d)
    ensures i < |Prefixes(run)| && i < |Requests(run)|
    ensures Prefixes(run)[i] <= |Updates(run[..p])| && Updates(run[..p]) <= Updates(run)
    ensures CountsAcknowledged(run, i, Prefixes(run)[i])
    ensures var seen, hash := Updates(run)[..Prefixes(run)[i]], Requests(run)[i];
            && (present <==> Recent(SYNCED_THRESHOLD, seen, hash))
            && (present ==> StreamedWithin(seen, hash, SYNCED_THRESHOLD + d))
  {
    AnswerStandsFor(run, p, i, present);
    if present {
      var seen, hash := Updates(run)[..Prefixes(run)[i]], Requests(run)[i];
      PrefixIsPaced(Updates(run), |seen|, d);
      FoundHashLag(seen, hash, d);
      assert seen[LastPut(seen, hash)].0 == hash;
    }
  }

  lemma PrefixIsConsecutive(h: Puts, n: nat)
    requires Consecutive(h) && n <= |h|
    ensures Consecutive(h[..n])
  {
  }

  /**
   On consecutive blocks both answers have a meaning: "present" exactly when the block was
   streamed and lags by less than the threshold.
   */
  lemma ConsecutiveAnswer(run: seq<Event>, p: nat, i: nat, present: bool)
    requires IsRun(run) && p < |run| && run[p] == ReceiveReply(i, present)
    requires Consecutive(Updates(run))
    ensures i < |Prefixes(run)| && i < |Requests(run)|
    ensures Prefixes(run)[i] <= |Updates(run[..p])| && Updates(run[..p]) <= Updates(run)
    ensures CountsAcknowledged(run, i, Prefixes(run)[i])
    ensures present <==>
            StreamedWithin(Updates(run)[..Prefixes(run)[i]], Requests(run)[i], SYNCED_THRESHOLD)
  {
    ConsecutiveIsPaced(Updates(run));
    SyncedAnswer(run, p, i, present, 0);
    var seen, hash := Updates(run)[..Prefixes(run)[i]], Requests(run)[i];
    PrefixIsConsecutive(Updates(run), |seen|);
    if j :| 0 <= j < |seen| && seen[j].0 == hash && Highest(seen) - seen[j].1 < SYNCED_THRESHOLD {
      ConsecutiveExactly(seen, j);
    }
  }

  // ---------- with the producer that waits for each acknowledgement ----------

  lemma {:induction false} HighestGrows(h: Puts, n: nat)
    requires 0 < n <= |h|
    ensures Highest(h[..n]) <= Highest(h)
    decreases |h|
  {
    if n == |h| {
      assert h[..n] == h;
    } else {
      HighestGrows(h[..|h| - 1], n);
      assert h[..|h| - 1][..n] == h[..n];
    }
  }

  /** The highest number of the first `n` blocks, when at most one of them is not among the first `k`. */
  lemma HighestOfOneMore(h: Puts, k: nat, n: nat, d: nat)
    requires Paced(h, d) && 0 < k <= |h| && 0 < n <= |h| && n <= k + 1
    ensures Highest(h[..n]) <= Highest(h[..k]) + 1
  {
    if n <= k {
      HighestGrows(h[..k], n);
      assert h[..k][..n] == h[..n];
    } else {
      assert InPace(h, k, d);
      assert h[..n][..k] == h[..k];
    }
  }

  /**
   With that producer, a hash answered "present" lagged by at most 100 + d the highest of all
   blocks sent when it was asked for.
   */
  lemma SyncedWhenAsked(run: seq<Event>, q: nat, p: nat, i: nat, d: nat) returns (number: int)
    requires IsRun(run) && AwaitsEachAck(run)
    requires q < p < |run| && run[p] == ReceiveReply(i, true) && IsRequest(run, q, i)
    requires NumbersAgree(Updates(run)) && Paced(Updates(run), d)
    ensures exists j :: 0 <= j < |Updates(run)| && Updates(run)[j] == (run[q].hash, number)
    ensures Updates(run[..q]) != [] ==> Highest(Updates(run[..q])) - number <= SYNCED_THRESHOLD + d
  {
    var h := Updates(run);
    SyncedAnswer(run, p, i, true, d);
    AskedHash(run, q, i);
    var k := Prefixes(run)[i];
    var j :| 0 <= j < k && h[..k][j].0 == run[q].hash && Highest(h[..k]) - h[..k][j].1 < SYNCED_THRESHOLD + d;
    number := h[j].1;
    assert h[j] == (run[q].hash, number);
    AnswerMissesAtMostOne(run, q);
    GrowsWithRun(run, q);
    var n := |Updates(run[..q])|;
    assert Updates(run[..q]) == h[..n];
    if n > 0 {
      HighestOfOneMore(h, k, n, d);
    }
  }

  /**
   With that producer and consecutive blocks both answers bound the lag when it was asked for:
   "present" means at most 100 behind the highest block sent, and "absent" that every block
   with that hash, save perhaps the last one sent, was already at least 100 behind the highest
   sent by the time of the answer.
   */
  lemma ConsecutiveWhenAsked(run: seq<Event>, q: nat, p: nat, i: nat, present: bool, j: nat)
    requires IsRun(run) && AwaitsEachAck(run) && Consecutive(Updates(run))
    requires q < p < |run| && run[p] == ReceiveReply(i, present) && IsRequest(run, q, i)
    requires j < |Updates(run)| && Updates(run)[j].0 == run[q].hash
    ensures present && Updates(run[..q]) != [] ==>
              Highest(Updates(run[..q])) - Updates(run)[j].1 <= SYNCED_THRESHOLD
    ensures !present && j + 1 < |Updates(run[..q])| ==>
              Updates(run[..p]) != [] && Highest(Updates(run[..p])) - Updates(run)[j].1 >= SYNCED_THRESHOLD
  {
    var h := Updates(run);
    ConsecutiveIsPaced(h);
    ConsecutiveAnswer(run, p, i, present);
    AskedHash(run, q, i);
    if present {
      var number := SyncedWhenAsked(run, q, p, i, 0);
    } else if j + 1 < |Updates(run[..q])| {
      var k := Prefixes(run)[i];
      AnswerMissesAtMostOne(run, q);
      assert h[..k][j].0 == run[q].hash;
      HighestGrows(Updates(run[..p]), k);
      assert Updates(run[..p])[..k] == h[..k];
    }
  }

  // ---------- both bounds are reached ----------

  /** Each block sent, applied and acknowledged before the next. */
  ghost function AckedStream(h: Puts): (run: seq<Event>)
  {
    if h == [] then []
    else AckedStream(Past(h)) + [SendUpdate(Last(h).0, Last(h).1)] + [ProcessUpdate] + [ReceiveAck(|Past(h)|)]
  }

  /** The state in which nothing is sent that is not answered, applied and acknowledged. */
  ghost predicate Quiet(run: seq<Event>, h: Puts) {
    && IsRun(run) && AwaitsEachAck(run) && StateListeners.AllAcked(run)
    && Updates(run) == h && Applied(run) == |h| && Requests(run) == []
  }

  lemma OneApplied(run: seq<Event>, h: Puts, hash: H256, number: U64)
    requires IsRun(run) && Updates(run) == h && Applied(run) == |h| && Requests(run) == []
    ensures var next := run + [SendUpdate(hash, number)] + [ProcessUpdate] + [ReceiveAck(|h|)];
            && IsRun(next) && Updates(next) == h + [(hash, number)]
            && Applied(next) == |h| + 1 && Requests(next) == []
  {
    var r1 := run + [SendUpdate(hash, number)];
    var r2 := r1 + [ProcessUpdate];
    var r3 := r2 + [ReceiveAck(|h|)];
    assert Past(r1) == run && Past(r2) == r1 && Past(r3) == r2;
    Extend(run, SendUpdate(hash, number));
    assert Updates(r1) == h + [(hash, number)] && Applied(r1) == |h| && Requests(r1) == [];
    ServiceInvariant(r1);
    assert After(r1).blockSubscriptionRx == [BlockUpdate(hash, number, |h|)];
    Extend(r1, ProcessUpdate);
    Extend(r2, ReceiveAck(|h|));
  }

  lemma OneAcked(run: seq<Event>, h: Puts, hash: H256, number: U64)
    requires Quiet(run, h)
    ensures Quiet(run + [SendUpdate(hash, number)] + [ProcessUpdate] + [ReceiveAck(|h|)], h + [(hash, number)])
  {
    var e, more := SendUpdate(hash, number), [ProcessUpdate, ReceiveAck(|h|)];
    var next := run + [e] + [ProcessUpdate] + [ReceiveAck(|h|)];
    OneApplied(run, h, hash, number);
    assert next == run + [e] + more && next[|run| + 2] == ReceiveAck(|h|);
    StateListeners.KeepsDiscipline(run, e);
    StateListeners.NoUpdateSent(run + [e], more);
    assert AckReceived(next, |next|, |h|);
    StateListeners.AllAckedAgain(run, next, e, |h|);
  }

  lemma {:induction false} AckedStreamIsQuiet(h: Puts)
    ensures Quiet(AckedStream(h), h)
  {
    if h != [] {
      AckedStreamIsQuiet(Past(h));
      OneAcked(AckedStream(Past(h)), Past(h), Last(h).0, Last(h).1);
      assert Past(h) + [(Last(h).0, Last(h).1)] == h;
    }
  }

  /** A late block that is found, with one more block sent before it is asked for and not yet applied. */
  ghost function LateRun(d: nat): (run: seq<Event>)
    requires d + SYNCED_THRESHOLD < U64_END
  {
    AckedStream(LateBlock(d, 99)) + [SendUpdate(2 * (d + 100), d + 100)]
  }

  lemma LateRunSends(d: nat)
    requires d + SYNCED_THRESHOLD < U64_END
    ensures var run := LateRun(d);
            && IsRun(run) && AwaitsEachAck(run) && Requests(run) == []
            && Updates(run) == LateBlock(d, 100)
            && Applied(run) == d + 101 && Updates(run)[..d + 101] == LateBlock(d, 99)
  {
    var h, before := LateBlock(d, 99), AckedStream(LateBlock(d, 99));
    var e := SendUpdate(2 * (d + 100), d + 100);
    AckedStreamIsQuiet(h);
    Extend(before, e);
    StateListeners.KeepsDiscipline(before, e);
    assert Past(before + [e]) == before;
    assert LateBlock(d, 100) == h + [(e.hash, e.number)];
  }

  /** What the late block's request is answered with, while the newest block is not counted yet. */
  ghost function LateAnswer(d: nat): (more: seq<Event>)
    requires d + SYNCED_THRESHOLD < U64_END && IsRun(LateRun(d))
    ensures |more| >= 2 && more[0] == SendRequest(1) && more[|more| - 1] == ReceiveReply(0, true)
    ensures forall x :: 0 <= x < |more| ==> !more[x].SendUpdate?
  {
    [SendRequest(1)] + Times(ProcessRequest, |After(LateRun(d)).commandRx|) + [ProcessRequest]
    + [ReceiveReply(0, true)]
  }

  lemma Appended(run: seq<Event>, a: seq<Event>, b: seq<Event>, c: seq<Event>, d: seq<Event>)
    ensures run + (a + b + c + d) == run + a + b + c + d
  {
  }

  lemma LateRunAnswers(d: nat)
    requires d + SYNCED_THRESHOLD < U64_END
    ensures IsRun(LateRun(d)) && IsRun(LateRun(d) + LateAnswer(d))
  {
    LateRunSends(d);
    FoundHashLagIsReached(d);
    AnsweredFromApplied(LateRun(d), 1);
    Extend(AnsweredNext(LateRun(d), 1), ReceiveReply(0, true));
    Appended(LateRun(d), [SendRequest(1)], Times(ProcessRequest, |After(LateRun(d)).commandRx|), [ProcessRequest],
             [ReceiveReply(0, true)]);
  }

  lemma LateStream(d: nat)
    requires d + SYNCED_THRESHOLD < U64_END
    ensures var h := LateBlock(d, 100);
            NumbersAgree(h) && Paced(h, d) && Highest(h) == SYNCED_THRESHOLD + d
  {
    LateBlockIsPaced(d, 100);
    LateBlockHighest(d, 100, d + 102);
    assert LateBlock(d, 100)[..d + 102] == LateBlock(d, 100);
  }

  /** The bound on the lag when asked cannot be lowered either. */
  lemma LagWhenAskedIsReached(d: nat) returns (run: seq<Event>, q: nat, p: nat)
    requires d + SYNCED_THRESHOLD < U64_END
    ensures IsRun(run) && AwaitsEachAck(run)
    ensures q < p < |run| && run[p] == ReceiveReply(0, true) && IsRequest(run, q, 0)
    ensures NumbersAgree(Updates(run)) && Paced(Updates(run), d)
    ensures d + 1 < |Updates(run)| && Updates(run)[d + 1] == (run[q].hash, 0)
    ensures Updates(run[..q]) != [] && Highest(Updates(run[..q])) - 0 == SYNCED_THRESHOLD + d
  {
    var sent := LateRun(d);
    LateRunSends(d);
    LateRunAnswers(d);
    LateStream(d);
    StateListeners.NoUpdateSent(sent, LateAnswer(d));
    run, q, p := sent + LateAnswer(d), |sent|, |sent| + |LateAnswer(d)| - 1;
    assert run[..q] == sent;
  }
}
