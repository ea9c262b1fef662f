/** The producer of block updates: it forwards the block stream and waits for each acknowledgement. */
module StateListeners {
  import opened BlockHashNums
  import opened Sequences
  import opened Wrappers

  /** A block of the stream; a pending block has no hash or no number. */
  datatype Block = Block(hash: Option<H256>, number: Option<U64>)

  predicate Mined(b: Block) {
    b.hash.Some? && b.number.Some?
  }

  /** How the listener stops: the stream ended, a block was pending, or an acknowledgement is still awaited. */
  datatype Outcome = StreamEnded | PendingBlock | Waiting

  function Put(b: Block): (H256, U64)
    requires Mined(b)
  {
    (b.hash.value, b.number.value)
  }

  function Puts(blocks: seq<Block>): seq<(H256, U64)>
    requires forall i :: 0 <= i < |blocks| ==> Mined(blocks[i])
  {
    seq(|blocks|, i requires 0 <= i < |blocks| => Put(blocks[i]))
  }

  /** Every update sent has been acknowledged. */
  ghost predicate AllAcked(run: seq<Event>) {
    forall j :: 0 <= j < |Updates(run)| ==> AckReceived(run, |run|, j)
  }

  lemma AckStays(run: seq<Event>, more: seq<Event>, p: nat, j: nat)
    requires p <= |run| && AckReceived(run, p, j)
    ensures AckReceived(run + more, p, j) && AckReceived(run + more, |run + more|, j)
  {
    var q :| 0 <= q < p && run[q] == ReceiveAck(j);
    assert (run + more)[q] == ReceiveAck(j);
  }

  /** Steps that send no update change neither the updates nor the discipline. */
  lemma {:induction false} NoUpdateSent(run: seq<Event>, more: seq<Event>)
    requires forall x :: 0 <= x < |more| ==> !more[x].SendUpdate?
    ensures Updates(run + more) == Updates(run)
    ensures AwaitsEachAck(run) ==> AwaitsEachAck(run + more)
    ensures AllAcked(run) ==> AllAcked(run + more)
    decreases |more|
  {
    if more == [] {
      assert run + more == run;
    } else {
      NoUpdateSent(run, more[..|more| - 1]);
      assert Past(run + more) == run + more[..|more| - 1];
      KeepsDiscipline(run + more[..|more| - 1], more[|more| - 1]);
      assert run + more == run + more[..|more| - 1] + [more[|more| - 1]];
    }
  }

  /** Sending an update once every earlier one is acknowledged keeps the discipline. */
  lemma KeepsDiscipline(run: seq<Event>, e: Event)
    ensures AwaitsEachAck(run) && (e.SendUpdate? ==> AllAcked(run)) ==> AwaitsEachAck(run + [e])
    ensures AllAcked(run) && !e.SendUpdate? ==> AllAcked(run + [e])
  {
    var next := run + [e];
    assert Past(next) == run;
    if AwaitsEachAck(run) && (e.SendUpdate? ==> AllAcked(run)) {
      forall p, j | 0 <= p < |next| && next[p].SendUpdate? && 0 <= j < |Updates(next[..p])|
        ensures AckReceived(next, p, j)
      {
        assert next[..p] == run[..p];
        assert p == |run| ==> run[..p] == run;
        assert AckReceived(run, p, j);
        AckStays(run, [e], p, j);
      }
    }
    if AllAcked(run) && !e.SendUpdate? {
      forall j | 0 <= j < |Updates(next)|
        ensures AckReceived(next, |next|, j)
      {
        assert AckReceived(run, |run|, j);
        AckStays(run, [e], |run|, j);
      }
    }
  }

  /** What happens while the producer waits: in whatever steps, the service is polled and others send requests. */
  method LetOthersRun(service: BlockHashNum, ghost update: nat)
    requires service.Valid() && !AckReceived(service.run, |service.run|, update)
    modifies service, service.cache
    ensures service.Valid() && !AckReceived(service.run, |service.run|, update)
    ensures old(service.run) <= service.run
    ensures forall x :: |old(service.run)| <= x < |service.run| ==> !service.run[x].SendUpdate?
  {
    var steps: nat := *;
    while steps > 0
      invariant service.Valid() && old(service.run) <= service.run
      invariant forall x :: 0 <= x < |service.run| ==> service.run[x] != ReceiveAck(update)
      invariant forall x :: |old(service.run)| <= x < |service.run| ==> !service.run[x].SendUpdate?
    {
      if * {
        var hash: H256 := *;
        var response := service.SendRequest(hash);
      } else if * {
        var response: nat := *;
        var answer := service.ReceiveReply(response);
      } else {
        var requestsReady: nat, updatesReady: nat := *, *;
        ghost var answered, applied := service.Poll(requestsReady, updatesReady);
      }
      steps := steps - 1;
    }
  }

  /** Waiting for an acknowledgement: it is received exactly when the update has been applied by then. */
  method AwaitAck(service: BlockHashNum, update: nat) returns (received: bool)
    requires service.Valid() && !AckReceived(service.run, |service.run|, update)
    modifies service, service.cache
    ensures service.Valid()
    ensures old(service.run) <= service.run
    ensures forall x :: |old(service.run)| <= x < |service.run| ==> !service.run[x].SendUpdate?
    ensures received <==> update < Applied(service.run)
    ensures received ==> AckReceived(service.run, |service.run|, update)
  {
    LetOthersRun(service, update);
    ghost var before := service.run;
    AcksExactly(before, update);
    received := service.ReceiveAck(update);
    if received {
      assert Past(service.run) == before && service.run[|before|] == ReceiveAck(update);
    } else {
      assert service.run == before;
    }
  }

  /** What is not applied has not been acknowledged. */
  lemma NotAckedYet(run: seq<Event>, j: nat)
    requires IsRun(run) && Applied(run) <= j
    ensures !AckReceived(run, |run|, j)
  {
    assert run[..|run|] == run;
    if q :| 0 <= q < |run| && run[q] == ReceiveAck(j) {
      AckedIsApplied(run, q, |run|, j);
    }
  }

  /** Send one block and wait for its acknowledgement. */
  method NewBlock(service: BlockHashNum, hash: H256, number: U64) returns (received: bool)
    requires service.Valid() && AwaitsEachAck(service.run) && AllAcked(service.run)
    modifies service, service.cache
    ensures service.Valid() && AwaitsEachAck(service.run)
    ensures Updates(service.run) == Updates(old(service.run)) + [(hash, number)]
    ensures received ==> AllAcked(service.run)
    ensures Applied(service.run) <= |Updates(service.run)|
    ensures received <==> Applied(service.run) == |Updates(service.run)|
  {
    ghost var before := service.run;
    ServiceInvariant(before);
    KeepsDiscipline(before, SendUpdate(hash, number));
    var response := service.SendUpdate(hash, number);
    ghost var sent := service.run;
    assert Past(sent) == before;
    NotAckedYet(sent, response);
    received := AwaitAck(service, response);
    assert service.run == sent + service.run[|sent|..];
    NoUpdateSent(sent, service.run[|sent|..]);
    ServiceInvariant(service.run);
    if received {
      AllAckedAgain(before, service.run, SendUpdate(hash, number), response);
    }
  }

  /**
   Forward a stream of blocks, one at a time. Whatever the others do meanwhile, the updates
   sent are the first blocks of the stream in order, and each was acknowledged before the
   next was sent.
   */
  method BlockSubscriptionManager(service: BlockHashNum, blocks: seq<Block>) returns (outcome: Outcome, sent: nat)
    requires service.Valid() && AwaitsEachAck(service.run) && AllAcked(service.run)
    modifies service, service.cache
    ensures service.Valid() && AwaitsEachAck(service.run)
    ensures sent <= |blocks| && forall i :: 0 <= i < sent ==> Mined(blocks[i])
    ensures Updates(service.run) == Updates(old(service.run)) + Puts(blocks[..sent])
    ensures outcome == StreamEnded ==> sent == |blocks| && AllAcked(service.run)
    ensures outcome == PendingBlock ==>
              sent < |blocks| && (blocks[sent].hash.None? || blocks[sent].number.None?) && AllAcked(service.run)
    ensures outcome == Waiting ==> sent > 0 && Applied(service.run) < |Updates(service.run)|
  {
    sent := 0;
    while sent < |blocks|
      invariant service.Valid() && AwaitsEachAck(service.run) && AllAcked(service.run)
      invariant sent <= |blocks| && forall i :: 0 <= i < sent ==> Mined(blocks[i])
      invariant Updates(service.run) == Updates(old(service.run)) + Puts(blocks[..sent])
    {
      var block := blocks[sent];
      if block.hash.None? || block.number.None? {
        return PendingBlock, sent;
      }
      PutsStep(blocks, sent);
      var received := NewBlock(service, block.hash.value, block.number.value);
      sent := sent + 1;
      if !received {
        return Waiting, sent;
      }
    }
    outcome := StreamEnded;
  }

  lemma PutsStep(blocks: seq<Block>, n: nat)
    requires n < |blocks| && forall i :: 0 <= i <= n ==> Mined(blocks[i])
    ensures Puts(blocks[..n + 1]) == Puts(blocks[..n]) + [Put(blocks[n])]
  {
  }

  lemma AllAckedAgain(before: seq<Event>, now: seq<Event>, e: Event, j: nat)
    requires IsRun(before) && AllAcked(before) && e.SendUpdate?
    requires j == |Updates(before)|
    requires before + [e] <= now && |Updates(now)| == j + 1
    requires AckReceived(now, |now|, j)
    ensures AllAcked(now)
  {
    forall i | 0 <= i < |Updates(now)|
      ensures AckReceived(now, |now|, i)
    {
      if i < j {
        assert AckReceived(before, |before|, i);
        AckStays(before, now[|before|..], |before|, i);
        assert now == before + now[|before|..];
      }
    }
  }
}
