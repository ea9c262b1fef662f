/**
 The block-hash service: one task owns the cache and drains two independent channels,
 membership requests and block updates, answering each message on its own one-shot
 channel. A one-shot channel is named by the position its message has in its channel.
 */
module BlockHashNums {
  import opened LruCaches
  import opened Sequences
  import opened Wrappers

  type H256 = x: int | 0 <= x < 0x1_0000000000000000_0000000000000000_0000000000000000_0000000000000000
  type U64 = x: int | 0 <= x < U64_END

  const U64_END: nat := 0x1_0000000000000000

  /** The capacity of the cache: the distance from the head, in blocks, at which a node stops counting as synced. */
  const SYNCED_THRESHOLD: nat := 100

  datatype HashRequest = HashRequest(hash: H256, response: nat)
  datatype BlockUpdate = BlockUpdate(hash: H256, number: U64, response: nat)

  type Puts = seq<(H256, U64)>

  datatype State = State(
    cache: Lru<H256, U64>,
    commandRx: seq<HashRequest>,
    blockSubscriptionRx: seq<BlockUpdate>,
    requests: nat,              // requests sent so far
    updates: nat,               // updates sent so far
    replies: map<nat, bool>,    // answers sent and not yet received
    acks: set<nat>)             // acknowledgements sent and not yet received

  datatype Event =
    | SendRequest(hash: H256)
    | SendUpdate(hash: H256, number: U64)
    | ProcessRequest
    | ProcessUpdate
    | ReceiveReply(request: nat, present: bool)
    | ReceiveAck(update: nat)

  function Init(): State {
    State(Empty(), [], [], 0, 0, map[], {})
  }

  predicate Enabled(s: State, e: Event)
  {
    match e
    case SendRequest(_) => true
    case SendUpdate(_, _) => true
    case ProcessRequest => s.commandRx != []
    case ProcessUpdate => s.blockSubscriptionRx != []
    case ReceiveReply(i, present) => i in s.replies && s.replies[i] == present
    case ReceiveAck(j) => j in s.acks
  }

  function Step(s: State, e: Event): State
    requires Enabled(s, e)
  {
    match e
    case SendRequest(hash) =>
      s.(commandRx := s.commandRx + [HashRequest(hash, s.requests)], requests := s.requests + 1)
    case SendUpdate(hash, number) =>
      s.(blockSubscriptionRx := s.blockSubscriptionRx + [BlockUpdate(hash, number, s.updates)],
         updates := s.updates + 1)
    case ProcessRequest =>
      var request := s.commandRx[0];
      s.(commandRx := s.commandRx[1..],
         replies := s.replies[request.response := request.hash in s.cache.entries])
    case ProcessUpdate =>
      var update := s.blockSubscriptionRx[0];
      s.(blockSubscriptionRx := s.blockSubscriptionRx[1..],
         cache := AfterPut(SYNCED_THRESHOLD, s.cache, update.hash, update.number),
         acks := s.acks + {update.response})
    case ReceiveReply(i, _) => s.(replies := s.replies - {i})
    case ReceiveAck(j) => s.(acks := s.acks - {j})
  }

  // ---------- runs ----------

  /** Some interleaving of every party's steps, from the empty service. */
  ghost predicate IsRun(run: seq<Event>)
    decreases |run|, 0
  {
    run == [] || (IsRun(Past(run)) && Enabled(After(Past(run)), Last(run)))
  }

  ghost function After(run: seq<Event>): State
    requires IsRun(run)
    decreases |run|, 1
  {
    if run == [] then Init() else Step(After(Past(run)), Last(run))
  }

  /** The updates sent in a run, in the order they entered their channel. */
  ghost function Updates(run: seq<Event>): Puts
  {
    if run == [] then []
    else
      match Last(run)
      case SendUpdate(hash, number) => Updates(Past(run)) + [(hash, number)]
      case _ => Updates(Past(run))
  }

  /** The hashes requested in a run, in the order they entered their channel. */
  ghost function Requests(run: seq<Event>): seq<H256>
  {
    if run == [] then []
    else
      match Last(run)
      case SendRequest(hash) => Requests(Past(run)) + [hash]
      case _ => Requests(Past(run))
  }

  /** How many updates the service has taken from its channel. */
  ghost function Applied(run: seq<Event>): nat
  {
    if run == [] then 0
    else Applied(Past(run)) + if Last(run).ProcessUpdate? then 1 else 0
  }

  /** For each request answered so far, how many updates the answer takes into account. */
  ghost function Prefixes(run: seq<Event>): seq<nat>
  {
    if run == [] then []
    else if Last(run).ProcessRequest? then Prefixes(Past(run)) + [Applied(Past(run))]
    else Prefixes(Past(run))
  }

  // ---------- what holds after every run ----------

  /** The request channel holds the requests sent and not yet answered, each with its own reply channel. */
  ghost predicate RequestsInOrder(sent: seq<H256>, answered: nat, s: State)
  {
    && s.requests == |sent| == answered + |s.commandRx|
    && (forall x :: 0 <= x < |s.commandRx| ==>
          s.commandRx[x] == HashRequest(sent[answered + x], answered + x))
  }

  /** The update channel holds the updates sent and not yet applied, each with its own reply channel. */
  ghost predicate UpdatesInOrder(sent: Puts, applied: nat, s: State)
  {
    && s.updates == |sent| == applied + |s.blockSubscriptionRx|
    && (forall x :: 0 <= x < |s.blockSubscriptionRx| ==>
          s.blockSubscriptionRx[x] == BlockUpdate(sent[applied + x].0, sent[applied + x].1, applied + x))
  }

  ghost predicate ChannelsInOrder(run: seq<Event>, s: State)
  {
    RequestsInOrder(Requests(run), |Prefixes(run)|, s) && UpdatesInOrder(Updates(run), Applied(run), s)
  }

  /** The answer that the first `k` updates give to a request. */
  ghost predicate Answer(run: seq<Event>, k: nat, i: nat)
    requires k <= |Updates(run)| && i < |Requests(run)|
  {
    Recent(SYNCED_THRESHOLD, Updates(run)[..k], Requests(run)[i])
  }

  ghost predicate AnswersExplained(run: seq<Event>, s: State)
    requires ChannelsInOrder(run, s)
  {
    && s.cache == TableAfter(SYNCED_THRESHOLD, Updates(run)[..Applied(run)])
    && (forall i :: 0 <= i < |Prefixes(run)| ==> Prefixes(run)[i] <= Applied(run))
    && (forall i :: i in s.replies ==>
          i < |Prefixes(run)| && s.replies[i] == Answer(run, Prefixes(run)[i], i))
    && (forall j :: j in s.acks ==> j < Applied(run))
  }

  lemma {:induction false} ServiceInvariant(run: seq<Event>)
    requires IsRun(run)
    ensures ChannelsInOrder(run, After(run)) && AnswersExplained(run, After(run))
  {
    if run != [] {
      ServiceInvariant(Past(run));
      ChannelStep(run);
      AnswerStep(run);
    }
  }

  lemma RequestChannelStep(sent: seq<H256>, answered: nat, s: State, e: Event)
    requires RequestsInOrder(sent, answered, s) && Enabled(s, e)
    ensures RequestsInOrder(
              if e.SendRequest? then sent + [e.hash] else sent,
              if e.ProcessRequest? then answered + 1 else answered, Step(s, e))
  {
  }

  lemma UpdateChannelStep(sent: Puts, applied: nat, s: State, e: Event)
    requires UpdatesInOrder(sent, applied, s) && Enabled(s, e)
    ensures UpdatesInOrder(
              if e.SendUpdate? then sent + [(e.hash, e.number)] else sent,
              if e.ProcessUpdate? then applied + 1 else applied, Step(s, e))
  {
  }

  lemma ChannelStep(run: seq<Event>)
    requires run != [] && IsRun(run) && ChannelsInOrder(Past(run), After(Past(run)))
    ensures ChannelsInOrder(run, After(run))
  {
    var past, s, e := Past(run), After(Past(run)), Last(run);
    RequestChannelStep(Requests(past), |Prefixes(past)|, s, e);
    UpdateChannelStep(Updates(past), Applied(past), s, e);
  }

  /** Answers already given do not change as more updates are sent. */
  lemma AnswersStay(run: seq<Event>, k: nat, i: nat)
    requires run != [] && k <= |Updates(Past(run))| && i < |Requests(Past(run))|
    ensures k <= |Updates(run)| && i < |Requests(run)|
    ensures Updates(run)[..k] == Updates(Past(run))[..k]
    ensures Answer(run, k, i) == Answer(Past(run), k, i)
  {
  }

  lemma CacheStep(run: seq<Event>)
    requires run != [] && IsRun(run) && ChannelsInOrder(Past(run), After(Past(run)))
    requires After(Past(run)).cache == TableAfter(SYNCED_THRESHOLD, Updates(Past(run))[..Applied(Past(run))])
    requires ChannelsInOrder(run, After(run))
    ensures After(run).cache == TableAfter(SYNCED_THRESHOLD, Updates(run)[..Applied(run)])
  {
    var past := Past(run);
    var applied := Updates(run)[..Applied(run)];
    if Last(run).ProcessUpdate? {
      assert applied[..|applied| - 1] == Updates(past)[..Applied(past)];
    } else {
      assert applied == Updates(past)[..Applied(past)];
    }
  }

  lemma AnswerStep(run: seq<Event>)
    requires run != [] && IsRun(run)
    requires ChannelsInOrder(Past(run), After(Past(run))) && AnswersExplained(Past(run), After(Past(run)))
    requires ChannelsInOrder(run, After(run))
    ensures AnswersExplained(run, After(run))
  {
    var past := Past(run);
    CacheStep(run);
    if Last(run).ProcessRequest? {
      HoldsExactlyTheRecent(SYNCED_THRESHOLD, Updates(past)[..Applied(past)]);
    }
    forall i | i in After(run).replies
      ensures i < |Prefixes(run)| && After(run).replies[i] == Answer(run, Prefixes(run)[i], i)
    {
      AnswersStay(run, Prefixes(run)[i], i);
    }
  }

  // ---------- linearizability ----------

  /** Every answer received is the membership after some prefix of the updates, and received once. */
  ghost predicate AnswersArePrefixes(run: seq<Event>, k: seq<nat>)
  {
    forall p, i, present :: 0 <= p < |run| && run[p] == ReceiveReply(i, present) ==>
      AnswerIsPrefix(run, k, p, i, present)
  }

  /** The prefix holds no update sent after the answer was received. */
  ghost predicate AnswerIsPrefix(run: seq<Event>, k: seq<nat>, p: nat, i: nat, present: bool)
    requires p < |run|
  {
    && i < |k| && i < |Requests(run)|
    && k[i] <= |Updates(run[..p])| <= |Updates(run)|
    && present == Answer(run, k[i], i)
  }

  /** The prefix holds every update acknowledged before the request was sent. */
  ghost predicate AcknowledgedAreSeen(run: seq<Event>, k: seq<nat>)
  {
    forall q, p, j :: 0 <= q < p < |run| && run[q] == ReceiveAck(j) && run[p].SendRequest? ==>
      AckIsSeen(run, k, p, j)
  }

  ghost predicate AckIsSeen(run: seq<Event>, k: seq<nat>, p: nat, j: nat)
    requires p < |run|
  {
    var i := |Requests(run[..p])|;
    i < |k| ==> j < k[i]
  }

  ghost predicate NonDecreasing(k: seq<nat>) {
    forall i, j :: 0 <= i <= j < |k| ==> k[i] <= k[j]
  }

  ghost predicate ReceivedAtMostOnce(run: seq<Event>) {
    forall p, q, i, a, b ::
      (0 <= p < |run| && 0 <= q < |run| && run[p] == ReceiveReply(i, a) && run[q] == ReceiveReply(i, b)) ==>
        p == q
  }

  /** One more enabled event. */
  lemma Extend(run: seq<Event>, e: Event)
    requires IsRun(run) && Enabled(After(run), e)
    ensures IsRun(run + [e]) && After(run + [e]) == Step(After(run), e)
  {
    assert Past(run + [e]) == run;
  }

  lemma PrefixIsRun(run: seq<Event>, n: nat)
    requires IsRun(run) && n <= |run|
    ensures IsRun(run[..n])
    decreases |run| - n
  {
    if n == |run| {
      assert run[..n] == run;
    } else {
      PrefixIsRun(run, n + 1);
      assert Past(run[..n + 1]) == run[..n];
    }
  }

  /** Every event of a run was enabled where it happened. */
  lemma EnabledAt(run: seq<Event>, p: nat)
    requires IsRun(run) && p < |run|
    ensures IsRun(run[..p]) && Enabled(After(run[..p]), run[p])
  {
    PrefixIsRun(run, p);
    PrefixIsRun(run, p + 1);
    assert Past(run[..p + 1]) == run[..p];
  }

  lemma {:induction false} GrowsWithRun(run: seq<Event>, n: nat)
    requires n <= |run|
    ensures Updates(run[..n]) <= Updates(run)
    ensures Requests(run[..n]) <= Requests(run)
    ensures Applied(run[..n]) <= Applied(run)
    ensures Prefixes(run[..n]) <= Prefixes(run)
    decreases |run|
  {
    if n == |run| {
      assert run[..n] == run;
    } else {
      GrowsWithRun(Past(run), n);
      assert Past(run)[..n] == run[..n];
    }
  }

  /** An acknowledgement received at some point is of an update applied by then. */
  lemma AckedIsApplied(run: seq<Event>, q: nat, p: nat, j: nat)
    requires IsRun(run) && q < p <= |run| && run[q] == ReceiveAck(j)
    ensures j < Applied(run[..p])
  {
    EnabledAt(run, q);
    ServiceInvariant(run[..q]);
    GrowsWithRun(run[..p], q);
    assert run[..p][..q] == run[..q];
  }

  lemma {:induction false} PrefixesAreMonotone(run: seq<Event>)
    requires IsRun(run)
    ensures NonDecreasing(Prefixes(run))
  {
    if run != [] {
      PrefixesAreMonotone(Past(run));
      ServiceInvariant(Past(run));
    }
  }

  lemma SameAnswer(run: seq<Event>, before: seq<Event>, k: nat, i: nat)
    requires Updates(before) <= Updates(run) && Requests(before) <= Requests(run)
    requires k <= |Updates(before)| && i < |Requests(before)|
    ensures Answer(run, k, i) == Answer(before, k, i)
  {
    assert Updates(run)[..k] == Updates(before)[..k];
  }

  /** What a reply received at `p` says, in terms of the whole run. */
  lemma ReplyIsPrefix(run: seq<Event>, p: nat, i: nat, present: bool)
    requires IsRun(run) && p < |run| && run[p] == ReceiveReply(i, present)
    ensures AnswerIsPrefix(run, Prefixes(run), p, i, present)
  {
    var before := run[..p];
    EnabledAt(run, p);
    ServiceInvariant(before);
    GrowsWithRun(run, p);
    SameAnswer(run, before, Prefixes(before)[i], i);
  }

  /** A request sent after some acknowledgements is answered with all of those updates applied. */
  lemma {:induction false} AckBeforeRequest(run: seq<Event>, q: nat, p: nat, j: nat)
    requires IsRun(run) && q < p < |run| && run[q] == ReceiveAck(j) && run[p].SendRequest?
    ensures AckIsSeen(run, Prefixes(run), p, j)
    decreases |run|
  {
    var past := Past(run);
    var i := |Requests(run[..p])|;
    if p < |past| {
      AckBeforeRequest(past, q, p, j);
      assert past[..p] == run[..p];
      if Last(run).ProcessRequest? && i == |Prefixes(past)| {
        AckedIsApplied(run, q, |past|, j);
      }
    } else {
      assert run[..p] == past;
      ServiceInvariant(past);
    }
  }

  /** A reply, once received, is never there again. */
  lemma {:induction false} ReceivedIsGone(run: seq<Event>, p: nat, i: nat, present: bool)
    requires IsRun(run) && p < |run| && run[p] == ReceiveReply(i, present)
    ensures i !in After(run).replies && i < |Prefixes(run)|
    decreases |run|
  {
    ServiceInvariant(Past(run));
    if p < |run| - 1 {
      ReceivedIsGone(Past(run), p, i, present);
    }
  }

  lemma RepliesAreReceivedOnce(run: seq<Event>)
    requires IsRun(run)
    ensures ReceivedAtMostOnce(run)
  {
    forall p, q, i, a, b | 0 <= p < q < |run| && run[p] == ReceiveReply(i, a) && run[q] == ReceiveReply(i, b)
      ensures false
    {
      EnabledAt(run, q);
      ReceivedIsGone(run[..q], p, i, a);
    }
  }

  /**
   Linearizability of the two channels: in every interleaving there is, for each answered
   request, a number of updates such that the answer is membership after exactly that many;
   it counts every update acknowledged before the request was sent and none sent after the
   answer was received; the numbers never decrease in request order; and no request is
   answered twice.
   */
  lemma Linearizable(run: seq<Event>)
    requires IsRun(run)
    ensures exists k: seq<nat> ::
              AnswersArePrefixes(run, k) && AcknowledgedAreSeen(run, k) && NonDecreasing(k)
    ensures ReceivedAtMostOnce(run)
  {
    var k := Prefixes(run);
    forall p, i, present | 0 <= p < |run| && run[p] == ReceiveReply(i, present)
      ensures AnswerIsPrefix(run, k, p, i, present)
    {
      ReplyIsPrefix(run, p, i, present);
    }
    forall q, p, j | 0 <= q < p < |run| && run[q] == ReceiveAck(j) && run[p].SendRequest?
      ensures AckIsSeen(run, k, p, j)
    {
      AckBeforeRequest(run, q, p, j);
    }
    PrefixesAreMonotone(run);
    RepliesAreReceivedOnce(run);
  }

  // ---------- no answer is lost ----------

  ghost predicate ReplyReceived(run: seq<Event>, i: nat) {
    exists p, present :: 0 <= p < |run| && run[p] == ReceiveReply(i, present)
  }

  lemma ReplyReceivedStep(run: seq<Event>, i: nat)
    requires run != []
    ensures ReplyReceived(run, i) <==>
            ReplyReceived(Past(run), i) || (Last(run).ReceiveReply? && Last(run).request == i)
  {
    var past := Past(run);
    if ReplyReceived(past, i) {
      var p, present :| 0 <= p < |past| && past[p] == ReceiveReply(i, present);
      assert run[p] == ReceiveReply(i, present);
    }
    if Last(run).ReceiveReply? && Last(run).request == i {
      assert run[|run| - 1] == ReceiveReply(i, Last(run).present);
    }
  }

  /** A reply waits for its requester exactly from the answer until it is received. */
  lemma {:induction false} RepliesExactly(run: seq<Event>, i: nat)
    requires IsRun(run)
    ensures i in After(run).replies <==> i < |Prefixes(run)| && !ReplyReceived(run, i)
  {
    if run != [] {
      RepliesExactly(Past(run), i);
      ReplyReceivedStep(run, i);
      ServiceInvariant(Past(run));
      if ReplyReceived(Past(run), i) {
        var p, present :| 0 <= p < |Past(run)| && Past(run)[p] == ReceiveReply(i, present);
        ReceivedIsGone(Past(run), p, i, present);
      }
    }
  }

  lemma AckReceivedStep(run: seq<Event>, j: nat)
    requires run != []
    ensures AckReceived(run, |run|, j) <==> AckReceived(Past(run), |run| - 1, j) || Last(run) == ReceiveAck(j)
  {
    var past := Past(run);
    if AckReceived(past, |past|, j) {
      var q :| 0 <= q < |past| && past[q] == ReceiveAck(j);
      assert run[q] == ReceiveAck(j);
    }
    if Last(run) == ReceiveAck(j) {
      assert run[|run| - 1] == ReceiveAck(j);
    }
  }

  /** An acknowledgement waits for the producer exactly from the update's application until it is received. */
  lemma {:induction false} AcksExactly(run: seq<Event>, j: nat)
    requires IsRun(run)
    ensures j in After(run).acks <==> j < Applied(run) && !AckReceived(run, |run|, j)
  {
    if run != [] {
      var past := Past(run);
      AcksExactly(past, j);
      AckReceivedStep(run, j);
      ServiceInvariant(past);
      if AckReceived(past, |past|, j) {
        var q :| 0 <= q < |past| && past[q] == ReceiveAck(j);
        AckedIsApplied(past, q, |past|, j);
        assert past[..|past|] == past;
      }
    }
  }

  // ---------- which updates a request is sure to see ----------

  /** The same event `n` times. */
  ghost function Times(e: Event, n: nat): (es: seq<Event>)
    ensures |es| == n && forall x :: 0 <= x < n ==> es[x] == e
  {
    seq(n, _ => e)
  }

  /** Answering requests leaves everything but the requests as it was. */
  lemma {:induction false} RequestsAnswered(run: seq<Event>, n: nat)
    requires IsRun(run) && n <= |After(run).commandRx|
    ensures var next := run + Times(ProcessRequest, n);
            && IsRun(next) && |After(next).commandRx| == |After(run).commandRx| - n
            && Updates(next) == Updates(run) && Requests(next) == Requests(run) && Applied(next) == Applied(run)
            && |Prefixes(next)| == |Prefixes(run)| + n
            && forall x :: |Prefixes(run)| <= x < |Prefixes(next)| ==> Prefixes(next)[x] == Applied(run)
    decreases n
  {
    if n == 0 {
      assert run + Times(ProcessRequest, n) == run;
    } else {
      RequestsAnswered(run, n - 1);
      var before := run + Times(ProcessRequest, n - 1);
      Extend(before, ProcessRequest);
      assert Past(before + [ProcessRequest]) == before;
      assert run + Times(ProcessRequest, n) == before + [ProcessRequest];
    }
  }

  /** Answering the only request that waits. */
  lemma LastRequestAnswered(run: seq<Event>)
    requires IsRun(run) && |After(run).commandRx| == 1
    ensures var next, i := run + [ProcessRequest], |Prefixes(run)|;
            && IsRun(next) && Updates(next) == Updates(run) && Requests(next) == Requests(run)
            && Applied(run) <= |Updates(run)| && |Requests(run)| == i + 1
            && Prefixes(next) == Prefixes(run) + [Applied(run)]
            && i in After(next).replies
            && After(next).replies[i] == Answer(run, Applied(run), i)
  {
    var next := run + [ProcessRequest];
    ServiceInvariant(run);
    Extend(run, ProcessRequest);
    assert Past(next) == run;
    assert After(run).commandRx[0].response == |Prefixes(run)|;
    ServiceInvariant(next);
  }

  /** One way for a run to go on: a request is sent and answered before any further update is applied. */
  ghost function AnsweredNext(run: seq<Event>, hash: H256): seq<Event>
    requires IsRun(run)
  {
    run + [SendRequest(hash)] + Times(ProcessRequest, |After(run).commandRx|) + [ProcessRequest]
  }

  /** The answer is then the membership after exactly the updates applied by now. */
  lemma AnsweredFromApplied(run: seq<Event>, hash: H256)
    requires IsRun(run)
    ensures Applied(run) <= |Updates(run)|
    ensures var next, i := AnsweredNext(run, hash), |Requests(run)|;
            && IsRun(next) && Updates(next) == Updates(run) && Requests(next) == Requests(run) + [hash]
            && i < |Prefixes(next)| && Prefixes(next)[i] == Applied(run)
            && i in After(next).replies
            && After(next).replies[i] == Recent(SYNCED_THRESHOLD, Updates(run)[..Applied(run)], hash)
  {
    var sent, n := run + [SendRequest(hash)], |After(run).commandRx|;
    ServiceInvariant(run);
    Extend(run, SendRequest(hash));
    assert Past(sent) == run;
    RequestsAnswered(sent, n);
    var before := sent + Times(ProcessRequest, n);
    LastRequestAnswered(before);
    assert |Requests(before)| == |Requests(run)| + 1 && |Prefixes(before)| == |Requests(run)|;
    assert Updates(before) == Updates(run) && Applied(before) == Applied(run);
    assert Requests(before)[|Requests(run)|] == hash;
  }

  /** However the run goes on from a request sent now, its answer takes update `j` into account. */
  ghost predicate SureToCount(run: seq<Event>, hash: H256, j: nat)
  {
    forall more :: IsRun(run + [SendRequest(hash)] + more) ==>
      CountsUpdate(run + [SendRequest(hash)] + more, |Requests(run)|, j)
  }

  ghost predicate CountsUpdate(run: seq<Event>, i: nat, j: nat) {
    i < |Prefixes(run)| ==> j < Prefixes(run)[i]
  }

  /** A request sent after some updates were applied counts all of them. */
  lemma {:induction false} AppliedIsCounted(run: seq<Event>, n: nat, i: nat, j: nat)
    requires IsRun(run) && n <= |run| && IsRun(run[..n])
    requires |Requests(run[..n])| <= i && j < Applied(run[..n])
    ensures CountsUpdate(run, i, j)
    decreases |run|
  {
    if n == |run| {
      assert run[..n] == run;
      ServiceInvariant(run);
    } else {
      assert Past(run)[..n] == run[..n];
      AppliedIsCounted(Past(run), n, i, j);
      GrowsWithRun(run, n);
      GrowsWithRun(Past(run), n);
    }
  }

  /**
   A request sent now is sure to count an update exactly when that update has been applied,
   which its acknowledgement shows.
   */
  lemma SureExactlyWhenApplied(run: seq<Event>, hash: H256, j: nat)
    requires IsRun(run)
    ensures SureToCount(run, hash, j) <==> j < Applied(run)
  {
    var sent := run + [SendRequest(hash)];
    if j < Applied(run) {
      forall more | IsRun(sent + more)
        ensures CountsUpdate(sent + more, |Requests(run)|, j)
      {
        assert (sent + more)[..|run|] == run;
        AppliedIsCounted(sent + more, |run|, |Requests(run)|, j);
      }
    } else {
      AnsweredFromApplied(run, hash);
      var more := Times(ProcessRequest, |After(run).commandRx|) + [ProcessRequest];
      assert AnsweredNext(run, hash) == sent + more;
      assert !CountsUpdate(AnsweredNext(run, hash), |Requests(run)|, j);
    }
  }

  /**
   An update not yet applied, and so not acknowledged, can be missed: unless its hash is
   recent already, every run can go on so that a request sent now receives "absent".
   */
  lemma UnacknowledgedMayBeMissed(run: seq<Event>, j: nat)
    requires IsRun(run) && Applied(run) <= j < |Updates(run)|
    requires !Recent(SYNCED_THRESHOLD, Updates(run)[..Applied(run)], Updates(run)[j].0)
    ensures IsRun(AnsweredNext(run, Updates(run)[j].0) + [ReceiveReply(|Requests(run)|, false)])
  {
    AnsweredFromApplied(run, Updates(run)[j].0);
    Extend(AnsweredNext(run, Updates(run)[j].0), ReceiveReply(|Requests(run)|, false));
  }

  // ---------- the producer that waits for each acknowledgement ----------

  /** An update is sent only when every earlier one has been acknowledged. */
  ghost predicate AwaitsEachAck(run: seq<Event>)
  {
    forall p, j :: 0 <= p < |run| && run[p].SendUpdate? && 0 <= j < |Updates(run[..p])| ==>
      AckReceived(run, p, j)
  }

  ghost predicate AckReceived(run: seq<Event>, p: nat, j: nat)
    requires p <= |run|
  {
    exists q :: 0 <= q < p && run[q] == ReceiveAck(j)
  }

  /** The position at which update `j` was sent. */
  lemma {:induction false} SentAt(run: seq<Event>, j: nat) returns (p: nat)
    requires j < |Updates(run)|
    ensures p < |run| && run[p].SendUpdate? && |Updates(run[..p])| == j
    decreases |run|
  {
    if j < |Updates(Past(run))| {
      p := SentAt(Past(run), j);
      assert Past(run)[..p] == run[..p];
    } else {
      p := |run| - 1;
    }
  }

  /**
   With that producer an answer misses at most the one update that was in flight when
   its request was sent.
   */
  lemma AnswerMissesAtMostOne(run: seq<Event>, p: nat)
    requires IsRun(run) && AwaitsEachAck(run)
    requires p < |run| && run[p].SendRequest? && |Requests(run[..p])| < |Prefixes(run)|
    ensures Prefixes(run)[|Requests(run[..p])|] + 1 >= |Updates(run[..p])|
  {
    var n := |Updates(run[..p])|;
    if n >= 2 {
      var last := SentAt(run[..p], n - 1);
      assert run[..p][..last] == run[..last];
      assert AckReceived(run, last, n - 2);
      var q :| 0 <= q < last && run[q] == ReceiveAck(n - 2);
      AckBeforeRequest(run, q, p, n - 2);
    }
  }

  // ---------- the service itself ----------

  function Min(a: nat, b: nat): nat {
    if a < b then a else b
  }

  /** The service. Its run is every step that every party has taken on it so far. */
  class BlockHashNum {
    const cache: LruCache<H256, U64>
    var commandRx: seq<HashRequest>
    var blockSubscriptionRx: seq<BlockUpdate>
    var requests: nat
    var updates: nat
    var replies: map<nat, bool>
    var acks: set<nat>
    ghost var run: seq<Event>

    ghost function Current(): State
      reads this, cache
    {
      State(cache.Table(), commandRx, blockSubscriptionRx, requests, updates, replies, acks)
    }

    ghost predicate Valid()
      reads this, cache
    {
      && cache.Valid() && cache.capacity == SYNCED_THRESHOLD
      && IsRun(run) && Current() == After(run)
    }

    constructor ()
      ensures Valid() && run == [] && fresh(cache)
    {
      cache := new LruCache(SYNCED_THRESHOLD);
      commandRx, blockSubscriptionRx := [], [];
      requests, updates := 0, 0;
      replies, acks := map[], {};
      run := [];
    }

    /** The sending half of a membership request. */
    method SendRequest(hash: H256) returns (response: nat)
      requires Valid()
      modifies this
      ensures Valid() && run == old(run) + [Event.SendRequest(hash)] && response == old(requests)
    {
      Extend(run, Event.SendRequest(hash));
      response := requests;
      commandRx := commandRx + [HashRequest(hash, response)];
      requests := requests + 1;
      run := run + [Event.SendRequest(hash)];
    }

    /** The sending half of a block update. */
    method SendUpdate(hash: H256, number: U64) returns (response: nat)
      requires Valid()
      modifies this
      ensures Valid() && run == old(run) + [Event.SendUpdate(hash, number)] && response == old(updates)
    {
      Extend(run, Event.SendUpdate(hash, number));
      response := updates;
      blockSubscriptionRx := blockSubscriptionRx + [BlockUpdate(hash, number, response)];
      updates := updates + 1;
      run := run + [Event.SendUpdate(hash, number)];
    }

    /** The receiving half of a membership request: the answer, if it is there. */
    method ReceiveReply(request: nat) returns (answer: Option<bool>)
      requires Valid()
      modifies this
      ensures Valid()
      ensures answer.Some? <==> request in old(replies)
      ensures run == old(run) + if answer.Some? then [Event.ReceiveReply(request, answer.value)] else []
    {
      if request in replies {
        answer := Some(replies[request]);
        Extend(run, Event.ReceiveReply(request, answer.value));
        replies := replies - {request};
        run := run + [Event.ReceiveReply(request, answer.value)];
      } else {
        answer := None;
      }
    }

    /** The receiving half of a block update: whether the acknowledgement is there. */
    method ReceiveAck(update: nat) returns (received: bool)
      requires Valid()
      modifies this
      ensures Valid()
      ensures received <==> update in old(acks)
      ensures run == old(run) + if received then [Event.ReceiveAck(update)] else []
    {
      received := update in acks;
      if received {
        Extend(run, Event.ReceiveAck(update));
        acks := acks - {update};
        run := run + [Event.ReceiveAck(update)];
      }
    }

    /** Take one request and answer it; a requester that is gone does not matter. */
    method AnswerOne()
      requires Valid() && commandRx != []
      modifies this
      ensures Valid() && run == old(run) + [ProcessRequest]
      ensures |commandRx| == |old(commandRx)| - 1 && blockSubscriptionRx == old(blockSubscriptionRx)
    {
      Extend(run, ProcessRequest);
      var HashRequest(hash, response) := commandRx[0];
      commandRx := commandRx[1..];
      var isPresent := cache.Contains(hash);
      replies := replies[response := isPresent];
      run := run + [ProcessRequest];
    }

    /** Take one update, put it in the cache and acknowledge it. */
    method ApplyOne()
      requires Valid() && blockSubscriptionRx != []
      modifies this, cache
      ensures Valid() && run == old(run) + [ProcessUpdate]
      ensures |blockSubscriptionRx| == |old(blockSubscriptionRx)| - 1
    {
      Extend(run, ProcessUpdate);
      var BlockUpdate(hash, number, response) := blockSubscriptionRx[0];
      blockSubscriptionRx := blockSubscriptionRx[1..];
      cache.Put(hash, number);
      acks := acks + {response};
      run := run + [ProcessUpdate];
    }

    /**
     One poll of the service: requests are answered while there are any and their channel
     reports them ready, then updates are applied likewise. A channel may report that it is not
     ready before it is empty: `requestsReady` and `updatesReady` say how often each reports ready.
     */
    method Poll(requestsReady: nat, updatesReady: nat) returns (ghost answered: nat, ghost applied: nat)
      requires Valid()
      modifies this, cache
      ensures Valid()
      ensures answered == Min(requestsReady, |old(commandRx)|)
      ensures applied == Min(updatesReady, |old(blockSubscriptionRx)|)
      ensures run == old(run) + Times(ProcessRequest, answered) + Times(ProcessUpdate, applied)
    {
      answered, applied := 0, 0;
      var ready := requestsReady;
      while ready > 0 && commandRx != []
        invariant Valid() && run == old(run) + Times(ProcessRequest, answered)
        invariant answered + ready == requestsReady && answered + |commandRx| == |old(commandRx)|
        invariant blockSubscriptionRx == old(blockSubscriptionRx)
      {
        AnswerOne();
        ready, answered := ready - 1, answered + 1;
      }
      ghost var middle := run;
      ready := updatesReady;
      while ready > 0 && blockSubscriptionRx != []
        invariant Valid() && run == middle + Times(ProcessUpdate, applied)
        invariant applied + ready == updatesReady && applied + |blockSubscriptionRx| == |old(blockSubscriptionRx)|
      {
        ApplyOne();
        ready, applied := ready - 1, applied + 1;
      }
    }
  }
}
