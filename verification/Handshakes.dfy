/**
 The handshake tasks of the listener. Every discovered peer gets a task of its own; the
 tasks share the failure counts and the ban list, and any task may run between two steps
 of another. A task reads its peer's count, waits for the handshake, and only then writes
 the count back.
 */
module Handshakes {
  import opened Wrappers
  import opened Peers
  import opened ClientVersion
  import opened Sequences

  type PeerId = nat
  type IpAddr = nat

  /** How a node's id, address and whole record are displayed. */
  datatype NodeText = NodeText(id: string, address: string, enodeUrl: string)

  datatype NodeRecord = NodeRecord(id: PeerId, address: IpAddr, tcpPort: U16, text: NodeText)

  /** What the peer says of itself in the p2p handshake. */
  datatype Hello = Hello(clientVersion: string, capabilities: seq<string>)

  /** What the peer says of its chain in the eth handshake. */
  datatype Status = Status(
    chain: string, totalDifficulty: string, bestBlock: string, genesisBlockHash: string, ethVersion: U8)

  /** What the crawler itself finds out when it saves a peer: the time, the place and whether it is synced. */
  datatype Observed = Observed(lastSeen: string, country: string, city: string, isp: string, synced: Option<bool>)

  /** The failure count at which a peer is banned. */
  const P2P_FAILURE_THRESHOLD: nat := 5

  datatype P2pResult = Connected(hello: Hello) | TooManyPeers | Failed

  datatype Phase =
    | Starting
    | Counting(count: nat)            // count read, waiting for the p2p handshake
    | Banning                         // address banned, count not yet reset
    | AwaitingEth(hello: Hello)
    | Saving(hello: Hello, status: Status)
    | Finished

  /** A task, for a discovered peer or for an inbound session. */
  datatype Task = Task(peer: NodeRecord, discovered: bool, phase: Phase)

  type Counts = map<PeerId, nat>

  datatype State = State(
    tasks: seq<Task>,
    p2pFailures: Counts,
    banned: set<IpAddr>,
    saved: seq<PeerData>)

  datatype Event =
    | Discover(peer: NodeRecord)
    | Session(peer: NodeRecord, hello: Hello, status: Status)
    | ReadCount(task: nat)
    | P2pDone(task: nat, result: P2pResult)
    | ResetCount(task: nat)
    | EthDone(task: nat, answer: Option<Status>)
    | Save(task: nat, seen: Observed)

  const INIT: State := State([], map[], {}, [])

  function Stored(counts: Counts, id: PeerId): nat {
    if id in counts then counts[id] else 0
  }

  /** What the end of a p2p handshake does to the counts, the bans and its task. */
  function AfterP2p(counts: Counts, banned: set<IpAddr>, peer: NodeRecord, count: nat, result: P2pResult)
    : (Counts, set<IpAddr>, Phase)
  {
    match result
    case Connected(hello) => (counts, banned, AwaitingEth(hello))
    case TooManyPeers => (counts, banned, Finished)
    case Failed =>
      if count + 1 >= P2P_FAILURE_THRESHOLD
      then (counts, banned + {peer.address}, Banning)
      else (counts[peer.id := count + 1], banned, Finished)
  }

  /** What the end of an eth handshake does to the bans and its task. */
  function AfterEth(banned: set<IpAddr>, peer: NodeRecord, hello: Hello, answer: Option<Status>)
    : (set<IpAddr>, Phase)
  {
    if answer.None? || hello.clientVersion == "" then (banned + {peer.address}, Finished)
    else (banned, Saving(hello, answer.value))
  }

  /** The record kept of a peer. */
  function ToPeerData(peer: NodeRecord, hello: Hello, status: Status, seen: Observed): PeerData
  {
    var client := SplitVersion(hello.clientVersion);
    PeerData(
      peer.text.enodeUrl, peer.text.id, peer.text.address, peer.tcpPort,
      client.name, client.version, client.build, client.arch, client.os, client.language,
      status.ethVersion, hello.capabilities,
      status.chain, status.totalDifficulty, status.bestBlock, status.genesisBlockHash,
      seen.lastSeen, seen.country, seen.city, seen.synced, seen.isp)
  }

  /** The client fields of a record. */
  function ClientOf(r: PeerData): Fields {
    Fields(r.clientName, r.clientVersion, r.clientBuild, r.clientArch, r.os, r.clientLanguage)
  }

  /** The record says what its peer said of itself and what was seen of it, each under its own name. */
  ghost predicate Records(r: PeerData, peer: NodeRecord, hello: Hello, status: Status, seen: Observed) {
    && NodeText(r.id, r.address, r.enodeUrl) == peer.text && r.tcpPort == peer.tcpPort
    && Describes(ClientOf(r), hello.clientVersion) && r.capabilities == hello.capabilities
    && Status(r.chain, r.totalDifficulty, r.bestBlock, r.genesisBlockHash, r.ethVersion) == status
    && Observed(r.lastSeen, r.country, r.city, r.isp, r.synced) == seen
  }

  /** The record kept is the one that says so, all 21 fields of it. */
  lemma RecordExactly(r: PeerData, peer: NodeRecord, hello: Hello, status: Status, seen: Observed)
    ensures r == ToPeerData(peer, hello, status, seen) <==> Records(r, peer, hello, status, seen)
  {
    SplitExactly(hello.clientVersion, ClientOf(r));
  }

  predicate Enabled(s: State, e: Event)
  {
    match e
    case Discover(_) => true
    case Session(_, _, _) => true
    case ReadCount(t) => t < |s.tasks| && s.tasks[t].phase.Starting?
    case P2pDone(t, _) => t < |s.tasks| && s.tasks[t].phase.Counting?
    case ResetCount(t) => t < |s.tasks| && s.tasks[t].phase.Banning?
    case EthDone(t, _) => t < |s.tasks| && s.tasks[t].phase.AwaitingEth?
    case Save(t, _) => t < |s.tasks| && s.tasks[t].phase.Saving?
  }

  function WithPhase(s: State, t: nat, phase: Phase): seq<Task>
    requires t < |s.tasks|
  {
    s.tasks[t := s.tasks[t].(phase := phase)]
  }

  function Step(s: State, e: Event): State
    requires Enabled(s, e)
  {
    match e
    case Discover(peer) => s.(tasks := s.tasks + [Task(peer, true, Starting)])
    case Session(peer, hello, status) =>
      s.(tasks := s.tasks + [Task(peer, false, if hello.clientVersion == "" then Finished else Saving(hello, status))])
    case ReadCount(t) =>
      s.(tasks := WithPhase(s, t, Counting(Stored(s.p2pFailures, s.tasks[t].peer.id))))
    case P2pDone(t, result) =>
      var (counts, banned, phase) :=
        AfterP2p(s.p2pFailures, s.banned, s.tasks[t].peer, s.tasks[t].phase.count, result);
      s.(tasks := WithPhase(s, t, phase), p2pFailures := counts, banned := banned)
    case ResetCount(t) =>
      s.(tasks := WithPhase(s, t, Finished), p2pFailures := s.p2pFailures[s.tasks[t].peer.id := 0])
    case EthDone(t, answer) =>
      var (banned, phase) := AfterEth(s.banned, s.tasks[t].peer, s.tasks[t].phase.hello, answer);
      s.(tasks := WithPhase(s, t, phase), banned := banned)
    case Save(t, seen) =>
      s.(tasks := WithPhase(s, t, Finished),
         saved := s.saved + [ToPeerData(s.tasks[t].peer, s.tasks[t].phase.hello, s.tasks[t].phase.status, seen)])
  }

  // ---------- runs ----------

  ghost predicate IsRun(run: seq<Event>)
    decreases |run|, 0
  {
    run == [] || (IsRun(Past(run)) && Enabled(After(Past(run)), Last(run)))
  }

  ghost function After(run: seq<Event>): State
    requires IsRun(run)
    decreases |run|, 1
  {
    if run == [] then INIT else Step(After(Past(run)), Last(run))
  }

  lemma PrefixIsRun(run: seq<Event>, n: nat)
    requires IsRun(run) && n <= |run|
    ensures IsRun(run[..n])
    decreases |run| - n
  {
    if n == |run| {
      assert run[..n] == run;
    } else {
      PrefixIsRun(run, n + 1);
      assert Past(run[..n + 1]) == run[..n];
    }
  }

  lemma EnabledAt(run: seq<Event>, p: nat)
    requires IsRun(run) && p < |run|
    ensures IsRun(run[..p]) && Enabled(After(run[..p]), run[p])
    ensures IsRun(run[..p + 1]) && After(run[..p + 1]) == Step(After(run[..p]), run[p])
  {
    PrefixIsRun(run, p);
    PrefixIsRun(run, p + 1);
    assert Past(run[..p + 1]) == run[..p];
  }

  /** No step changes whose a task is, or makes it start again. */
  lemma StepKeepsTask(s: State, e: Event, t: nat)
    requires Enabled(s, e) && t < |s.tasks|
    ensures t < |Step(s, e).tasks|
    ensures Step(s, e).tasks[t].peer == s.tasks[t].peer
    ensures Step(s, e).tasks[t].discovered == s.tasks[t].discovered
    ensures Step(s, e).tasks[t].phase.Starting? ==> s.tasks[t].phase.Starting? && e != ReadCount(t)
  {
  }

  /** The event is a counted p2p failure of that peer. */
  ghost predicate IsFailure(s: State, e: Event, id: PeerId)
    requires Enabled(s, e)
  {
    e.P2pDone? && e.result.Failed? && s.tasks[e.task].peer.id == id
  }

  /** The event bans that peer for failing too often. */
  ghost predicate IsThresholdBan(s: State, e: Event, id: PeerId)
    requires Enabled(s, e)
  {
    IsFailure(s, e, id) && s.tasks[e.task].phase.count + 1 >= P2P_FAILURE_THRESHOLD
  }

  /** One more enabled event. */
  lemma Extend(run: seq<Event>, e: Event) returns (next: seq<Event>)
    requires IsRun(run) && Enabled(After(run), e)
    ensures next == run + [e] && Past(next) == run && Last(next) == e
    ensures IsRun(next) && After(next) == Step(After(run), e)
  {
    next := run + [e];
    assert Past(next) == run;
  }

  // ---------- the counts stay below the threshold ----------

  ghost predicate CountsBelowThreshold(s: State) {
    && (forall id :: id in s.p2pFailures ==> s.p2pFailures[id] < P2P_FAILURE_THRESHOLD)
    && (forall t :: 0 <= t < |s.tasks| && s.tasks[t].phase.Counting? ==>
          s.tasks[t].phase.count < P2P_FAILURE_THRESHOLD)
  }

  lemma StepKeepsCountsBelow(s: State, e: Event)
    requires Enabled(s, e) && CountsBelowThreshold(s)
    ensures CountsBelowThreshold(Step(s, e))
  {
  }

  /**
   No stored count and no count a task has read ever reaches the threshold, so a task's own
   count never exceeds it and a ban happens at exactly the threshold.
   */
  lemma {:induction false} CountsStayBelowThreshold(run: seq<Event>)
    requires IsRun(run)
    ensures CountsBelowThreshold(After(run))
  {
    if run != [] {
      CountsStayBelowThreshold(Past(run));
      StepKeepsCountsBelow(After(Past(run)), Last(run));
    }
  }
}
