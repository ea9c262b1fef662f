/** The listener that spawns the tasks and holds the state they share. */
module UpdateListeners {
  import opened ClientVersion
  import opened Handshakes
  import opened Peers
  import opened Wrappers

  /** The listener: the tasks it has spawned and the state they share. */
  class UpdateListener {
    var tasks: seq<Task>
    var p2pFailures: Counts
    var banned: set<IpAddr>
    var saved: seq<PeerData>
    ghost var run: seq<Event>

    ghost function Current(): State
      reads this
    {
      State(tasks, p2pFailures, banned, saved)
    }

    ghost predicate Valid()
      reads this
    {
      IsRun(run) && Current() == After(run)
    }

    constructor ()
      ensures Valid() && run == []
    {
      tasks, p2pFailures, banned, saved := [], map[], {}, [];
      run := [];
    }

    method StartDiscovered(peer: NodeRecord) returns (t: nat)
      requires Valid()
      modifies this
      ensures Valid() && run == old(run) + [Discover(peer)]
      ensures Current() == Step(old(Current()), Discover(peer))
      ensures t == |old(tasks)| && t < |tasks| && tasks[t] == Task(peer, true, Starting)
    {
      ghost var next := Extend(run, Discover(peer));
      t := |tasks|;
      tasks := tasks + [Task(peer, true, Starting)];
      run := next;
    }

    method StartSession(peer: NodeRecord, hello: Hello, status: Status)
      requires Valid()
      modifies this
      ensures Valid() && run == old(run) + [Session(peer, hello, status)]
      ensures tasks == old(tasks) +
              [Task(peer, false, if hello.clientVersion == "" then Finished else Saving(hello, status))]
      ensures p2pFailures == old(p2pFailures) && banned == old(banned) && saved == old(saved)
    {
      ghost var next := Extend(run, Session(peer, hello, status));
      if hello.clientVersion == "" {
        tasks := tasks + [Task(peer, false, Finished)];
      } else {
        tasks := tasks + [Task(peer, false, Saving(hello, status))];
      }
      run := next;
    }

    /** The handshake's first part, up to the wait: read the count under the read lock. */
    method ReadFailureCount(t: nat)
      requires Valid() && t < |tasks| && tasks[t].phase.Starting?
      modifies this
      ensures Valid() && run == old(run) + [ReadCount(t)]
      ensures Current() == Step(old(Current()), ReadCount(t))
    {
      ghost var next := Extend(run, ReadCount(t));
      var id := tasks[t].peer.id;
      var count := if id in p2pFailures then p2pFailures[id] else 0;
      tasks := tasks[t := tasks[t].(phase := Counting(count))];
      run := next;
    }

    /** Its second part, after the wait: count the failure, or ban. */
    method FinishP2p(t: nat, result: P2pResult)
      requires Valid() && t < |tasks| && tasks[t].phase.Counting?
      modifies this
      ensures Valid() && run == old(run) + [P2pDone(t, result)]
      ensures Current() == Step(old(Current()), P2pDone(t, result))
    {
      ghost var next := Extend(run, P2pDone(t, result));
      var peer := tasks[t].peer;
      var p2pFailureCount := tasks[t].phase.count;
      var phase: Phase;
      match result {
        case Connected(hello) =>
          phase := AwaitingEth(hello);
        case TooManyPeers =>
          phase := Finished;
        case Failed =>
          p2pFailureCount := p2pFailureCount + 1;
          if p2pFailureCount >= P2P_FAILURE_THRESHOLD {
            banned := banned + {peer.address};
            phase := Banning;
          } else {
            p2pFailures := p2pFailures[peer.id := p2pFailureCount];
            phase := Finished;
          }
      }
      tasks := tasks[t := tasks[t].(phase := phase)];
      run := next;
    }

    /** Its last part after a ban: reset the count under the write lock. */
    method ResetFailureCount(t: nat)
      requires Valid() && t < |tasks| && tasks[t].phase.Banning?
      modifies this
      ensures Valid() && run == old(run) + [ResetCount(t)]
      ensures Current() == Step(old(Current()), ResetCount(t))
    {
      ghost var next := Extend(run, ResetCount(t));
      p2pFailures := p2pFailures[tasks[t].peer.id := 0];
      tasks := tasks[t := tasks[t].(phase := Finished)];
      run := next;
    }

    method FinishEth(t: nat, answer: Option<Status>)
      requires Valid() && t < |tasks| && tasks[t].phase.AwaitingEth?
      modifies this
      ensures Valid() && run == old(run) + [EthDone(t, answer)]
      ensures Current() == Step(old(Current()), EthDone(t, answer))
    {
      ghost var next := Extend(run, EthDone(t, answer));
      var peer, hello := tasks[t].peer, tasks[t].phase.hello;
      var phase := Finished;
      if answer.None? {
        banned := banned + {peer.address};
      } else if hello.clientVersion == "" {
        banned := banned + {peer.address};
      } else {
        phase := Saving(hello, answer.value);
      }
      tasks := tasks[t := tasks[t].(phase := phase)];
      run := next;
    }

    /** Put together what the peer said and what is seen of it now, and store it. */
    method SavePeer(t: nat, seen: Observed)
      requires Valid() && t < |tasks| && tasks[t].phase.Saving?
      modifies this
      ensures Valid() && run == old(run) + [Save(t, seen)]
      ensures |saved| == |old(saved)| + 1 && saved[..|old(saved)|] == old(saved)
      ensures var task := old(tasks[t]);
              Records(saved[|old(saved)|], task.peer, task.phase.hello, task.phase.status, seen)
      ensures tasks == old(tasks)[t := old(tasks[t]).(phase := Finished)]
      ensures p2pFailures == old(p2pFailures) && banned == old(banned)
    {
      ghost var next := Extend(run, Save(t, seen));
      var peer, hello, status := tasks[t].peer, tasks[t].phase.hello, tasks[t].phase.status;
      var Fields(name, version, build, arch, os, language) := SplitVersion(hello.clientVersion);
      var peerData := PeerData(
        peer.text.enodeUrl, peer.text.id, peer.text.address, peer.tcpPort,
        name, version, build, arch, os, language,
        status.ethVersion, hello.capabilities,
        status.chain, status.totalDifficulty, status.bestBlock, status.genesisBlockHash,
        seen.lastSeen, seen.country, seen.city, seen.synced, seen.isp);
      RecordExactly(peerData, peer, hello, status, seen);
      saved := saved + [peerData];
      tasks := tasks[t := tasks[t].(phase := Finished)];
      run := next;
    }

    /**
     A whole p2p handshake that nothing interrupts: a failure moves the stored count one step
     round a cycle of five, and bans when the step comes back to zero.
     */
    method HandshakeP2pHandle(t: nat, result: P2pResult) returns (theirHello: Option<Hello>)
      requires Valid() && t < |tasks| && tasks[t].phase.Starting?
      modifies this
      ensures Valid() && |tasks| == |old(tasks)| && tasks[t].peer == old(tasks[t].peer) && saved == old(saved)
      ensures result.Connected? ==> tasks[t].phase == AwaitingEth(result.hello)
      ensures theirHello == if result.Connected? then Some(result.hello) else None
      ensures result.Failed? ==>
                var id, before := tasks[t].peer.id, Stored(old(p2pFailures), tasks[t].peer.id);
                && p2pFailures == old(p2pFailures)[id := (before + 1) % 5]
                && banned == old(banned) + if before == 4 then {tasks[t].peer.address} else {}
      ensures !result.Failed? ==> p2pFailures == old(p2pFailures) && banned == old(banned)
    {
      CountsStayBelowThreshold(run);
      ReadFailureCount(t);
      FinishP2p(t, result);
      if tasks[t].phase.Banning? {
        ResetFailureCount(t);
      }
      theirHello := if result.Connected? then Some(result.hello) else None;
    }

    /** The rest of a task whose p2p handshake succeeded, when nothing interrupts it. */
    method HandshakeEthAndSave(t: nat, eth: Option<Status>, seen: Observed)
      requires Valid() && t < |tasks| && tasks[t].phase.AwaitingEth?
      modifies this
      ensures Valid()
      ensures var peer, hello := old(tasks[t].peer), old(tasks[t].phase.hello);
              if eth.Some? && hello.clientVersion != ""
              then
                && |saved| == |old(saved)| + 1 && saved[..|old(saved)|] == old(saved)
                && Records(saved[|old(saved)|], peer, hello, eth.value, seen)
                && banned == old(banned)
              else saved == old(saved) && banned == old(banned) + {peer.address}
    {
      FinishEth(t, eth);
      if tasks[t].phase.Saving? {
        SavePeer(t, seen);
      }
    }

    /**
     A whole task that nothing interrupts. The peer is saved, once, exactly when both
     handshakes succeed and the version is not empty; otherwise at most its address is banned.
     */
    method HandshakeAndSavePeer(peer: NodeRecord, p2p: P2pResult, eth: Option<Status>, seen: Observed)
      requires Valid()
      modifies this
      ensures Valid()
      ensures var good := p2p.Connected? && eth.Some? && p2p.hello.clientVersion != "";
              && (if good then
                    && |saved| == |old(saved)| + 1 && saved[..|old(saved)|] == old(saved)
                    && Records(saved[|old(saved)|], peer, p2p.hello, eth.value, seen)
                  else saved == old(saved))
              && banned == old(banned) +
                 if p2p.TooManyPeers? || good then {}
                 else if p2p.Failed? && Stored(old(p2pFailures), peer.id) != 4 then {}
                 else {peer.address}
    {
      var t := StartDiscovered(peer);
      var theirHello := HandshakeP2pHandle(t, p2p);
      if theirHello.None? {
        return;
      }
      HandshakeEthAndSave(t, eth, seen);
    }
  }
}
