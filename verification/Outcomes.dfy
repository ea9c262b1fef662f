/** What can become of a task: a ban, a save, or neither. */
module Outcomes {
  import opened Handshakes
  import opened Peers
  import opened Rows
  import opened Sequences
  import opened Tables
  import opened Wrappers

  datatype Cause = TooManyFailures | WrongNetwork | NoClientVersion

  /** Why an event bans its task's address, if it does. */
  ghost function BanCause(s: State, e: Event): Option<Cause>
    requires Enabled(s, e)
  {
    match e
    case P2pDone(t, Failed) =>
      if s.tasks[t].phase.count + 1 >= P2P_FAILURE_THRESHOLD then Some(TooManyFailures) else None
    case EthDone(t, answer) =>
      if answer.None? then Some(WrongNetwork)
      else if s.tasks[t].phase.hello.clientVersion == "" then Some(NoClientVersion)
      else None
    case _ => None
  }

  /** The event bans its task's address or saves its peer. */
  ghost predicate Settles(s: State, e: Event, t: nat)
    requires Enabled(s, e)
  {
    (e.Save? || BanCause(s, e).Some?) && e.task == t
  }

  ghost function TimesSettled(run: seq<Event>, t: nat): nat
    requires IsRun(run)
  {
    if run == [] then 0
    else TimesSettled(Past(run), t) + if Settles(After(Past(run)), Last(run), t) then 1 else 0
  }

  /** A task bans at most once or saves at most once, and never both. */
  lemma {:induction false} AtMostOneOutcome(run: seq<Event>, t: nat)
    requires IsRun(run)
    ensures TimesSettled(run, t) <= 1
    ensures t >= |After(run).tasks| || !(After(run).tasks[t].phase.Finished? || After(run).tasks[t].phase.Banning?) ==>
              TimesSettled(run, t) == 0
  {
    if run != [] {
      AtMostOneOutcome(Past(run), t);
    }
  }

  /** The event is the last that task does, but for the reset that follows a ban. */
  ghost predicate Ends(s: State, e: Event, t: nat)
    requires Enabled(s, e)
  {
    match e
    case Save(u, _) => u == t
    case P2pDone(u, result) => u == t && !result.Connected?
    case EthDone(u, _) => u == t && BanCause(s, e).Some?
    case _ => false
  }

  ghost function TimesEnded(run: seq<Event>, t: nat): nat
    requires IsRun(run)
  {
    if run == [] then 0
    else TimesEnded(Past(run), t) + if Ends(After(Past(run)), Last(run), t) then 1 else 0
  }

  /** The task of a discovered peer that has nothing left to do but reset a count. */
  ghost predicate HasEnded(s: State, t: nat) {
    t < |s.tasks| && s.tasks[t].discovered && (s.tasks[t].phase.Finished? || s.tasks[t].phase.Banning?)
  }

  ghost predicate IsOfSession(s: State, t: nat) {
    t < |s.tasks| && !s.tasks[t].discovered
  }

  lemma EndStep(s: State, e: Event, t: nat)
    requires Enabled(s, e) && !IsOfSession(Step(s, e), t)
    ensures Ends(s, e, t) ==> !HasEnded(s, t)
    ensures HasEnded(Step(s, e), t) <==> HasEnded(s, t) || Ends(s, e, t)
  {
  }

  /**
   Whatever other tasks do meanwhile, the task of a discovered peer ends exactly once, in one
   of four ways: refused for lack of room, failed, turned away after the eth handshake, or saved.
   */
  lemma {:induction false} ExactlyOneEnding(run: seq<Event>, t: nat)
    requires IsRun(run) && !IsOfSession(After(run), t)
    ensures TimesEnded(run, t) == if HasEnded(After(run), t) then 1 else 0
  {
    if run != [] {
      StepKeepsSessions(After(Past(run)), Last(run), t);
      ExactlyOneEnding(Past(run), t);
      EndStep(After(Past(run)), Last(run), t);
    }
  }

  lemma StepKeepsSessions(s: State, e: Event, t: nat)
    requires Enabled(s, e)
    ensures IsOfSession(s, t) ==> IsOfSession(Step(s, e), t)
  {
  }

  /** Event `p` of the run bans the address for that cause. */
  ghost predicate BansAt(run: seq<Event>, p: nat, address: IpAddr, cause: Cause)
    requires IsRun(run)
  {
    && p < |run| && IsRun(run[..p]) && Enabled(After(run[..p]), run[p])
    && BanCause(After(run[..p]), run[p]) == Some(cause)
    && After(run[..p]).tasks[run[p].task].peer.address == address
  }

  lemma BansAtStays(run: seq<Event>, p: nat, address: IpAddr, cause: Cause)
    requires IsRun(run) && p < |run| - 1
    ensures BansAt(run, p, address, cause) <==> BansAt(Past(run), p, address, cause)
  {
    assert Past(run)[..p] == run[..p];
  }

  /** A step bans its task's address when it has a cause, and nothing else ever. */
  lemma StepBans(s: State, e: Event)
    requires Enabled(s, e)
    ensures Step(s, e).banned ==
            s.banned + if BanCause(s, e).Some? then {s.tasks[e.task].peer.address} else {}
  {
  }

  /** An address is banned exactly when some task with it met one of the three causes. */
  lemma {:induction false} BannedForACause(run: seq<Event>, address: IpAddr)
    requires IsRun(run)
    ensures address in After(run).banned <==> exists p: nat, cause :: BansAt(run, p, address, cause)
  {
    if run != [] {
      var s, e := After(Past(run)), Last(run);
      BannedForACause(Past(run), address);
      StepBans(s, e);
      if BanCause(s, e).Some? && s.tasks[e.task].peer.address == address {
        assert BansAt(run, |run| - 1, address, BanCause(s, e).value);
      }
      forall p: nat, cause | p < |run| - 1
        ensures BansAt(run, p, address, cause) <==> BansAt(Past(run), p, address, cause)
      {
        BansAtStays(run, p, address, cause);
      }
    }
  }

  // ---------- what is saved ----------

  /** How a task comes to wait for the eth handshake. */
  lemma ComesToAwaitEth(s: State, e: Event, t: nat)
    requires Enabled(s, e) && t < |Step(s, e).tasks| && Step(s, e).tasks[t].phase.AwaitingEth?
    ensures || e == P2pDone(t, Connected(Step(s, e).tasks[t].phase.hello))
            || (t < |s.tasks| && s.tasks[t] == Step(s, e).tasks[t])
  {
  }

  /** The task of an inbound session shakes no hands. */
  ghost predicate SessionsOnlySave(s: State) {
    forall t :: 0 <= t < |s.tasks| && !s.tasks[t].discovered ==>
      s.tasks[t].phase.Saving? || s.tasks[t].phase.Finished?
  }

  lemma SessionStep(s: State, e: Event)
    requires Enabled(s, e) && SessionsOnlySave(s)
    ensures SessionsOnlySave(Step(s, e))
  {
  }

  lemma {:induction false} SessionsShakeNoHands(run: seq<Event>)
    requires IsRun(run)
    ensures SessionsOnlySave(After(run))
  {
    if run != [] {
      SessionsShakeNoHands(Past(run));
      SessionStep(After(Past(run)), Last(run));
    }
  }

  /** How a task comes to save its peer. */
  lemma ComesToSave(s: State, e: Event, t: nat)
    requires Enabled(s, e) && SessionsOnlySave(s)
    requires t < |Step(s, e).tasks| && Step(s, e).tasks[t].phase.Saving?
    ensures var task := Step(s, e).tasks[t];
            || (t < |s.tasks| && s.tasks[t] == task)
            || (task.phase.hello.clientVersion != "" &&
                if task.discovered then
                   && e == EthDone(t, Some(task.phase.status))
                   && t < |s.tasks| && s.tasks[t].phase == AwaitingEth(task.phase.hello)
                else e == Session(task.peer, task.phase.hello, task.phase.status))
  {
  }

  /** Where a task got what it saves: from both handshakes, in order, or from its session. */
  ghost predicate Earned(run: seq<Event>, t: nat, task: Task, q: nat, r: nat)
    requires task.phase.Saving?
  {
    && task.phase.hello.clientVersion != ""
    && if task.discovered then
         && q < r < |run| && run[q] == P2pDone(t, Connected(task.phase.hello))
         && run[r] == EthDone(t, Some(task.phase.status))
       else q < |run| && run[q] == Session(task.peer, task.phase.hello, task.phase.status)
  }

  lemma {:induction false} AwaitingEthPassedP2p(run: seq<Event>, t: nat) returns (q: nat)
    requires IsRun(run) && t < |After(run).tasks| && After(run).tasks[t].phase.AwaitingEth?
    ensures q < |run| && run[q] == P2pDone(t, Connected(After(run).tasks[t].phase.hello))
  {
    ComesToAwaitEth(After(Past(run)), Last(run), t);
    if Last(run) == P2pDone(t, Connected(After(run).tasks[t].phase.hello)) {
      q := |run| - 1;
    } else {
      q := AwaitingEthPassedP2p(Past(run), t);
    }
  }

  /** A task about to save has a client version and what its peer said of itself. */
  lemma {:induction false} SavingIsEarned(run: seq<Event>, t: nat) returns (q: nat, r: nat)
    requires IsRun(run) && t < |After(run).tasks| && After(run).tasks[t].phase.Saving?
    ensures Earned(run, t, After(run).tasks[t], q, r)
    decreases |run|
  {
    var past, task := After(Past(run)), After(run).tasks[t];
    SessionsShakeNoHands(Past(run));
    ComesToSave(past, Last(run), t);
    if t < |past.tasks| && past.tasks[t] == task {
      q, r := SavingIsEarned(Past(run), t);
    } else if task.discovered {
      q := AwaitingEthPassedP2p(Past(run), t);
      r := |run| - 1;
    } else {
      q, r := |run| - 1, |run| - 1;
    }
  }

  /**
   Every saved peer has a client version, and what is saved of it is what it said: a discovered
   one in the p2p and then the eth handshake of its own task, any other when its session began.
   */
  lemma SavedPeerPassed(run: seq<Event>, p: nat, t: nat) returns (q: nat, r: nat)
    requires IsRun(run) && p < |run| && run[p].Save? && run[p].task == t
    ensures IsRun(run[..p]) && t < |After(run[..p]).tasks| && After(run[..p]).tasks[t].phase.Saving?
    ensures Earned(run[..p], t, After(run[..p]).tasks[t], q, r)
  {
    EnabledAt(run, p);
    q, r := SavingIsEarned(run[..p], t);
  }

  /** The eth handshake of a task succeeds, and its peer has given a client version. */
  ghost predicate PassesEth(run: seq<Event>, r: nat, t: nat) {
    && r < |run| && run[r].EthDone? && run[r].task == t
    && IsRun(run[..r]) && Enabled(After(run[..r]), run[r]) && BanCause(After(run[..r]), run[r]).None?
  }

  ghost predicate SavesAfter(run: seq<Event>, r: nat, t: nat) {
    exists p :: r < p < |run| && run[p].Save? && run[p].task == t
  }

  lemma PassingEthSaves(s: State, e: Event)
    requires Enabled(s, e) && e.EthDone? && BanCause(s, e).None?
    ensures Step(s, e).tasks[e.task].phase.Saving?
  {
  }

  lemma OnlyASaveEndsSaving(s: State, e: Event, t: nat)
    requires Enabled(s, e) && t < |s.tasks|
    ensures t < |Step(s, e).tasks|
    ensures s.tasks[t].phase.Finished? ==> Step(s, e).tasks[t].phase.Finished?
    ensures s.tasks[t].phase.Saving? && !(e.Save? && e.task == t) ==> Step(s, e).tasks[t] == s.tasks[t]
    ensures e.Save? && e.task == t ==> s.tasks[t].phase.Saving? && Step(s, e).tasks[t].phase.Finished?
  {
  }

  /** Conversely a task that passes both handshakes does save its peer before it finishes. */
  lemma {:induction false} PassedIsSaved(run: seq<Event>, r: nat, t: nat)
    requires IsRun(run) && PassesEth(run, r, t)
    ensures t < |After(run).tasks|
    ensures || After(run).tasks[t].phase.Saving?
            || (After(run).tasks[t].phase.Finished? && SavesAfter(run, r, t))
    decreases |run|
  {
    var past, e := Past(run), Last(run);
    if r == |past| {
      assert run[..r] == past;
      PassingEthSaves(After(past), e);
    } else {
      assert past[..r] == run[..r];
      PassedIsSaved(past, r, t);
      OnlyASaveEndsSaving(After(past), e, t);
      SavesAfterStep(run, r, t);
    }
  }

  /** The event is the start of the session of task `t`. */
  ghost predicate StartsSession(run: seq<Event>, q: nat, t: nat) {
    q < |run| && run[q].Session? && IsRun(run[..q]) && t == |After(run[..q]).tasks|
  }

  /** And the task of an inbound session saves its peer exactly if that has given a client version. */
  lemma {:induction false} SessionIsSaved(run: seq<Event>, q: nat, t: nat)
    requires IsRun(run) && StartsSession(run, q, t)
    ensures t < |After(run).tasks| && After(run).tasks[t].peer == run[q].peer
    ensures if run[q].hello.clientVersion == "" then
              After(run).tasks[t].phase == Finished && !SavesAfter(run, q, t)
            else
              || After(run).tasks[t].phase == Saving(run[q].hello, run[q].status)
              || (After(run).tasks[t].phase == Finished && SavesAfter(run, q, t))
    decreases |run|
  {
    var past, e := Past(run), Last(run);
    if q == |past| {
      assert run[..q] == past;
    } else {
      assert past[..q] == run[..q];
      SessionIsSaved(past, q, t);
      OnlyASaveEndsSaving(After(past), e, t);
      StepKeepsTask(After(past), e, t);
      SavesAfterStep(run, q, t);
    }
  }

  lemma SavesAfterStep(run: seq<Event>, r: nat, t: nat)
    requires run != [] && r < |run| - 1
    ensures SavesAfter(run, r, t) <==> SavesAfter(Past(run), r, t) || (Last(run).Save? && Last(run).task == t)
  {
    if SavesAfter(Past(run), r, t) {
      var p :| r < p < |Past(run)| && Past(run)[p].Save? && Past(run)[p].task == t;
      assert run[p].Save? && run[p].task == t;
    }
    if Last(run).Save? && Last(run).task == t {
      assert run[|run| - 1].Save? && run[|run| - 1].task == t;
    }
  }

  /** What a save puts in the store: its task's own peer, with what that peer said and what was seen of it. */
  ghost function SavedBy(s: State, e: Event): PeerData
    requires Enabled(s, e) && e.Save?
  {
    ToPeerData(s.tasks[e.task].peer, s.tasks[e.task].phase.hello, s.tasks[e.task].phase.status, e.seen)
  }

  /** Event `p` of the run saves that record. */
  ghost predicate SavesAt(run: seq<Event>, p: nat, data: PeerData)
    requires IsRun(run)
  {
    && p < |run| && run[p].Save?
    && IsRun(run[..p]) && Enabled(After(run[..p]), run[p])
    && var task := After(run[..p]).tasks[run[p].task];
       Records(data, task.peer, task.phase.hello, task.phase.status, run[p].seen)
  }

  lemma SavesAtStays(run: seq<Event>, p: nat, data: PeerData)
    requires IsRun(run) && p < |run| - 1
    ensures SavesAt(run, p, data) <==> SavesAt(Past(run), p, data)
  {
    assert Past(run)[..p] == run[..p];
  }

  /** A step saves what its task carries when it is a save, and nothing else ever. */
  lemma StepSaves(s: State, e: Event)
    requires Enabled(s, e)
    ensures Step(s, e).saved == s.saved + if e.Save? then [SavedBy(s, e)] else []
  {
  }

  lemma LastSaves(run: seq<Event>, data: PeerData)
    requires IsRun(run) && run != []
    ensures SavesAt(run, |run| - 1, data) <==> Last(run).Save? && SavedBy(After(Past(run)), Last(run)) == data
  {
    assert run[..|run| - 1] == Past(run);
    if Last(run).Save? {
      var task := After(Past(run)).tasks[Last(run).task];
      RecordExactly(data, task.peer, task.phase.hello, task.phase.status, Last(run).seen);
    }
  }

  /** The store holds exactly the records of what tasks' own peers said and what was seen of them. */
  lemma {:induction false} SavedByATask(run: seq<Event>, data: PeerData)
    requires IsRun(run)
    ensures data in After(run).saved <==> exists p: nat :: SavesAt(run, p, data)
  {
    if run != [] {
      var s, e := After(Past(run)), Last(run);
      SavedByATask(Past(run), data);
      StepSaves(s, e);
      LastSaves(run, data);
      forall p: nat | p < |run| - 1
        ensures SavesAt(run, p, data) <==> SavesAt(Past(run), p, data)
      {
        SavesAtStays(run, p, data);
      }
    }
  }

  /**
   From the network to a query: whatever a query of either store returns after a run was saved
   at some event of it, and is the record of its id saved last.
   */
  lemma QueriedWasSaved(run: seq<Event>, q: Query, found: PeerData) returns (p: nat, data: PeerData)
    requires IsRun(run)
    requires || found in ReadSqlite(Select(SqliteTable(After(run).saved), q))
             || found in ReadPostgres(Select(PostgresTable(After(run).saved), q))
    ensures SavesAt(run, p, data) && PeerMatches(q, data) && found == Normalise(data)
    ensures exists n: nat :: IsLastWrite(After(run).saved, n) && After(run).saved[n] == data
  {
    var saved := After(run).saved;
    SqliteAnswers(saved, q);
    BackendsAgree(saved, q);
    LastWritesAreLast(saved);
    assert found in multiset(ReadSqlite(Select(SqliteTable(saved), q)));
    var matching := Filter(PeerWhere(q), LastWrites(saved));
    var i :| 0 <= i < |matching| && Normalise(matching[i]) == found;
    data := matching[i];
    assert data in matching;
    var n: nat :| IsLastWrite(saved, n) && saved[n] == data;
    SavedByATask(run, data);
    p :| SavesAt(run, p, data);
  }
}
