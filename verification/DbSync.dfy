/**
 The replica the API serves from: one full copy of the crawler's store, then copies of the
 rows whose `last_seen` text is newer than the sync's own time less a window.
 */
module DbSync {
  import opened Wrappers
  import opened Peers
  import opened Rows
  import opened Tables
  import opened Stores
  import opened Sequences
  import opened Text
  import opened Timestamps

  /** Seconds by which the window of an incremental sync overlaps the previous period. */
  const MARGIN: nat := 60

  /** How far back an incremental sync looks, in nanoseconds. */
  function Window(updateTime: nat): nat {
    (updateTime + MARGIN) * NANOS_PER_SECOND
  }

  /** The rows a sync that starts at `now` reads, when instants are stored as `text` renders them. */
  function SyncQuery(text: nat -> string, updateTime: nat, firstSync: bool, now: nat): Query
    requires Window(updateTime) <= now
  {
    if firstSync then All else Active(text(now - Window(updateTime)))
  }

  /** The replica after the peers have been added one by one. */
  function CopyAll(replica: seq<Row>, peers: seq<PeerData>): seq<Row>
  {
    if peers == [] then replica
    else InsertOrReplace(CopyAll(replica, peers[..|peers| - 1]), Encode(peers[|peers| - 1]))
  }

  // ---------- one sync ----------

  ghost predicate AllInRange(rows: seq<Row>) {
    forall r :: r in rows ==> InRange(r)
  }

  /** Copying one row through its decoded peer sets its entry. */
  lemma CopyOne(replica: seq<Row>, peers: seq<PeerData>, r: Row)
    requires InRange(r) && UniqueIds(CopyAll(replica, peers))
    ensures UniqueIds(CopyAll(replica, peers + [DecodePostgres(r)]))
    ensures Index(CopyAll(replica, peers + [DecodePostgres(r)])) == Index(CopyAll(replica, peers))[r.id := r]
  {
    CopyKeepsRow(r);
    assert (peers + [DecodePostgres(r)])[..|peers|] == peers;
    InsertOrReplaceSetsOne(CopyAll(replica, peers), r);
  }

  /** Copying rows through decoded peers sets exactly their entries, whatever their order. */
  lemma {:induction false} CopySetsRows(replica: seq<Row>, rows: seq<Row>)
    requires UniqueIds(replica) && AllInRange(rows)
    ensures UniqueIds(CopyAll(replica, ReadPostgres(rows)))
    ensures Index(CopyAll(replica, ReadPostgres(rows))) == Index(replica) + Index(rows)
  {
    if rows != [] {
      var past, r := rows[..|rows| - 1], rows[|rows| - 1];
      CopySetsRows(replica, past);
      assert InRange(r) by {
        assert r in rows;
      }
      var peers := ReadPostgres(past);
      assert ReadPostgres(rows) == peers + [DecodePostgres(r)];
      CopyOne(replica, peers, r);
      OverlayOne(Index(replica), Index(past), r);
    }
  }

  lemma OverlayOne(under: map<string, Row>, over: map<string, Row>, r: Row)
    ensures under + over[r.id := r] == (under + over)[r.id := r]
  {
  }

  lemma UniquePermuted(a: seq<Row>, b: seq<Row>)
    requires UniqueIds(a) && multiset(a) == multiset(b)
    ensures UniqueIds(b)
  {
    IndexMembers(a);
    assert forall r :: r in b ==> r in multiset(b);
    assert forall r :: r in multiset(a) ==> r in a;
    forall i, j | 0 <= i < j < |b| && b[i].id == b[j].id
      ensures false
    {
      assert b[i] in a && b[j] in a;
      TwiceCounts(b, i, j);
      DistinctCount(a, b[i]);
    }
  }

  /** The replica a sync leaves does not depend on the order in which the rows are scanned. */
  lemma ScanOrderDoesNotMatter(replica: seq<Row>, rows: seq<Row>, scanned: seq<Row>)
    requires UniqueIds(replica) && UniqueIds(rows) && AllInRange(rows)
    requires multiset(scanned) == multiset(rows)
    ensures Index(CopyAll(replica, ReadPostgres(scanned))) == Index(CopyAll(replica, ReadPostgres(rows)))
  {
    UniquePermuted(rows, scanned);
    assert forall r :: r in scanned <==> r in multiset(scanned);
    assert forall r :: r in rows <==> r in multiset(rows);
    IndexIsMembership(rows, scanned);
    CopySetsRows(replica, rows);
    CopySetsRows(replica, scanned);
  }

  /** Copying the same rows again changes nothing. */
  lemma CopyTwice(replica: seq<Row>, rows: seq<Row>)
    requires UniqueIds(replica) && AllInRange(rows)
    ensures var once := CopyAll(replica, ReadPostgres(rows));
            Index(CopyAll(once, ReadPostgres(rows))) == Index(once)
  {
    var once := CopyAll(replica, ReadPostgres(rows));
    CopySetsRows(replica, rows);
    CopySetsRows(once, rows);
    assert Index(replica) + Index(rows) + Index(rows) == Index(replica) + Index(rows);
  }

  lemma IndexOfSelected(rows: seq<Row>, q: Query)
    requires UniqueIds(rows)
    ensures UniqueIds(Select(rows, q))
    ensures forall id :: id in Index(Select(rows, q)) <==> id in Index(rows) && RowMatches(q, Index(rows)[id])
    ensures forall id :: id in Index(Select(rows, q)) ==> Index(Select(rows, q))[id] == Index(rows)[id]
  {
    FilterKeepsUnique(RowWhere(q), rows);
    IndexMembers(rows);
    IndexMembers(Select(rows, q));
  }

  /**
   How far back an incremental sync looks: it selects the rows stamped less than the period
   plus 60 seconds before its own time, and no others.
   */
  lemma IncrementalSelects(rows: seq<Row>, text: nat -> string, updateTime: nat, now: nat, r: Row, stamp: nat)
    requires Ordered(text) && (updateTime + 60) * 1_000_000_000 <= now < END
    requires r.lastSeen == text(stamp) && stamp < END
    ensures r in Select(rows, SyncQuery(text, updateTime, false, now)) <==>
            r in rows && now < stamp + (updateTime + 60) * 1_000_000_000
  {
    assert TextLess(text(now - Window(updateTime)), text(stamp)) <==> now - Window(updateTime) < stamp;
  }

  // ---------- runs of the crawler and the syncs ----------

  /**
   Times are nanoseconds. A commit stores a peer that was stamped earlier; a sync samples
   its own time, then scans the source.
   */
  datatype Event =
    | Commit(at: nat, stamp: nat, peer: PeerData)
    | Sync(at: nat, now: nat)

  /**
   The period in seconds, the longest time between two syncs' samples, the longest from stamp
   to commit, and how an instant is rendered as text.
   */
  datatype Config = Config(updateTime: nat, gap: nat, delay: nat, text: nat -> string)

  /** The rendering keeps the order of instants. */
  ghost predicate Ordered(text: nat -> string) {
    forall s, t :: 0 <= s < END && 0 <= t < END ==> (TextLess(text(s), text(t)) <==> s < t)
  }

  /** The crawler's and the syncs' own rendering does. */
  lemma DisplayedTextIsOrdered(text: nat -> string)
    requires forall t :: 0 <= t < END ==> text(t) == ToText(t)
    ensures Ordered(text)
  {
    forall s, t | 0 <= s < END && 0 <= t < END
      ensures TextLess(text(s), text(t)) <==> s < t
    {
      TextOrderIsTimeOrder(s, t);
    }
  }

  datatype State = State(source: seq<Row>, replica: seq<Row>, clock: nat, lastNow: Option<nat>)

  ghost predicate Enabled(c: Config, s: State, e: Event)
  {
    && s.clock <= e.at
    && match e
       case Commit(at, stamp, peer) =>
         stamp <= at <= stamp + c.delay && stamp < END && peer.lastSeen == c.text(stamp)
       case Sync(at, now) =>
         && now <= at && Window(c.updateTime) <= now < END
         && (s.lastNow.Some? ==> now - s.lastNow.value <= c.gap)
  }

  /** The rows a sync reads from the source. */
  function SyncRows(c: Config, s: State, now: nat): seq<Row>
    requires Window(c.updateTime) <= now
  {
    Select(s.source, SyncQuery(c.text, c.updateTime, s.lastNow.None?, now))
  }

  function Step(c: Config, s: State, e: Event): State
    requires e.Sync? ==> Window(c.updateTime) <= e.now < END
  {
    match e
    case Commit(at, _, peer) =>
      s.(source := InsertOnConflictUpdate(s.source, Encode(peer)), clock := at)
    case Sync(at, now) =>
      s.(replica := CopyAll(s.replica, ReadPostgres(SyncRows(c, s, now))), clock := at, lastNow := Some(now))
  }

  /** Before any sync: the crawler's store may hold peers, the replica nothing with an unknown id. */
  ghost predicate Start(s: State) {
    && UniqueIds(s.source) && UniqueIds(s.replica) && AllInRange(s.source)
    && Index(s.replica).Keys <= Index(s.source).Keys
    && s.lastNow == None
  }

  ghost predicate IsRun(c: Config, s: State, run: seq<Event>)
    decreases |run|, 0
  {
    run == [] ||
    (IsRun(c, s, Past(run)) && Enabled(c, After(c, s, Past(run)), Last(run)))
  }

  ghost function After(c: Config, s: State, run: seq<Event>): State
    requires IsRun(c, s, run)
    decreases |run|, 1
  {
    if run == [] then s else Step(c, After(c, s, Past(run)), Last(run))
  }

  lemma Extend(c: Config, s: State, run: seq<Event>, e: Event)
    requires IsRun(c, s, run) && Enabled(c, After(c, s, run), e)
    ensures IsRun(c, s, run + [e]) && After(c, s, run + [e]) == Step(c, After(c, s, run), e)
  {
    assert Past(run + [e]) == run;
  }

  lemma PrefixIsRun(c: Config, s: State, run: seq<Event>, n: nat)
    requires IsRun(c, s, run) && n <= |run|
    ensures IsRun(c, s, run[..n])
    decreases |run| - n
  {
    if n == |run| {
      assert run[..n] == run;
    } else {
      PrefixIsRun(c, s, run, n + 1);
      assert Past(run[..n + 1]) == run[..n];
    }
  }

  lemma EnabledAt(c: Config, s: State, run: seq<Event>, p: nat)
    requires IsRun(c, s, run) && p < |run|
    ensures IsRun(c, s, run[..p]) && Enabled(c, After(c, s, run[..p]), run[p])
    ensures IsRun(c, s, run[..p + 1]) && After(c, s, run[..p + 1]) == Step(c, After(c, s, run[..p]), run[p])
  {
    PrefixIsRun(c, s, run, p);
    PrefixIsRun(c, s, run, p + 1);
    assert Past(run[..p + 1]) == run[..p];
  }

  // ---------- agreement ----------

  /** Both tables have unique ids, and the source holds only rows with numbers in range. */
  ghost predicate Tidy(s: State) {
    UniqueIds(s.source) && UniqueIds(s.replica) && AllInRange(s.source)
  }

  lemma StepKeepsTidy(c: Config, s: State, e: Event)
    requires Tidy(s) && Enabled(c, s, e)
    ensures Tidy(Step(c, s, e))
    ensures e.Commit? ==> Index(Step(c, s, e).source) == Index(s.source)[e.peer.id := Encode(e.peer)]
    ensures e.Sync? ==> Index(Step(c, s, e).replica) == Index(s.replica) + Index(SyncRows(c, s, e.now))
  {
    if e.Commit? {
      InsertOnConflictSetsOne(s.source, Encode(e.peer));
      OnConflictMembers(s.source, Encode(e.peer));
      ReadBack(e.peer);
    } else {
      CopySetsRows(s.replica, SyncRows(c, s, e.now));
    }
  }

  /** The row was stamped no more than the delay before `now`, or later. */
  ghost predicate Fresh(c: Config, r: Row, now: nat) {
    exists stamp: nat :: stamp < END && r.lastSeen == c.text(stamp) && stamp + c.delay >= now
  }

  /** Between two syncs the replica lacks at most rows that are fresh since the last one. */
  ghost predicate BehindByFresh(c: Config, s: State)
  {
    && Tidy(s)
    && Index(s.replica).Keys <= Index(s.source).Keys
    && (s.lastNow.Some? ==>
          && s.lastNow.value <= s.clock
          && forall id :: id in Index(s.source) ==> SameOrFresh(c, s, id))
  }

  ghost predicate SameOrFresh(c: Config, s: State, id: string)
    requires s.lastNow.Some? && id in Index(s.source)
  {
    || (id in Index(s.replica) && Index(s.replica)[id] == Index(s.source)[id])
    || Fresh(c, Index(s.source)[id], s.lastNow.value)
  }

  lemma CommitKeepsBehind(c: Config, s: State, e: Event)
    requires BehindByFresh(c, s) && Enabled(c, s, e) && e.Commit?
    ensures BehindByFresh(c, Step(c, s, e))
  {
    var t, row := Step(c, s, e), Encode(e.peer);
    StepKeepsTidy(c, s, e);
    if s.lastNow.Some? {
      forall id | id in Index(t.source)
        ensures SameOrFresh(c, t, id)
      {
        if id == row.id {
          assert Fresh(c, row, s.lastNow.value);
        } else {
          assert SameOrFresh(c, s, id);
        }
      }
    }
  }

  /** A fresh row is inside the window of the next sync. */
  lemma FreshIsSelected(c: Config, s: State, e: Event, r: Row)
    requires Ordered(c.text) && c.gap + c.delay < Window(c.updateTime)
    requires Enabled(c, s, e) && e.Sync? && s.lastNow.Some? && Fresh(c, r, s.lastNow.value)
    ensures RowMatches(SyncQuery(c.text, c.updateTime, false, e.now), r)
  {
    var stamp: nat :| stamp < END && r.lastSeen == c.text(stamp) && stamp + c.delay >= s.lastNow.value;
    var cutoff := e.now - Window(c.updateTime);
    assert TextLess(c.text(cutoff), r.lastSeen) <==> cutoff < stamp;
  }

  /** Every row of the source is in the replica already or is selected by the sync. */
  lemma SameOrSelected(c: Config, s: State, e: Event, id: string)
    requires Ordered(c.text) && c.gap + c.delay < Window(c.updateTime)
    requires BehindByFresh(c, s) && Enabled(c, s, e) && e.Sync? && id in Index(s.source)
    ensures || (id in Index(s.replica) && Index(s.replica)[id] == Index(s.source)[id])
            || RowMatches(SyncQuery(c.text, c.updateTime, s.lastNow.None?, e.now), Index(s.source)[id])
  {
    if s.lastNow.Some? {
      assert SameOrFresh(c, s, id);
      if Fresh(c, Index(s.source)[id], s.lastNow.value) {
        FreshIsSelected(c, s, e, Index(s.source)[id]);
      }
    }
  }

  /** A sync leaves the replica equal to the source as scanned. */
  lemma SyncAgrees(c: Config, s: State, e: Event)
    requires Ordered(c.text) && c.gap + c.delay < Window(c.updateTime)
    requires BehindByFresh(c, s) && Enabled(c, s, e) && e.Sync?
    ensures BehindByFresh(c, Step(c, s, e))
    ensures Index(Step(c, s, e).replica) == Index(s.source)
  {
    StepKeepsTidy(c, s, e);
    IndexOfSelected(s.source, SyncQuery(c.text, c.updateTime, s.lastNow.None?, e.now));
    forall id | id in Index(s.source)
      ensures id in Index(Step(c, s, e).replica) && Index(Step(c, s, e).replica)[id] == Index(s.source)[id]
    {
      SameOrSelected(c, s, e, id);
    }
    MapsEqual(Index(Step(c, s, e).replica), Index(s.source));
  }

  lemma {:induction false} RunKeepsBehind(c: Config, s: State, run: seq<Event>)
    requires Ordered(c.text) && c.gap + c.delay < Window(c.updateTime)
    requires Start(s) && IsRun(c, s, run)
    ensures BehindByFresh(c, After(c, s, run))
  {
    if run != [] {
      var past, e := Past(run), Last(run);
      RunKeepsBehind(c, s, past);
      if e.Commit? {
        CommitKeepsBehind(c, After(c, s, past), e);
      } else {
        SyncAgrees(c, After(c, s, past), e);
      }
    }
  }

  /** After every sync of the run the replica, as a map from ids to rows, is the source. */
  ghost predicate AgreesAfterSyncs(c: Config, s: State, run: seq<Event>)
    requires IsRun(c, s, run)
  {
    run != [] && Last(run).Sync? ==>
      Index(After(c, s, run).replica) == Index(After(c, s, run).source)
  }

  /**
   Replica agreement: when the gap between two samples plus the delay from stamp to commit
   is strictly below the window, every sync of every run leaves the replica equal to the
   source as of that sync's scan.
   */
  lemma ReplicaAgreement(c: Config, s: State, run: seq<Event>)
    requires Ordered(c.text) && c.gap + c.delay < (c.updateTime + 60) * 1_000_000_000
    requires Start(s) && IsRun(c, s, run)
    ensures AgreesAfterSyncs(c, s, run)
  {
    if run != [] && Last(run).Sync? {
      var past := Past(run);
      RunKeepsBehind(c, s, past);
      SyncAgrees(c, After(c, s, past), Last(run));
    }
  }

  ghost predicate AlwaysAgrees(c: Config) {
    forall s, run :: Start(s) && IsRun(c, s, run) ==> AgreesAfterSyncs(c, s, run)
  }

  const NOTHING: State := State([], [], 0, None)

  /** Some peer; which one does not matter. */
  const SOMEONE: PeerData :=
    PeerData("", "", "", 0, "", "", "", "", "", "", 0, [], "", "", "", "", "", "", "", None, "")

  /** The first sync of the losing run: there is nothing to copy. */
  ghost function FirstTick(c: Config): Event {
    Sync(Window(c.updateTime) + c.delay, Window(c.updateTime) + c.delay)
  }

  /** The row is committed right after that scan, stamped as early as allowed. */
  ghost function LateCommit(c: Config, peer: PeerData): Event {
    Commit(Window(c.updateTime) + c.delay, Window(c.updateTime), peer)
  }

  /** The next sync comes as late as allowed. */
  ghost function LateTick(c: Config): Event {
    Sync(Window(c.updateTime) + c.delay + c.gap, Window(c.updateTime) + c.delay + c.gap)
  }

  /** A row stamped at the cutoff itself is not copied. */
  lemma AtCutoffIsSkipped(c: Config, row: Row)
    requires Ordered(c.text) && c.gap + c.delay >= Window(c.updateTime)
    requires Window(c.updateTime) + c.delay + c.gap < END
    requires row.lastSeen == c.text(Window(c.updateTime))
    ensures Select([row], SyncQuery(c.text, c.updateTime, false, LateTick(c).now)) == []
  {
    var cutoff := LateTick(c).now - Window(c.updateTime);
    assert !TextLess(c.text(cutoff), row.lastSeen);
    FilterOne(RowWhere(Active(c.text(cutoff))), row);
  }

  ghost function LosingRun(c: Config, peer: PeerData): seq<Event> {
    [] + [FirstTick(c)] + [LateCommit(c, peer)] + [LateTick(c)]
  }

  lemma LosingRunLoses(c: Config, peer: PeerData)
    requires Ordered(c.text) && c.gap + c.delay >= (c.updateTime + 60) * 1_000_000_000
    requires Window(c.updateTime) + c.delay + c.gap < END
    requires peer.lastSeen == c.text(Window(c.updateTime))
    ensures IsRun(c, NOTHING, LosingRun(c, peer)) && !AgreesAfterSyncs(c, NOTHING, LosingRun(c, peer))
    ensures After(c, NOTHING, LosingRun(c, peer)) ==
            State([Encode(peer)], [], LateTick(c).at, Some(LateTick(c).now))
  {
    var row := Encode(peer);
    Extend(c, NOTHING, [], FirstTick(c));
    var run1 := [] + [FirstTick(c)];
    assert After(c, NOTHING, run1) == State([], [], FirstTick(c).at, Some(FirstTick(c).now));
    Extend(c, NOTHING, run1, LateCommit(c, peer));
    var run2 := run1 + [LateCommit(c, peer)];
    assert After(c, NOTHING, run2) == State([row], [], LateCommit(c, peer).at, Some(FirstTick(c).now));
    Extend(c, NOTHING, run2, LateTick(c));
    AtCutoffIsSkipped(c, row);
    assert ReadPostgres([]) == [];
    var run3 := run2 + [LateTick(c)];
    assert run3[|run3| - 1] == LateTick(c);
    assert Index([row]) == map[row.id := row] && row.id !in Index([]);
  }

  // ---------- how long a missed row stays missed ----------

  /** The source holds the row and the replica has none with its id. */
  ghost predicate Missed(s: State, row: Row) {
    && Tidy(s) && s.lastNow.Some?
    && row.id in Index(s.source) && Index(s.source)[row.id] == row
    && row.id !in Index(s.replica)
  }

  /** The event neither stores that peer again nor looks back as far as the stamp. */
  ghost predicate LooksPast(c: Config, e: Event, id: string, stamp: nat) {
    match e
    case Commit(_, _, peer) => peer.id != id
    case Sync(_, now) => stamp + Window(c.updateTime) <= now
  }

  /** A sync that looks past the stamp does not select the row. */
  lemma NotSelected(c: Config, s: State, now: nat, row: Row, stamp: nat)
    requires Ordered(c.text) && Missed(s, row) && row.lastSeen == c.text(stamp) && stamp < END
    requires stamp + Window(c.updateTime) <= now < END
    ensures row.id !in Index(SyncRows(c, s, now))
  {
    var cutoff := now - Window(c.updateTime);
    assert TextLess(c.text(cutoff), row.lastSeen) <==> cutoff < stamp;
    IndexOfSelected(s.source, SyncQuery(c.text, c.updateTime, false, now));
  }

  lemma StepStaysMissed(c: Config, s: State, e: Event, row: Row, stamp: nat)
    requires Ordered(c.text) && Missed(s, row) && row.lastSeen == c.text(stamp) && stamp < END
    requires Enabled(c, s, e) && LooksPast(c, e, row.id, stamp)
    ensures Missed(Step(c, s, e), row)
  {
    StepKeepsTidy(c, s, e);
    if e.Sync? {
      NotSelected(c, s, e.now, row, stamp);
    }
  }

  /**
   A missed row stays missed: as long as its peer is not stored again and no later sync looks
   back further than its stamp, the replica never gets it.
   */
  lemma {:induction false} StaysMissed(c: Config, s: State, run: seq<Event>, n: nat, row: Row, stamp: nat)
    requires Ordered(c.text) && row.lastSeen == c.text(stamp) && stamp < END
    requires n <= |run| && IsRun(c, s, run[..n]) && Missed(After(c, s, run[..n]), row)
    requires IsRun(c, s, run) && forall x :: n <= x < |run| ==> LooksPast(c, run[x], row.id, stamp)
    ensures Missed(After(c, s, run), row)
    decreases |run|
  {
    if n == |run| {
      assert run[..n] == run;
    } else {
      var past := Past(run);
      assert past[..n] == run[..n];
      StaysMissed(c, s, past, n, row, stamp);
      StepStaysMissed(c, After(c, s, past), Last(run), row, stamp);
    }
  }

  lemma MissedByLosingRun(c: Config, peer: PeerData)
    requires Ordered(c.text) && c.gap + c.delay >= Window(c.updateTime)
    requires Window(c.updateTime) + c.delay + c.gap < END
    requires peer.lastSeen == c.text(Window(c.updateTime))
    ensures IsRun(c, NOTHING, LosingRun(c, peer))
    ensures Missed(After(c, NOTHING, LosingRun(c, peer)), Encode(peer))
  {
    var row := Encode(peer);
    LosingRunLoses(c, peer);
    ReadBack(peer);
    assert Index([row]) == map[row.id := row];
  }

  /**
   So the row that the losing run misses is missing from the replica after every later sync of
   the same server, until its peer is stored again, if the syncs' own times do not go back.
   */
  lemma LostUntilStoredAgain(c: Config, peer: PeerData, run: seq<Event>)
    requires Ordered(c.text) && c.gap + c.delay >= (c.updateTime + 60) * 1_000_000_000
    requires Window(c.updateTime) + c.delay + c.gap < END
    requires peer.lastSeen == c.text(Window(c.updateTime))
    requires IsRun(c, NOTHING, run) && LosingRun(c, peer) <= run
    requires forall x :: 3 <= x < |run| && run[x].Commit? ==> run[x].peer.id != peer.id
    requires forall x :: 3 <= x < |run| && run[x].Sync? ==> run[x].now >= LateTick(c).now
    ensures peer.id in Index(After(c, NOTHING, run).source) && peer.id !in Index(After(c, NOTHING, run).replica)
  {
    MissedByLosingRun(c, peer);
    assert run[..3] == LosingRun(c, peer);
    forall x | 3 <= x < |run|
      ensures LooksPast(c, run[x], peer.id, Window(c.updateTime))
    {
    }
    StaysMissed(c, NOTHING, run, 3, Encode(peer), Window(c.updateTime));
  }

  // ---------- the bound ----------

  lemma BelowBoundAgrees(c: Config)
    requires Ordered(c.text) && c.gap + c.delay < Window(c.updateTime)
    ensures AlwaysAgrees(c)
  {
    forall s, run | Start(s) && IsRun(c, s, run)
      ensures AgreesAfterSyncs(c, s, run)
    {
      ReplicaAgreement(c, s, run);
    }
  }

  lemma AtBoundLoses(c: Config)
    requires Ordered(c.text) && c.gap + c.delay >= Window(c.updateTime)
    requires Window(c.updateTime) + c.delay + c.gap < END
    ensures !AlwaysAgrees(c)
  {
    LosingRunLoses(c, SOMEONE.(lastSeen := c.text(Window(c.updateTime))));
  }

  /** The bound is exact: all runs agree exactly when the gap plus the delay is below the window. */
  lemma BoundIsExact(c: Config)
    requires Ordered(c.text) && Window(c.updateTime) + c.delay + c.gap < END
    ensures AlwaysAgrees(c) <==> c.gap + c.delay < (c.updateTime + 60) * 1_000_000_000
  {
    if c.gap + c.delay < Window(c.updateTime) {
      BelowBoundAgrees(c);
    } else {
      AtBoundLoses(c);
    }
  }

  /** With the rendering that the crawler and the syncs use, whatever its values outside its range. */
  lemma RenderedBoundIsExact(c: Config)
    requires forall t :: 0 <= t < END ==> c.text(t) == ToText(t)
    requires Window(c.updateTime) + c.delay + c.gap < END
    ensures AlwaysAgrees(c) <==> c.gap + c.delay < (c.updateTime + 60) * 1_000_000_000
  {
    DisplayedTextIsOrdered(c.text);
    BoundIsExact(c);
  }

  // ---------- inside one sync ----------

  /** The rows the replica should hold between two syncs: the source's at the last scan. */
  ghost function LastScanned(c: Config, s: State, run: seq<Event>): map<string, Row>
    requires IsRun(c, s, run)
    decreases |run|
  {
    if run == [] then Index(s.replica)
    else if Last(run).Sync? then Index(After(c, s, Past(run)).source)
    else LastScanned(c, s, Past(run))
  }

  lemma {:induction false} ReplicaIsLastScanned(c: Config, s: State, run: seq<Event>)
    requires Ordered(c.text) && c.gap + c.delay < Window(c.updateTime)
    requires Start(s) && IsRun(c, s, run)
    ensures Index(After(c, s, run).replica) == LastScanned(c, s, run)
  {
    if run != [] {
      ReplicaIsLastScanned(c, s, Past(run));
      ReplicaAgreement(c, s, run);
    }
  }

  /**
   Nothing is invented while a sync copies: after any number of rows, scanned in any order,
   every replica row is the source's row for that id at this scan or at the previous one
   (the initial replica's row before the first).
   */
  lemma MidSyncRows(c: Config, s: State, run: seq<Event>, e: Event, scanned: seq<Row>, i: nat, id: string)
    requires Ordered(c.text) && c.gap + c.delay < (c.updateTime + 60) * 1_000_000_000
    requires Start(s) && IsRun(c, s, run) && Enabled(c, After(c, s, run), e) && e.Sync?
    requires multiset(scanned) == multiset(SyncRows(c, After(c, s, run), e.now))
    requires i <= |scanned|
    requires id in Index(CopyAll(After(c, s, run).replica, ReadPostgres(scanned[..i])))
    ensures var row := Index(CopyAll(After(c, s, run).replica, ReadPostgres(scanned[..i])))[id];
            || (id in Index(After(c, s, run).source) && row == Index(After(c, s, run).source)[id])
            || (id in LastScanned(c, s, run) && row == LastScanned(c, s, run)[id])
  {
    var now := After(c, s, run);
    var q := SyncQuery(c.text, c.updateTime, now.lastNow.None?, e.now);
    RunKeepsBehind(c, s, run);
    ReplicaIsLastScanned(c, s, run);
    ScannedAreSource(now.source, q, scanned, i);
    CopySetsRows(now.replica, scanned[..i]);
  }

  lemma ScannedAreSource(source: seq<Row>, q: Query, scanned: seq<Row>, i: nat)
    requires UniqueIds(source) && AllInRange(source)
    requires multiset(scanned) == multiset(Select(source, q)) && i <= |scanned|
    ensures AllInRange(scanned[..i])
    ensures forall id :: id in Index(scanned[..i]) ==>
              id in Index(source) && Index(scanned[..i])[id] == Index(source)[id]
  {
    IndexOfSelected(source, q);
    UniquePermuted(Select(source, q), scanned);
    IndexMembers(source);
    IndexMembers(scanned[..i]);
    forall r | r in scanned[..i]
      ensures r in source
    {
      assert r in multiset(scanned);
    }
  }

  // ---------- the sync task itself ----------

  /** The peers a sync reads, in scan order. */
  function Scanned(source: seq<Row>, text: nat -> string, updateTime: nat, firstSync: bool, now: nat): seq<PeerData>
    requires Window(updateTime) <= now
  {
    ReadPostgres(Select(source, SyncQuery(text, updateTime, firstSync, now)))
  }

  /** Of `n` insertions the first `copied` succeed, and the next one fails if there is one. */
  ghost predicate UpToFirstFailure(n: nat, fails: nat -> bool, copied: nat) {
    copied <= n && (forall i :: 0 <= i < copied ==> !fails(i)) && (copied < n ==> fails(copied))
  }

  /** Insert the next peer. */
  method Insert(sqliteDb: SqlPeerDB, ghost replica: seq<Row>, ghost peers: seq<PeerData>, i: nat, peer: PeerData)
    requires i < |peers| && peer == peers[i]
    requires sqliteDb.Valid() && sqliteDb.table == CopyAll(replica, peers[..i])
    modifies sqliteDb
    ensures sqliteDb.Valid() && sqliteDb.table == CopyAll(replica, peers[..i + 1])
  {
    assert peers[..i + 1][..i] == peers[..i];
    sqliteDb.AddPeer(peer);
  }

  /**
   Add peers to the replica one by one, up to the first insertion that fails, which changes
   nothing. Which insertions fail is an input.
   */
  method AddAll(sqliteDb: SqlPeerDB, peers: seq<PeerData>, fails: nat -> bool) returns (ok: bool, ghost copied: nat)
    requires sqliteDb.Valid()
    modifies sqliteDb
    ensures sqliteDb.Valid() && UpToFirstFailure(|peers|, fails, copied) && (ok <==> copied == |peers|)
    ensures sqliteDb.table == CopyAll(old(sqliteDb.table), peers[..copied])
  {
    copied := 0;
    var i := 0;
    while i < |peers|
      invariant copied == i <= |peers| && forall k :: 0 <= k < i ==> !fails(k)
      invariant sqliteDb.Valid() && sqliteDb.table == CopyAll(old(sqliteDb.table), peers[..i])
    {
      if fails(i) {
        return false, copied;
      }
      Insert(sqliteDb, old(sqliteDb.table), peers, i, peers[i]);
      i, copied := i + 1, copied + 1;
    }
    ok := true;
  }

  /** What can go wrong in one sync: its scan, or some of its insertions. */
  datatype Failures = Failures(scan: bool, insertion: nat -> bool)

  /** How a sync of `n` rows ends: nothing is copied if the scan fails, else what goes before the first failure. */
  ghost predicate Ends(n: nat, failures: Failures, ok: bool, copied: nat) {
    if failures.scan then !ok && copied == 0
    else UpToFirstFailure(n, failures.insertion, copied) && (ok <==> copied == n)
  }

  /** Something goes wrong in a sync of `n` rows. */
  ghost predicate AnyFailure(n: nat, failures: Failures) {
    failures.scan || exists k: nat :: k < n && failures.insertion(k)
  }

  /** A sync succeeds exactly when nothing goes wrong. */
  lemma SucceedsExactly(n: nat, failures: Failures, ok: bool, copied: nat)
    requires Ends(n, failures, ok, copied)
    ensures ok <==> !AnyFailure(n, failures)
  {
  }

  /** One sync, from the crawler's store to the replica, with what was copied before anything failed. */
  method DbSync(dynamoDb: PostgreSQLPeerDb, sqliteDb: SqlPeerDB, text: nat -> string,
                updateTime: nat, firstSync: bool, now: nat, failures: Failures)
    returns (ok: bool, ghost copied: nat)
    requires Window(updateTime) <= now
    requires dynamoDb.Valid() && sqliteDb.Valid()
    modifies sqliteDb
    ensures sqliteDb.Valid()
    ensures var peers := Scanned(dynamoDb.table, text, updateTime, firstSync, now);
            && copied <= |peers| && Ends(|peers|, failures, ok, copied)
            && sqliteDb.table == CopyAll(old(sqliteDb.table), peers[..copied])
  {
    var timeDifference := text(now - Window(updateTime));
    copied := 0;
    if failures.scan {
      return false, copied;
    }
    var peers := if firstSync then dynamoDb.AllPeers() else dynamoDb.AllActivePeers(timeDifference);
    ok, copied := AddAll(sqliteDb, peers, failures.insertion);
  }

  /** The replica holds the first `copied` of the rows that this sync copies, on top of what it held. */
  ghost predicate PartlyCopied(c: Config, s: State, now: nat, copied: nat, replica: seq<Row>)
    requires Window(c.updateTime) <= now
  {
    copied <= |SyncRows(c, s, now)| && replica == CopyAll(s.replica, ReadPostgres(SyncRows(c, s, now))[..copied])
  }

  /** One tick of the repeated sync. */
  method Tick(c: Config, dynamoDb: PostgreSQLPeerDb, sqliteDb: SqlPeerDB, ghost s: State,
              firstSync: bool, now: nat, failures: Failures)
    returns (ok: bool, ghost copied: nat)
    requires dynamoDb.Valid() && sqliteDb.Valid()
    requires s.source == dynamoDb.table && s.replica == sqliteDb.table && firstSync == s.lastNow.None?
    requires Window(c.updateTime) <= now < END
    modifies sqliteDb
    ensures sqliteDb.Valid()
    ensures Ends(|SyncRows(c, s, now)|, failures, ok, copied)
    ensures ok <==> !AnyFailure(|SyncRows(c, s, now)|, failures)
    ensures PartlyCopied(c, s, now, copied, sqliteDb.table)
    ensures ok ==> sqliteDb.table == Step(c, s, Sync(now, now)).replica
  {
    ok, copied := DbSync(dynamoDb, sqliteDb, c.text, c.updateTime, firstSync, now, failures);
    ghost var peers := ReadPostgres(SyncRows(c, s, now));
    assert Scanned(dynamoDb.table, c.text, c.updateTime, firstSync, now) == peers;
    assert peers[..|peers|] == peers;
    SucceedsExactly(|peers|, failures, ok, copied);
  }

  /** The event is a sync in which something goes wrong. */
  ghost predicate Fails(c: Config, s: State, e: Event, failures: Failures) {
    e.Sync? && Window(c.updateTime) <= e.now && AnyFailure(|SyncRows(c, s, e.now)|, failures)
  }

  /** What a sync that fails leaves: the first of its rows, up to what failed, copied over the replica. */
  ghost predicate Interrupted(
    c: Config, s: State, e: Event, failures: Failures, copied: nat, replica: seq<Row>)
  {
    && Fails(c, s, e, failures) && Ends(|SyncRows(c, s, e.now)|, failures, false, copied)
    && PartlyCopied(c, s, e.now, copied, replica)
  }

  /** Nothing goes wrong in any sync of the run. */
  ghost predicate NoneFails(c: Config, s: State, run: seq<Event>, failures: nat -> Failures)
    requires IsRun(c, s, run)
    decreases |run|
  {
    run != [] ==>
      && NoneFails(c, s, Past(run), failures)
      && !Fails(c, After(c, s, Past(run)), Last(run), failures(|run| - 1))
  }

  lemma NoFailureYet(c: Config, s: State, run: seq<Event>, i: nat, failures: nat -> Failures)
    requires i < |run| && IsRun(c, s, run[..i]) && IsRun(c, s, run[..i + 1])
    requires NoneFails(c, s, run[..i], failures) && !Fails(c, After(c, s, run[..i]), run[i], failures(i))
    ensures NoneFails(c, s, run[..i + 1], failures)
  {
    assert Past(run[..i + 1]) == run[..i];
  }

  /** One event: the crawler's commit, or a tick of the repeated sync. */
  method Take(c: Config, dynamoDb: PostgreSQLPeerDb, sqliteDb: SqlPeerDB, ghost s: State, e: Event,
              firstSync: bool, failures: Failures)
    returns (ok: bool, ghost copied: nat)
    requires dynamoDb.Valid() && sqliteDb.Valid()
    requires s.source == dynamoDb.table && s.replica == sqliteDb.table && firstSync == s.lastNow.None?
    requires Enabled(c, s, e)
    modifies dynamoDb, sqliteDb
    ensures dynamoDb.Valid() && sqliteDb.Valid()
    ensures ok <==> !Fails(c, s, e, failures)
    ensures ok ==> dynamoDb.table == Step(c, s, e).source && sqliteDb.table == Step(c, s, e).replica
    ensures !ok ==> dynamoDb.table == s.source && Interrupted(c, s, e, failures, copied, sqliteDb.table)
  {
    ok, copied := true, 0;
    match e {
      case Commit(_, _, peer) =>
        dynamoDb.AddPeer(peer);
      case Sync(_, now) =>
        ok, copied := Tick(c, dynamoDb, sqliteDb, s, firstSync, now, failures);
    }
  }

  /**
   The repeated sync, driven by a run: commits are the crawler's, each sync is one tick.
   The first sync is full, the others incremental; the first that fails is the last.
   */
  method DbSyncHandler(c: Config, dynamoDb: PostgreSQLPeerDb, sqliteDb: SqlPeerDB, ghost s: State,
                       run: seq<Event>, failures: nat -> Failures)
    returns (ok: bool, ghost done: nat, ghost copied: nat)
    requires dynamoDb.Valid() && sqliteDb.Valid()
    requires s.source == dynamoDb.table && s.replica == sqliteDb.table && s.lastNow == None
    requires IsRun(c, s, run)
    modifies dynamoDb, sqliteDb
    ensures dynamoDb.Valid() && sqliteDb.Valid()
    ensures done <= |run| && IsRun(c, s, run[..done]) && dynamoDb.table == After(c, s, run[..done]).source
    ensures NoneFails(c, s, run[..done], failures)
    ensures ok <==> done == |run|
    ensures ok ==> sqliteDb.table == After(c, s, run[..done]).replica
    ensures !ok ==> Interrupted(c, After(c, s, run[..done]), run[done], failures(done), copied, sqliteDb.table)
  {
    var firstSync := true;
    var i := 0;
    ok, done, copied := true, 0, 0;
    PrefixIsRun(c, s, run, 0);
    while i < |run|
      invariant done == i <= |run| && ok && IsRun(c, s, run[..i])
      invariant dynamoDb.Valid() && sqliteDb.Valid()
      invariant dynamoDb.table == After(c, s, run[..i]).source
      invariant sqliteDb.table == After(c, s, run[..i]).replica
      invariant firstSync == After(c, s, run[..i]).lastNow.None?
      invariant NoneFails(c, s, run[..i], failures)
    {
      EnabledAt(c, s, run, i);
      ok, copied := Take(c, dynamoDb, sqliteDb, After(c, s, run[..i]), run[i], firstSync, failures(i));
      if !ok {
        return;
      }
      NoFailureYet(c, s, run, i, failures);
      firstSync := firstSync && !run[i].Sync?;
      i, done := i + 1, done + 1;
    }
  }
}
