/** What the replica is worth to the API: what queries of it return, where its rows come from, and restarts. */
module Replica {
  import opened DbSync
  import opened Rows
  import opened Sequences
  import opened Tables
  import opened Wrappers

  // ---------- queries ----------

  /** Rows with numbers in range are all read, alike by both readers. */
  lemma {:induction false} ReadInRange(rows: seq<Row>)
    requires AllInRange(rows)
    ensures ReadSqlite(rows) == ReadPostgres(rows)
  {
    if rows != [] {
      assert InRange(rows[0]);
      ReadInRange(rows[1..]);
      assert ReadPostgres(rows) == [DecodePostgres(rows[0])] + ReadPostgres(rows[1..]);
    }
  }

  /** Tables that are the same map hold the same rows. */
  lemma SameMapSameRows(a: seq<Row>, b: seq<Row>)
    requires UniqueIds(a) && UniqueIds(b) && Index(a) == Index(b)
    ensures multiset(a) == multiset(b)
  {
    IndexMembers(a);
    IndexMembers(b);
    SameMembers(a, b);
  }

  lemma SameMapSameAnswers(replica: seq<Row>, source: seq<Row>, q: Query)
    requires UniqueIds(replica) && UniqueIds(source) && AllInRange(source) && Index(replica) == Index(source)
    ensures multiset(ReadSqlite(Select(replica, q))) == multiset(ReadPostgres(Select(source, q)))
  {
    SameMapSameRows(replica, source);
    assert forall r :: r in replica ==> r in multiset(source);
    assert AllInRange(Select(replica, q));
    ReadInRange(Select(replica, q));
    FilterPermuted(RowWhere(q), replica, source);
    MapPermuted(DecodePostgres, Select(replica, q), Select(source, q));
  }

  /**
   What replica agreement is for: below the bound, after every sync of every run, every query
   for peers is answered from the replica as it would be from the source.
   */
  lemma ReplicaAnswers(c: Config, s: State, run: seq<Event>, q: Query)
    requires Ordered(c.text) && c.gap + c.delay < (c.updateTime + 60) * 1_000_000_000
    requires Start(s) && IsRun(c, s, run) && run != [] && Last(run).Sync?
    ensures multiset(ReadSqlite(Select(After(c, s, run).replica, q))) ==
            multiset(ReadPostgres(Select(After(c, s, run).source, q)))
  {
    RunKeepsBehind(c, s, run);
    ReplicaAgreement(c, s, run);
    SameMapSameAnswers(After(c, s, run).replica, After(c, s, run).source, q);
  }

  // ---------- where rows come from, bound or not ----------

  /** The replica has no row with an id that the source lacks. */
  ghost predicate NoStrangers(s: State) {
    Tidy(s) && Index(s.replica).Keys <= Index(s.source).Keys
  }

  lemma StepKeepsStrangersOut(c: Config, s: State, e: Event)
    requires NoStrangers(s) && Enabled(c, s, e)
    ensures NoStrangers(Step(c, s, e))
  {
    StepKeepsTidy(c, s, e);
    if e.Sync? {
      IndexOfSelected(s.source, SyncQuery(c.text, c.updateTime, s.lastNow.None?, e.now));
    }
  }

  lemma {:induction false} RunKeepsStrangersOut(c: Config, s: State, run: seq<Event>)
    requires Start(s) && IsRun(c, s, run)
    ensures NoStrangers(After(c, s, run))
  {
    if run != [] {
      RunKeepsStrangersOut(c, s, Past(run));
      StepKeepsStrangersOut(c, After(c, s, Past(run)), Last(run));
    }
  }

  ghost predicate Holds(rows: seq<Row>, id: string, row: Row) {
    id in Index(rows) && Index(rows)[id] == row
  }

  /** The source held that row for the id when the sync at `n` scanned it. */
  ghost predicate ScannedAt(c: Config, s: State, run: seq<Event>, n: nat, id: string, row: Row) {
    && n < |run| && run[n].Sync? && IsRun(c, s, run[..n])
    && Holds(After(c, s, run[..n]).source, id, row)
  }

  /** The row was in the replica from the start, or the source held it at some sync's scan. */
  ghost predicate Genuine(c: Config, s: State, run: seq<Event>, id: string, row: Row) {
    Holds(s.replica, id, row) || exists n: nat :: ScannedAt(c, s, run, n, id, row)
  }

  lemma StaysGenuine(c: Config, s: State, run: seq<Event>, id: string, row: Row)
    requires run != [] && Genuine(c, s, Past(run), id, row)
    ensures Genuine(c, s, run, id, row)
  {
    if !Holds(s.replica, id, row) {
      var n: nat :| ScannedAt(c, s, Past(run), n, id, row);
      assert Past(run)[..n] == run[..n];
      assert ScannedAt(c, s, run, n, id, row);
    }
  }

  /**
   Nothing is invented, whatever the times and however instants are rendered: after every run
   each row of the replica was the source's at some sync's scan, or the initial replica's.
   */
  lemma {:induction false} NothingInvented(c: Config, s: State, run: seq<Event>, id: string)
    requires Start(s) && IsRun(c, s, run) && id in Index(After(c, s, run).replica)
    ensures Genuine(c, s, run, id, Index(After(c, s, run).replica)[id])
  {
    if run != [] {
      var past, e := After(c, s, Past(run)), Last(run);
      var row := Index(After(c, s, run).replica)[id];
      RunKeepsStrangersOut(c, s, Past(run));
      StepKeepsTidy(c, past, e);
      if Holds(past.replica, id, row) {
        NothingInvented(c, s, Past(run), id);
        StaysGenuine(c, s, run, id, row);
      } else {
        IndexOfSelected(past.source, SyncQuery(c.text, c.updateTime, past.lastNow.None?, e.now));
        assert run[..|run| - 1] == Past(run);
        assert ScannedAt(c, s, run, |run| - 1, id, row);
      }
    }
  }

  /** Nor in the middle of a sync, scanned in any order. */
  lemma NothingInventedMidSync(
    c: Config, s: State, run: seq<Event>, e: Event, scanned: seq<Row>, i: nat, id: string)
    requires Start(s) && IsRun(c, s, run) && Enabled(c, After(c, s, run), e) && e.Sync?
    requires multiset(scanned) == multiset(SyncRows(c, After(c, s, run), e.now)) && i <= |scanned|
    requires id in Index(CopyAll(After(c, s, run).replica, ReadPostgres(scanned[..i])))
    ensures var row := Index(CopyAll(After(c, s, run).replica, ReadPostgres(scanned[..i])))[id];
            Holds(After(c, s, run).source, id, row) || Genuine(c, s, run, id, row)
  {
    var now := After(c, s, run);
    RunKeepsStrangersOut(c, s, run);
    ScannedAreSource(now.source, SyncQuery(c.text, c.updateTime, now.lastNow.None?, e.now), scanned, i);
    CopySetsRows(now.replica, scanned[..i]);
    if id in Index(now.replica) && id !in Index(scanned[..i]) {
      NothingInvented(c, s, run, id);
    }
  }

  // ---------- restarts ----------

  /** The first sync copies everything, so it agrees whatever the bound. */
  lemma FirstSyncAgrees(c: Config, s: State, e: Event)
    requires Start(s) && Enabled(c, s, e) && e.Sync?
    ensures Index(Step(c, s, e).replica) == Index(s.source)
  {
    StepKeepsTidy(c, s, e);
    IndexOfSelected(s.source, All);
    MapsEqual(Index(Step(c, s, e).replica), Index(s.source));
  }

  /** The state in which the server restarts when a sync got as far as the first `i` rows. */
  ghost function Restarted(s: State, scanned: seq<Row>, i: nat): State
    requires i <= |scanned|
  {
    State(s.source, CopyAll(s.replica, ReadPostgres(scanned[..i])), s.clock, None)
  }

  /**
   A restart recovers: whenever the server stops, between syncs or in the middle of one, its
   next sync leaves the replica equal to the source, with rows that were missed before too.
   */
  lemma RestartRecovers(
    c: Config, s: State, run: seq<Event>, now: nat, scanned: seq<Row>, i: nat, e: Event)
    requires Start(s) && IsRun(c, s, run) && Window(c.updateTime) <= now
    requires multiset(scanned) == multiset(SyncRows(c, After(c, s, run), now)) && i <= |scanned|
    requires Enabled(c, Restarted(After(c, s, run), scanned, i), e) && e.Sync?
    ensures Start(Restarted(After(c, s, run), scanned, i))
    ensures Index(Step(c, Restarted(After(c, s, run), scanned, i), e).replica) == Index(After(c, s, run).source)
  {
    var last := After(c, s, run);
    RunKeepsStrangersOut(c, s, run);
    ScannedAreSource(last.source, SyncQuery(c.text, c.updateTime, last.lastNow.None?, now), scanned, i);
    CopySetsRows(last.replica, scanned[..i]);
    FirstSyncAgrees(c, Restarted(last, scanned, i), e);
  }
}
