/**
 The two stores behind the `PeerDB` interface, over the tables they change in place. Each
 carries the history of every peer ever added to it, so that what its queries return is stated
 of that history, without tables.
 */
module Stores {
  import opened Wrappers
  import opened Peers
  import opened Rows
  import opened Tables
  import opened Text

  /** The SQLite store. The id is the primary key of its table. */
  class SqlPeerDB {
    var table: seq<Row>
    ghost var history: History

    ghost predicate Valid()
      reads this
    {
      table == SqliteTable(history)
    }

    /** Connect to a table, new or left by what was added before. */
    constructor (existing: seq<Row>, ghost past: History)
      requires existing == SqliteTable(past)
      ensures Valid() && table == existing && history == past
    {
      table := existing;
      history := past;
    }

    method AddPeer(peerData: PeerData)
      requires Valid()
      modifies this
      ensures Valid() && history == old(history) + [peerData]
      ensures table == InsertOrReplace(old(table), Encode(peerData))
      ensures Index(table) == Index(old(table))[peerData.id := Encode(peerData)]
    {
      TablesAgree(history);
      InsertOrReplaceSetsOne(table, Encode(peerData));
      assert (history + [peerData])[..|history|] == history;
      table := InsertOrReplace(table, Encode(peerData));
      history := history + [peerData];
    }

    /** Push every row that decodes. */
    method ReadRows(rows: seq<Row>) returns (peers: seq<PeerData>)
      ensures peers == ReadSqlite(rows)
    {
      peers := [];
      var i := 0;
      while i < |rows|
        invariant i <= |rows|
        invariant peers + ReadSqlite(rows[i..]) == ReadSqlite(rows)
      {
        var decoded := DecodeSqlite(rows[i]);
        if decoded.Some? {
          peers := peers + [decoded.value];
        }
        i := i + 1;
      }
    }

    method AllPeers() returns (peers: seq<PeerData>)
      requires Valid()
      ensures peers == Matching(LastWrites(history), All)
      ensures FindsExactly(history, peers, (p: PeerData) => true)
    {
      peers := ReadRows(Select(table, All));
      SqliteAnswers(history, All);
      QueriesFindLastWrites(history, All);
    }

    method AllActivePeers(lastSeen: string) returns (peers: seq<PeerData>)
      requires Valid()
      ensures peers == Matching(LastWrites(history), Active(lastSeen))
      ensures FindsExactly(history, peers, (p: PeerData) => TextLess(lastSeen, p.lastSeen))
    {
      peers := ReadRows(Select(table, Active(lastSeen)));
      SqliteAnswers(history, Active(lastSeen));
      QueriesFindLastWrites(history, Active(lastSeen));
    }

    method NodeById(id: string) returns (peers: Option<seq<PeerData>>)
      requires Valid()
      ensures peers == Some(Matching(LastWrites(history), ById(id)))
      ensures FindsExactly(history, peers.value, (p: PeerData) => p.id == id)
    {
      var found := ReadRows(Select(table, ById(id)));
      SqliteAnswers(history, ById(id));
      QueriesFindLastWrites(history, ById(id));
      peers := Some(found);
    }

    method NodeByIp(ip: string) returns (peers: Option<seq<PeerData>>)
      requires Valid()
      ensures peers == Some(Matching(LastWrites(history), ByIp(ip)))
      ensures FindsExactly(history, peers.value, (p: PeerData) => p.address == ip)
    {
      var found := ReadRows(Select(table, ByIp(ip)));
      SqliteAnswers(history, ByIp(ip));
      QueriesFindLastWrites(history, ByIp(ip));
      peers := Some(found);
    }

    /** Push the version of every row that decodes. */
    method ReadClients(rows: seq<Row>) returns (clients: seq<ClientData>)
      ensures clients == Versions(ReadSqlite(rows))
    {
      clients := [];
      ghost var read: seq<PeerData> := [];
      var i := 0;
      while i < |rows|
        invariant i <= |rows|
        invariant read + ReadSqlite(rows[i..]) == ReadSqlite(rows)
        invariant clients == Versions(read)
      {
        var decoded := DecodeSqlite(rows[i]);
        if decoded.Some? {
          clients := clients + [ClientData(decoded.value.clientVersion)];
          read := read + [decoded.value];
        }
        i := i + 1;
      }
      assert read == ReadSqlite(rows);
    }

    method Clients() returns (clients: seq<ClientData>)
      requires Valid()
      ensures clients == Versions(Matching(LastWrites(history), All))
    {
      clients := ReadClients(Select(table, All));
      SqliteAnswers(history, All);
    }

    method ActiveClients(lastSeen: string) returns (clients: seq<ClientData>)
      requires Valid()
      ensures clients == Versions(Matching(LastWrites(history), Active(lastSeen)))
    {
      clients := ReadClients(Select(table, Active(lastSeen)));
      SqliteAnswers(history, Active(lastSeen));
    }
  }

  /** The PostgreSQL store. Its queries promise no order. */
  class PostgreSQLPeerDb {
    var table: seq<Row>
    ghost var history: History

    ghost predicate Valid()
      reads this
    {
      table == PostgresTable(history)
    }

    constructor (existing: seq<Row>, ghost past: History)
      requires existing == PostgresTable(past)
      ensures Valid() && table == existing && history == past
    {
      table := existing;
      history := past;
    }

    method AddPeer(peerData: PeerData)
      requires Valid()
      modifies this
      ensures Valid() && history == old(history) + [peerData]
      ensures table == InsertOnConflictUpdate(old(table), Encode(peerData))
      ensures Index(table) == Index(old(table))[peerData.id := Encode(peerData)]
    {
      TablesAgree(history);
      InsertOnConflictSetsOne(table, Encode(peerData));
      assert (history + [peerData])[..|history|] == history;
      table := InsertOnConflictUpdate(table, Encode(peerData));
      history := history + [peerData];
    }

    function AllPeers(): (peers: seq<PeerData>)
      requires Valid()
      reads this
      ensures multiset(peers) == multiset(Matching(LastWrites(history), All))
      ensures FindsExactly(history, peers, (p: PeerData) => true)
    {
      PostgresAnswers(history, All);
      QueriesFindLastWrites(history, All);
      ReadPostgres(Select(table, All))
    }

    function AllActivePeers(lastSeen: string): (peers: seq<PeerData>)
      requires Valid()
      reads this
      ensures multiset(peers) == multiset(Matching(LastWrites(history), Active(lastSeen)))
      ensures FindsExactly(history, peers, (p: PeerData) => TextLess(lastSeen, p.lastSeen))
    {
      PostgresAnswers(history, Active(lastSeen));
      QueriesFindLastWrites(history, Active(lastSeen));
      ReadPostgres(Select(table, Active(lastSeen)))
    }

    function NodeById(id: string): (peers: Option<seq<PeerData>>)
      requires Valid()
      reads this
      ensures peers.Some? && multiset(peers.value) == multiset(Matching(LastWrites(history), ById(id)))
      ensures FindsExactly(history, peers.value, (p: PeerData) => p.id == id)
    {
      PostgresAnswers(history, ById(id));
      QueriesFindLastWrites(history, ById(id));
      Some(ReadPostgres(Select(table, ById(id))))
    }

    function NodeByIp(ip: string): (peers: Option<seq<PeerData>>)
      requires Valid()
      reads this
      ensures peers.Some? && multiset(peers.value) == multiset(Matching(LastWrites(history), ByIp(ip)))
      ensures FindsExactly(history, peers.value, (p: PeerData) => p.address == ip)
    {
      PostgresAnswers(history, ByIp(ip));
      QueriesFindLastWrites(history, ByIp(ip));
      Some(ReadPostgres(Select(table, ByIp(ip))))
    }

    function Clients(): (clients: seq<ClientData>)
      requires Valid()
      reads this
      ensures multiset(clients) == multiset(Names(Matching(LastWrites(history), All)))
    {
      PostgresAnswers(history, All);
      ReadNames(Select(table, All))
    }

    function ActiveClients(lastSeen: string): (clients: seq<ClientData>)
      requires Valid()
      reads this
      ensures multiset(clients) == multiset(Names(Matching(LastWrites(history), Active(lastSeen))))
    {
      PostgresAnswers(history, Active(lastSeen));
      ReadNames(Select(table, Active(lastSeen)))
    }
  }

  /** Adding peers to a new SQLite store leaves the last write of each id, in the order of those writes. */
  method FillSqlite(peers: seq<PeerData>) returns (db: SqlPeerDB)
    ensures fresh(db) && db.Valid() && db.history == peers && db.table == EncodeAll(LastWrites(peers))
  {
    db := new SqlPeerDB([], []);
    var i := 0;
    while i < |peers|
      invariant i <= |peers|
      invariant fresh(db) && db.Valid() && db.history == peers[..i]
    {
      db.AddPeer(peers[i]);
      i := i + 1;
    }
    assert peers[..i] == peers;
    SqliteHoldsLastWrites(peers);
  }

  /** Adding the same peers to a new PostgreSQL store leaves the same rows, in some order. */
  method FillPostgres(peers: seq<PeerData>) returns (db: PostgreSQLPeerDb)
    ensures fresh(db) && db.Valid() && db.history == peers
    ensures multiset(db.table) == multiset(EncodeAll(LastWrites(peers)))
  {
    db := new PostgreSQLPeerDb([], []);
    var i := 0;
    while i < |peers|
      invariant i <= |peers|
      invariant fresh(db) && db.Valid() && db.history == peers[..i]
    {
      db.AddPeer(peers[i]);
      i := i + 1;
    }
    assert peers[..i] == peers;
    SqliteHoldsLastWrites(peers);
    SameRows(peers);
  }
}
