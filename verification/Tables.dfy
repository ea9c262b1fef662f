/**
 The peer table of each backend and its queries. A table is its rows in the order a scan
 returns them; what a history of `add_peer` calls should leave is stated without tables.
 */
module Tables {
  import opened Peers
  import opened Rows
  import opened Sequences
  import opened Text

  ghost predicate UniqueIds(rows: seq<Row>) {
    forall i, j :: 0 <= i < j < |rows| ==> rows[i].id != rows[j].id
  }

  /** A table as a finite map from ids to rows. */
  function Index(rows: seq<Row>): map<string, Row>
  {
    if rows == [] then map[]
    else Index(rows[..|rows| - 1])[rows[|rows| - 1].id := rows[|rows| - 1]]
  }

  function OtherId(id: string): Row -> bool {
    (r: Row) => r.id != id
  }

  /** SQLite's INSERT OR REPLACE: the conflicting row is deleted and the new one added at the end. */
  function InsertOrReplace(rows: seq<Row>, r: Row): seq<Row> {
    Filter(OtherId(r.id), rows) + [r]
  }

  /** The SET clause: every column but the id is taken from the excluded row. */
  function DoUpdate(current: Row, excluded: Row): Row {
    current.(
      ip := excluded.ip,
      clientName := excluded.clientName,
      clientVersion := excluded.clientVersion,
      clientBuild := excluded.clientBuild,
      clientArch := excluded.clientArch,
      os := excluded.os,
      clientLanguage := excluded.clientLanguage,
      enodeUrl := excluded.enodeUrl,
      port := excluded.port,
      chain := excluded.chain,
      genesisHash := excluded.genesisHash,
      bestBlock := excluded.bestBlock,
      totalDifficulty := excluded.totalDifficulty,
      country := excluded.country,
      city := excluded.city,
      lastSeen := excluded.lastSeen,
      capabilities := excluded.capabilities,
      ethVersion := excluded.ethVersion,
      synced := excluded.synced,
      isp := excluded.isp)
  }

  /** PostgreSQL's ON CONFLICT (id) DO UPDATE: a row with the same id is updated in its place. */
  function InsertOnConflictUpdate(rows: seq<Row>, r: Row): seq<Row>
  {
    if rows == [] then [r]
    else if rows[0].id == r.id then [DoUpdate(rows[0], r)] + rows[1..]
    else [rows[0]] + InsertOnConflictUpdate(rows[1..], r)
  }

  // ---------- both upserts set one entry of the map ----------

  lemma {:induction false} FilterKeepsUnique(p: Row -> bool, rows: seq<Row>)
    requires UniqueIds(rows)
    ensures UniqueIds(Filter(p, rows))
  {
    if rows != [] {
      FilterKeepsUnique(p, rows[1..]);
      assert forall r :: r in rows[1..] ==> r.id != rows[0].id;
      assert forall r :: r in Filter(p, rows[1..]) ==> r in rows[1..];
    }
  }

  lemma {:induction false} IndexMembers(rows: seq<Row>)
    requires UniqueIds(rows)
    ensures forall id :: id in Index(rows) ==> Index(rows)[id] in rows && Index(rows)[id].id == id
    ensures forall r :: r in rows ==> r.id in Index(rows) && Index(rows)[r.id] == r
  {
    if rows != [] {
      IndexMembers(rows[..|rows| - 1]);
    }
  }

  /** A table without repeated ids is determined, as a map, by the rows it holds. */
  lemma IndexIsMembership(a: seq<Row>, b: seq<Row>)
    requires UniqueIds(a) && UniqueIds(b)
    requires forall r :: r in a <==> r in b
    ensures Index(a) == Index(b)
  {
    IndexMembers(a);
    IndexMembers(b);
  }

  lemma InsertOrReplaceSetsOne(rows: seq<Row>, r: Row)
    requires UniqueIds(rows)
    ensures UniqueIds(InsertOrReplace(rows, r))
    ensures Index(InsertOrReplace(rows, r)) == Index(rows)[r.id := r]
  {
    var next := InsertOrReplace(rows, r);
    FilterKeepsUnique(OtherId(r.id), rows);
    assert UniqueIds(next) by {
      forall i | 0 <= i < |next| - 1
        ensures next[i].id != r.id
      {
        assert next[i] in Filter(OtherId(r.id), rows);
      }
    }
    IndexMembers(rows);
    IndexMembers(next);
    assert forall x :: x in next <==> x == r || (x in rows && x.id != r.id);
    MapsEqual(Index(next), Index(rows)[r.id := r]);
  }

  lemma MapsEqual(a: map<string, Row>, b: map<string, Row>)
    requires forall id :: id in a <==> id in b
    requires forall id :: id in a && id in b ==> a[id] == b[id]
    ensures a == b
  {
  }

  lemma {:induction false} OnConflictMembers(rows: seq<Row>, r: Row)
    requires UniqueIds(rows)
    ensures UniqueIds(InsertOnConflictUpdate(rows, r))
    ensures forall x :: x in InsertOnConflictUpdate(rows, r) <==> x == r || (x in rows && x.id != r.id)
  {
    if rows != [] {
      var next := InsertOnConflictUpdate(rows, r);
      if rows[0].id == r.id {
        assert DoUpdate(rows[0], r) == r;
      } else {
        OnConflictMembers(rows[1..], r);
        forall j | 0 < j < |next|
          ensures next[j].id != next[0].id
        {
          assert next[j] in InsertOnConflictUpdate(rows[1..], r);
        }
      }
    }
  }

  lemma InsertOnConflictSetsOne(rows: seq<Row>, r: Row)
    requires UniqueIds(rows)
    ensures UniqueIds(InsertOnConflictUpdate(rows, r))
    ensures Index(InsertOnConflictUpdate(rows, r)) == Index(rows)[r.id := r]
  {
    var next := InsertOnConflictUpdate(rows, r);
    OnConflictMembers(rows, r);
    IndexMembers(rows);
    IndexMembers(next);
    MapsEqual(Index(next), Index(rows)[r.id := r]);
  }

  // ---------- histories ----------

  type History = seq<PeerData>

  function SqliteTable(h: History): seq<Row>
  {
    if h == [] then []
    else InsertOrReplace(SqliteTable(h[..|h| - 1]), Encode(h[|h| - 1]))
  }

  function PostgresTable(h: History): seq<Row>
  {
    if h == [] then []
    else InsertOnConflictUpdate(PostgresTable(h[..|h| - 1]), Encode(h[|h| - 1]))
  }

  ghost predicate WrittenFrom(h: History, i: nat, id: string) {
    exists j :: i <= j < |h| && h[j].id == id
  }

  /** The peers that are never written again, in the order of their last write. */
  ghost function LastWrites(h: History): seq<PeerData>
  {
    if h == [] then []
    else if WrittenFrom(h, 1, h[0].id) then LastWrites(h[1..])
    else [h[0]] + LastWrites(h[1..])
  }

  function EncodeAll(ps: seq<PeerData>): seq<Row> {
    Map(Encode, ps)
  }

  ghost function OtherPeer(id: string): PeerData -> bool {
    (p: PeerData) => p.id != id
  }

  lemma WrittenFromStep(h: History, p: PeerData, id: string)
    requires h != []
    ensures WrittenFrom(h + [p], 1, id) <==> WrittenFrom(h, 1, id) || p.id == id
  {
    var next := h + [p];
    assert next[|h|].id == p.id;
    if WrittenFrom(h, 1, id) {
      var j :| 1 <= j < |h| && h[j].id == id;
      assert next[j].id == id;
    }
  }

  /** One more write takes the place of the earlier one of its id. */
  lemma {:induction false} LastWritesStep(h: History, p: PeerData)
    ensures LastWrites(h + [p]) == Filter(OtherPeer(p.id), LastWrites(h)) + [p]
  {
    if h == [] {
      assert h + [p] == [p];
      assert LastWrites([p]) == [p] + LastWrites([]);
    } else {
      LastWritesStep(h[1..], p);
      assert (h + [p])[1..] == h[1..] + [p];
      WrittenFromStep(h, p, h[0].id);
      var rest := LastWrites(h[1..]);
      if !WrittenFrom(h, 1, h[0].id) {
        assert ([h[0]] + rest)[1..] == rest;
      }
    }
  }

  lemma InsertEncoded(ps: seq<PeerData>, p: PeerData)
    ensures InsertOrReplace(EncodeAll(ps), Encode(p)) == EncodeAll(Filter(OtherPeer(p.id), ps) + [p])
  {
    FilterOfMap(Encode, OtherId(p.id), OtherPeer(p.id), ps);
    MapAppend(Encode, Filter(OtherPeer(p.id), ps), [p]);
  }

  /** The SQLite table is exactly the last write of every id, in the order of those writes. */
  lemma {:induction false} SqliteHoldsLastWrites(h: History)
    ensures SqliteTable(h) == EncodeAll(LastWrites(h))
  {
    if h != [] {
      var past, p := h[..|h| - 1], h[|h| - 1];
      SqliteHoldsLastWrites(past);
      assert h == past + [p];
      LastWritesStep(past, p);
      InsertEncoded(LastWrites(past), p);
    }
  }

  lemma {:induction false} TablesAgree(h: History)
    ensures UniqueIds(SqliteTable(h)) && UniqueIds(PostgresTable(h))
    ensures Index(SqliteTable(h)) == Index(PostgresTable(h))
  {
    if h != [] {
      TablesAgree(h[..|h| - 1]);
      InsertOrReplaceSetsOne(SqliteTable(h[..|h| - 1]), Encode(h[|h| - 1]));
      InsertOnConflictSetsOne(PostgresTable(h[..|h| - 1]), Encode(h[|h| - 1]));
    }
  }

  /** Write `i` is the last one of its id. */
  ghost predicate IsLastWrite(h: History, i: nat) {
    i < |h| && !WrittenFrom(h, i + 1, h[i].id)
  }

  /** `LastWrites` lists every last write and nothing else, each id once. */
  lemma {:induction false} LastWritesAreLast(h: History)
    ensures forall p :: p in LastWrites(h) <==> exists i: nat :: IsLastWrite(h, i) && h[i] == p
    ensures forall a, b :: 0 <= a < b < |LastWrites(h)| ==> LastWrites(h)[a].id != LastWrites(h)[b].id
  {
    if h != [] {
      var tail := h[1..];
      LastWritesAreLast(tail);
      TailWrites(h);
      forall p
        ensures p in LastWrites(h) <==> exists i: nat :: IsLastWrite(h, i) && h[i] == p
      {
        if p in LastWrites(tail) {
          var i: nat :| IsLastWrite(tail, i) && tail[i] == p;
          assert IsLastWrite(h, i + 1) && h[i + 1] == p;
        }
        if i: nat :| IsLastWrite(h, i) && h[i] == p {
          if i > 0 {
            assert IsLastWrite(tail, i - 1) && tail[i - 1] == p;
          }
        }
        if p in LastWrites(h) && p !in LastWrites(tail) {
          assert IsLastWrite(h, 0);
        }
      }
      forall b | 0 <= b < |LastWrites(tail)|
        ensures !WrittenFrom(h, 1, h[0].id) ==> LastWrites(tail)[b].id != h[0].id
      {
        assert LastWrites(tail)[b] in LastWrites(tail);
        var i: nat :| IsLastWrite(tail, i) && tail[i] == LastWrites(tail)[b];
        assert h[i + 1] == tail[i];
      }
    }
  }

  lemma TailWrites(h: History)
    requires h != []
    ensures forall i: nat, id :: WrittenFrom(h[1..], i, id) <==> WrittenFrom(h, i + 1, id)
    ensures forall i: nat :: IsLastWrite(h[1..], i) <==> IsLastWrite(h, i + 1)
  {
    forall i: nat, id
      ensures WrittenFrom(h[1..], i, id) <==> WrittenFrom(h, i + 1, id)
    {
      if WrittenFrom(h, i + 1, id) {
        var j :| i + 1 <= j < |h| && h[j].id == id;
        assert h[1..][j - 1].id == id;
      }
    }
  }

  /** They are listed in the order they were written in. */
  lemma {:induction false} LastWritesInOrder(h: History, a: nat, b: nat, i: nat, j: nat)
    requires a < b < |LastWrites(h)|
    requires IsLastWrite(h, i) && h[i] == LastWrites(h)[a] && IsLastWrite(h, j) && h[j] == LastWrites(h)[b]
    ensures i < j
  {
    var tail := h[1..];
    LastWritesAreLast(h);
    TailWrites(h);
    if WrittenFrom(h, 1, h[0].id) {
      assert !IsLastWrite(h, 0);
      LastWritesInOrder(tail, a, b, i - 1, j - 1);
    } else {
      assert i > 0 ==> h[i].id != h[0].id;
      assert LastWrites(h)[0] == h[0] && h[j].id != h[0].id;
      if a > 0 {
        assert h[i].id != h[0].id;
        LastWritesInOrder(tail, a - 1, b - 1, i - 1, j - 1);
      }
    }
  }

  // ---------- queries ----------

  /** The WHERE clauses in use. */
  datatype Query = All | Active(lastSeen: string) | ById(nodeId: string) | ByIp(nodeIp: string)

  predicate RowMatches(q: Query, r: Row) {
    match q
    case All => true
    case Active(lastSeen) => TextLess(lastSeen, r.lastSeen)
    case ById(id) => r.id == id
    case ByIp(ip) => r.ip == ip
  }

  function RowWhere(q: Query): Row -> bool {
    (r: Row) => RowMatches(q, r)
  }

  /** The rows a query selects, in table order. */
  function Select(rows: seq<Row>, q: Query): seq<Row> {
    Filter(RowWhere(q), rows)
  }

  /** SQLite readers skip the rows that do not decode. */
  function ReadSqlite(rows: seq<Row>): seq<PeerData>
  {
    if rows == [] then []
    else
      match DecodeSqlite(rows[0])
      case Some(p) => [p] + ReadSqlite(rows[1..])
      case None => ReadSqlite(rows[1..])
  }

  function ReadPostgres(rows: seq<Row>): seq<PeerData> {
    Map(DecodePostgres, rows)
  }

  function Version(p: PeerData): ClientData {
    ClientData(p.clientVersion)
  }

  function Versions(ps: seq<PeerData>): seq<ClientData> {
    Map(Version, ps)
  }

  function ReadName(r: Row): ClientData {
    ClientData(r.clientName)
  }

  /** The PostgreSQL client queries read the name column into the version field. */
  function ReadNames(rows: seq<Row>): seq<ClientData> {
    Map(ReadName, rows)
  }

  /** What a query asks of the peers themselves. */
  predicate PeerMatches(q: Query, p: PeerData) {
    match q
    case All => true
    case Active(lastSeen) => TextLess(lastSeen, p.lastSeen)
    case ById(id) => p.id == id
    case ByIp(ip) => p.address == ip
  }

  function PeerWhere(q: Query): PeerData -> bool {
    (p: PeerData) => PeerMatches(q, p)
  }

  /** The normalised peers a query is about. */
  function Matching(ps: seq<PeerData>, q: Query): seq<PeerData> {
    Map(Normalise, Filter(PeerWhere(q), ps))
  }

  function Name(p: PeerData): ClientData {
    ClientData(p.clientName)
  }

  function Names(ps: seq<PeerData>): seq<ClientData> {
    Map(Name, ps)
  }

  /** Rows written for peers are all read, as the normalised peers. */
  lemma {:induction false} ReadEncoded(ps: seq<PeerData>)
    ensures ReadSqlite(EncodeAll(ps)) == Map(Normalise, ps)
  {
    if ps != [] {
      ReadBack(ps[0]);
      ReadEncoded(ps[1..]);
      assert EncodeAll(ps)[1..] == EncodeAll(ps[1..]);
    }
  }

  lemma ReadSelected(ps: seq<PeerData>, q: Query)
    ensures ReadSqlite(Select(EncodeAll(ps), q)) == Matching(ps, q)
    ensures ReadPostgres(Select(EncodeAll(ps), q)) == Matching(ps, q)
    ensures ReadNames(Select(EncodeAll(ps), q)) == Names(Matching(ps, q))
  {
    var selected := Filter(PeerWhere(q), ps);
    FilterOfMap(Encode, RowWhere(q), PeerWhere(q), ps);
    ReadEncoded(selected);
    forall p: PeerData
      ensures DecodePostgres(Encode(p)) == Normalise(p)
    {
      ReadBack(p);
    }
    MapOfMap(Encode, DecodePostgres, Normalise, selected);
    MapOfMap(Encode, ReadName, Name, selected);
    MapOfMap(Normalise, Name, Name, selected);
  }

  /**
   The SQLite store agrees with its history: every query returns the last write of each id
   that it asks for, normalised, in the order of those writes, and skips no row.
   */
  lemma SqliteAnswers(h: History, q: Query)
    ensures ReadSqlite(Select(SqliteTable(h), q)) == Matching(LastWrites(h), q)
  {
    SqliteHoldsLastWrites(h);
    ReadSelected(LastWrites(h), q);
  }

  // ---------- the order of rows does not matter ----------

  /** The two backends hold the same rows after the same history. */
  lemma SameRows(h: History)
    ensures multiset(PostgresTable(h)) == multiset(SqliteTable(h))
  {
    TablesAgree(h);
    var a, b := PostgresTable(h), SqliteTable(h);
    IndexMembers(a);
    IndexMembers(b);
    SameMembers(a, b);
  }

  /**
   The PostgreSQL store agrees with the same history, up to the order of the rows; its
   client queries return the names of the matching peers.
   */
  lemma PostgresAnswers(h: History, q: Query)
    ensures multiset(ReadPostgres(Select(PostgresTable(h), q))) == multiset(Matching(LastWrites(h), q))
    ensures multiset(ReadNames(Select(PostgresTable(h), q))) == multiset(Names(Matching(LastWrites(h), q)))
  {
    SameRows(h);
    SqliteHoldsLastWrites(h);
    FilterPermuted(RowWhere(q), PostgresTable(h), SqliteTable(h));
    MapPermuted(DecodePostgres, Select(PostgresTable(h), q), Select(SqliteTable(h), q));
    MapPermuted(ReadName, Select(PostgresTable(h), q), Select(SqliteTable(h), q));
    ReadSelected(LastWrites(h), q);
  }

  /** The backends answer every query with the same peers. */
  lemma BackendsAgree(h: History, q: Query)
    ensures multiset(ReadPostgres(Select(PostgresTable(h), q))) ==
            multiset(ReadSqlite(Select(SqliteTable(h), q)))
  {
    PostgresAnswers(h, q);
    SqliteAnswers(h, q);
  }

  /**
   Their client queries differ: SQLite returns versions and PostgreSQL names. They agree
   exactly when the matching peers have the same names as versions, counted with repetition.
   */
  lemma ClientQueriesDiffer(h: History, q: Query)
    ensures var ps := Matching(LastWrites(h), q);
            multiset(ReadNames(Select(PostgresTable(h), q))) ==
            multiset(Versions(ReadSqlite(Select(SqliteTable(h), q)))) <==>
            multiset(Names(ps)) == multiset(Versions(ps))
  {
    PostgresAnswers(h, q);
    SqliteAnswers(h, q);
  }

  /** One stored peer is enough to tell the two client queries apart. */
  lemma ClientQueriesDifferOnOne(p: PeerData)
    ensures multiset(ReadNames(Select(PostgresTable([p]), All))) ==
            multiset(Versions(ReadSqlite(Select(SqliteTable([p]), All)))) <==>
            p.clientName == p.clientVersion
  {
    ClientQueriesDiffer([p], All);
    OneWrite(p);
    OneResult(p.clientName, p.clientVersion);
  }

  lemma OneWrite(p: PeerData)
    ensures Names(Matching(LastWrites([p]), All)) == [ClientData(p.clientName)]
    ensures Versions(Matching(LastWrites([p]), All)) == [ClientData(p.clientVersion)]
  {
    assert LastWrites([p]) == [p] by {
      assert LastWrites([p]) == [p] + LastWrites([]);
    }
    FilterOne(PeerWhere(All), p);
    assert Matching([p], All) == [Normalise(p)];
  }

  lemma OneResult(a: string, b: string)
    ensures multiset([ClientData(a)]) == multiset([ClientData(b)]) <==> a == b
  {
    assert ClientData(a) in multiset([ClientData(a)]);
  }

  // ---------- what each query finds, in terms of the history alone ----------

  /** The list holds the normalised last writes that are wanted, and nothing else, each id once. */
  ghost predicate FindsExactly(h: History, found: seq<PeerData>, wanted: PeerData -> bool) {
    && (forall p :: p in found <==> exists i: nat :: IsLastWrite(h, i) && wanted(h[i]) && p == Normalise(h[i]))
    && (forall a, b :: 0 <= a < b < |found| ==> found[a].id != found[b].id)
  }

  lemma {:induction false} FilterKeepsDistinctIds(p: PeerData -> bool, ps: seq<PeerData>)
    requires forall a, b :: 0 <= a < b < |ps| ==> ps[a].id != ps[b].id
    ensures forall a, b :: 0 <= a < b < |Filter(p, ps)| ==> Filter(p, ps)[a].id != Filter(p, ps)[b].id
  {
    if ps != [] {
      FilterKeepsDistinctIds(p, ps[1..]);
      assert forall x :: x in ps[1..] ==> x.id != ps[0].id;
      assert forall x :: x in Filter(p, ps[1..]) ==> x in ps[1..];
    }
  }

  lemma MatchingIsExact(h: History, q: Query)
    ensures FindsExactly(h, Matching(LastWrites(h), q), PeerWhere(q))
  {
    var selected, found := Filter(PeerWhere(q), LastWrites(h)), Matching(LastWrites(h), q);
    LastWritesAreLast(h);
    FilterKeepsDistinctIds(PeerWhere(q), LastWrites(h));
    forall p
      ensures p in found <==> exists i: nat :: IsLastWrite(h, i) && PeerMatches(q, h[i]) && p == Normalise(h[i])
    {
      if p in found {
        NormalisedFrom(selected, p);
      }
      if i: nat :| IsLastWrite(h, i) && PeerMatches(q, h[i]) && p == Normalise(h[i]) {
        InNormalised(selected, h[i]);
      }
    }
  }

  lemma NormalisedFrom(ps: seq<PeerData>, p: PeerData)
    requires p in Map(Normalise, ps)
    ensures exists x :: x in ps && p == Normalise(x)
  {
    var a :| 0 <= a < |ps| && Map(Normalise, ps)[a] == p;
    assert ps[a] in ps;
  }

  lemma InNormalised(ps: seq<PeerData>, p: PeerData)
    requires p in ps
    ensures Normalise(p) in Map(Normalise, ps)
  {
    var a :| 0 <= a < |ps| && ps[a] == p;
    assert Map(Normalise, ps)[a] == Normalise(p);
  }

  lemma DistinctIdsPermuted(a: seq<PeerData>, b: seq<PeerData>)
    requires multiset(a) == multiset(b)
    requires forall i, j :: 0 <= i < j < |a| ==> a[i].id != a[j].id
    ensures forall i, j :: 0 <= i < j < |b| ==> b[i].id != b[j].id
  {
    forall i, j | 0 <= i < j < |b| && b[i].id == b[j].id
      ensures false
    {
      assert b[i] in multiset(a) && b[j] in multiset(a);
      assert b[i] in a && b[j] in a;
      TwiceCounts(b, i, j);
      DistinctCount(a, b[i]);
    }
  }

  /** Which peers are found does not depend on the order they are returned in. */
  lemma FindsPermuted(h: History, a: seq<PeerData>, b: seq<PeerData>, wanted: PeerData -> bool)
    requires FindsExactly(h, a, wanted) && multiset(a) == multiset(b)
    ensures FindsExactly(h, b, wanted)
  {
    DistinctIdsPermuted(a, b);
    forall p
      ensures p in b <==> p in a
    {
      assert p in multiset(b) <==> p in multiset(a);
    }
  }

  lemma FindsAlike(h: History, found: seq<PeerData>, f: PeerData -> bool, g: PeerData -> bool)
    requires FindsExactly(h, found, f) && forall p :: f(p) == g(p)
    ensures FindsExactly(h, found, g)
  {
  }

  lemma PeerWhereFinds(h: History, q: Query)
    ensures FindsExactly(h, ReadSqlite(Select(SqliteTable(h), q)), PeerWhere(q))
    ensures FindsExactly(h, ReadPostgres(Select(PostgresTable(h), q)), PeerWhere(q))
  {
    MatchingIsExact(h, q);
    SqliteAnswers(h, q);
    PostgresAnswers(h, q);
    FindsPermuted(h, Matching(LastWrites(h), q), ReadPostgres(Select(PostgresTable(h), q)), PeerWhere(q));
  }

  /**
   What the WHERE clauses mean: on both backends each query finds the last writes it asks for,
   whichever field it asks by.
   */
  lemma QueriesFindLastWrites(h: History, q: Query)
    ensures var wanted := (p: PeerData) =>
              match q
              case All => true
              case Active(lastSeen) => TextLess(lastSeen, p.lastSeen)
              case ById(id) => p.id == id
              case ByIp(ip) => p.address == ip;
            && FindsExactly(h, ReadSqlite(Select(SqliteTable(h), q)), wanted)
            && FindsExactly(h, ReadPostgres(Select(PostgresTable(h), q)), wanted)
  {
    PeerWhereFinds(h, q);
    var wanted := (p: PeerData) =>
      match q
      case All => true
      case Active(lastSeen) => TextLess(lastSeen, p.lastSeen)
      case ById(id) => p.id == id
      case ByIp(ip) => p.address == ip;
    FindsAlike(h, ReadSqlite(Select(SqliteTable(h), q)), PeerWhere(q), wanted);
    FindsAlike(h, ReadPostgres(Select(PostgresTable(h), q)), PeerWhere(q), wanted);
  }

  /** Looking a node up by its id finds its last write, alone, or nothing. */
  lemma ByIdFindsLastWrite(h: History, id: string)
    ensures var found := ReadSqlite(Select(SqliteTable(h), ById(id)));
            || (found == [] && forall i: nat :: i < |h| ==> h[i].id != id)
            || (exists i: nat :: IsLastWrite(h, i) && h[i].id == id && found == [Normalise(h[i])])
  {
    SqliteAnswers(h, ById(id));
    LastWritesAreLast(h);
    var ps := LastWrites(h);
    OneOfId(ps, id);
    if i: nat :| i < |h| && h[i].id == id {
      var last := LastOfId(h, i);
      assert h[last] in ps;
    }
  }

  /** The last write of an id that is written at all. */
  lemma LastOfId(h: History, i: nat) returns (last: nat)
    requires i < |h|
    ensures IsLastWrite(h, last) && h[last].id == h[i].id
    decreases |h| - i
  {
    if j: nat :| i + 1 <= j < |h| && h[j].id == h[i].id {
      last := LastOfId(h, j);
    } else {
      last := i;
    }
  }

  lemma {:induction false} OneOfId(ps: seq<PeerData>, id: string)
    requires forall a, b :: 0 <= a < b < |ps| ==> ps[a].id != ps[b].id
    ensures (forall p :: p in ps ==> p.id != id) ==> Matching(ps, ById(id)) == []
    ensures forall p :: p in ps && p.id == id ==> Matching(ps, ById(id)) == [Normalise(p)]
  {
    if ps != [] {
      OneOfId(ps[1..], id);
      var rest := Filter(PeerWhere(ById(id)), ps[1..]);
      if ps[0].id == id {
        assert forall p :: p in ps[1..] ==> p.id != id;
        assert Matching(ps[1..], ById(id)) == [];
        assert rest == [];
        assert Filter(PeerWhere(ById(id)), ps) == [ps[0]];
      } else {
        assert Filter(PeerWhere(ById(id)), ps) == rest;
      }
    }
  }
}
