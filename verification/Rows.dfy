/** The row a peer is stored as, and how each backend writes and reads it. */
module Rows {
  import opened Wrappers
  import opened Peers
  import opened Text

  /**
   One row of `eth_peer_data`. Integer columns are wider than the fields they store, so a
   row can hold numbers no peer has.
   */
  datatype Row = Row(
    id: string,
    ip: string,
    clientName: string,
    clientVersion: string,
    clientBuild: string,
    clientArch: string,
    os: string,
    clientLanguage: string,
    enodeUrl: string,
    port: int,
    chain: string,
    genesisHash: string,
    bestBlock: string,
    totalDifficulty: string,
    country: string,
    city: string,
    lastSeen: string,
    capabilities: string,
    ethVersion: int,
    synced: Option<bool>,
    isp: string)

  /** The values both backends bind when they insert a peer. */
  function Encode(p: PeerData): Row
  {
    Row(
      p.id, p.address, p.clientName, p.clientVersion, p.clientBuild, p.clientArch, p.os,
      p.clientLanguage, p.enodeUrl, p.tcpPort, p.chain, p.genesisBlockHash, p.bestBlock,
      p.totalDifficulty, p.country, p.city, p.lastSeen, Join(p.capabilities, ','),
      p.ethVersion, p.synced, p.isp)
  }

  /** The peer of a row once its two numbers are known. */
  function PeerOf(r: Row, port: U16, ethVersion: U8): PeerData
  {
    PeerData(
      r.enodeUrl, r.id, r.ip, port, r.clientName, r.clientVersion, r.clientBuild, r.clientArch,
      r.os, r.clientLanguage, ethVersion, Split(r.capabilities, ','), r.chain,
      r.totalDifficulty, r.bestBlock, r.genesisHash, r.lastSeen, r.country, r.city, r.synced, r.isp)
  }

  /** SQLite: a number that does not fit its field is an error, and the row is skipped. */
  function DecodeSqlite(r: Row): Option<PeerData>
  {
    if 0 <= r.port < 0x1_0000 && 0 <= r.ethVersion < 0x100
    then Some(PeerOf(r, r.port, r.ethVersion))
    else None
  }

  /** PostgreSQL: numbers are cast, keeping their low bits. */
  function DecodePostgres(r: Row): PeerData
  {
    PeerOf(r, r.port % 0x1_0000, r.ethVersion % 0x100)
  }

  /** The numbers of the row are those of some peer. */
  predicate InRange(r: Row) {
    0 <= r.port < 0x1_0000 && 0 <= r.ethVersion < 0x100
  }

  /** What storing does to a peer: its capabilities are joined and split again. */
  function Normalise(p: PeerData): PeerData {
    p.(capabilities := Split(Join(p.capabilities, ','), ','))
  }

  /** Reading a written row gives the normalised peer, on both backends, and no row is dropped. */
  lemma ReadBack(p: PeerData)
    ensures InRange(Encode(p))
    ensures DecodeSqlite(Encode(p)) == Some(Normalise(p))
    ensures DecodePostgres(Encode(p)) == Normalise(p)
  {
  }

  /** Each column of a written row holds the field it is named after. */
  lemma ColumnsOfPeer(p: PeerData)
    ensures var r := Encode(p);
            && r.id == p.id && r.ip == p.address && r.port == p.tcpPort && r.enodeUrl == p.enodeUrl
            && r.clientName == p.clientName && r.clientVersion == p.clientVersion
            && r.clientBuild == p.clientBuild && r.clientArch == p.clientArch
            && r.os == p.os && r.clientLanguage == p.clientLanguage
            && r.chain == p.chain && r.genesisHash == p.genesisBlockHash && r.bestBlock == p.bestBlock
            && r.totalDifficulty == p.totalDifficulty && r.ethVersion == p.ethVersion
            && r.country == p.country && r.city == p.city && r.isp == p.isp
            && r.lastSeen == p.lastSeen && r.synced == p.synced
            && (p.capabilities == [] ==> r.capabilities == "")
            && Split(r.capabilities, ',') == Normalise(p).capabilities
  {
    JoinOfNothing(',');
  }

  /** A peer without capabilities is read back with one, the empty text. */
  lemma NoCapabilities(p: PeerData)
    requires p.capabilities == []
    ensures DecodeSqlite(Encode(p)) == Some(p.(capabilities := [""]))
    ensures DecodePostgres(Encode(p)) == p.(capabilities := [""])
  {
    JoinOfNothing(',');
  }

  /**
   What becomes of numbers no peer has: SQLite skips the row, PostgreSQL keeps their low bits;
   every other column is read the same.
   */
  lemma StrangeNumbers(r: Row)
    ensures DecodeSqlite(r).Some? <==> 0 <= r.port < 65_536 && 0 <= r.ethVersion < 256
    ensures (r.port - DecodePostgres(r).tcpPort) % 65_536 == 0
    ensures (r.ethVersion - DecodePostgres(r).ethVersion) % 256 == 0
    ensures DecodeSqlite(r).Some? ==> DecodeSqlite(r).value == DecodePostgres(r)
  {
    assert r.port - r.port % 0x1_0000 == 0x1_0000 * (r.port / 0x1_0000);
    assert r.ethVersion - r.ethVersion % 0x100 == 0x100 * (r.ethVersion / 0x100);
  }

  /** Storing twice changes nothing more, and a stored row is the same for a peer and its normal form. */
  lemma NormaliseIsIdempotent(p: PeerData)
    ensures Normalise(Normalise(p)) == Normalise(p)
    ensures Encode(Normalise(p)) == Encode(p)
  {
    JoinOfSplit(Join(p.capabilities, ','), ',');
  }

  /** A peer is read back unchanged exactly when it has a capability and none holds a comma. */
  lemma ReadBackUnchanged(p: PeerData)
    ensures DecodeSqlite(Encode(p)) == Some(p) <==>
            p.capabilities != [] && SeparatorFree(p.capabilities, ',')
  {
    SplitOfJoin(p.capabilities, ',');
  }

  /**
   Copying a row from PostgreSQL to SQLite, through a decoded peer, keeps every column,
   the text of the capabilities included, exactly when its numbers are those of a peer.
   */
  lemma CopyKeepsRow(r: Row)
    ensures Encode(DecodePostgres(r)) == r <==> InRange(r)
  {
    JoinOfSplit(r.capabilities, ',');
  }
}
