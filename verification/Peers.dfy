/** The record the crawler keeps about a peer. */
module Peers {
  import opened Wrappers

  type U8 = x: int | 0 <= x < 0x100
  type U16 = x: int | 0 <= x < 0x1_0000

  datatype PeerData = PeerData(
    enodeUrl: string,
    id: string,
    address: string,
    tcpPort: U16,
    clientName: string,
    clientVersion: string,
    clientBuild: string,
    clientArch: string,
    os: string,
    clientLanguage: string,
    ethVersion: U8,
    capabilities: seq<string>,
    chain: string,
    totalDifficulty: string,
    bestBlock: string,
    genesisBlockHash: string,
    lastSeen: string,
    country: string,
    city: string,
    synced: Option<bool>,
    isp: string)

  datatype ClientData = ClientData(clientVersion: string)
}
