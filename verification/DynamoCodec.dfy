/** The attribute map a peer is written to and read from in DynamoDB. */
module DynamoCodec {
  import opened Wrappers
  import opened Peers
  import Decimal

  datatype AttributeValue =
    | S(s: string)
    | N(n: string)
    | Bool(b: bool)
    | Null(isNull: bool)
    | L(l: seq<AttributeValue>)

  /**
   The attribute names, one constructor for each name the writer or the reader uses:
   `PeerId` is "peer-id", `ClientArch` is "client_arch", and so on.
   */
  datatype Name =
    | PeerId | PeerIp | ClientName | ClientVersion | ClientBuild | ClientArch | Os | ClientLanguage
    | EnodeUrl | Port | Chain | Country | City | Capabilities | EthVersion | LastSeen
    | SourceRegion | GenesisBlockHash | BestBlock | TotalDifficulty | Synced | Isp
    | ClientArchitecture

  type Item = map<Name, AttributeValue>

  function StringList(texts: seq<string>): (l: seq<AttributeValue>)
  {
    seq(|texts|, i requires 0 <= i < |texts| => S(texts[i]))
  }

  /** The item written for a peer by a crawler running in `region`. */
  function Encode(p: PeerData, region: string): Item
  {
    map[
      PeerId := S(p.id),
      PeerIp := S(p.address),
      ClientName := S(p.clientName),
      ClientVersion := S(p.clientVersion),
      ClientBuild := S(p.clientBuild),
      ClientArch := S(p.clientArch),
      Os := S(p.os),
      ClientLanguage := S(p.clientLanguage),
      EnodeUrl := S(p.enodeUrl),
      Port := N(Decimal.Print(p.tcpPort)),
      Chain := S(p.chain),
      Country := S(p.country),
      City := S(p.city),
      Capabilities := L(StringList(p.capabilities)),
      EthVersion := N(Decimal.Print(p.ethVersion)),
      LastSeen := S(p.lastSeen),
      SourceRegion := S(region),
      GenesisBlockHash := S(p.genesisBlockHash),
      BestBlock := S(p.bestBlock),
      TotalDifficulty := S(p.totalDifficulty),
      Synced := (if p.synced.Some? then Bool(p.synced.value) else Null(true)),
      Isp := S(p.isp)
    ]
  }

  function Get(item: Item, key: Name): Option<AttributeValue>
  {
    if key in item then Some(item[key]) else None
  }

  function AsString(val: Option<AttributeValue>, default: string): string
  {
    if val.Some? && val.value.S? then val.value.s else default
  }

  /** A number attribute whose text fits the type; the default for anything else. */
  function AsUnsigned(val: Option<AttributeValue>, default: nat, max: nat): (r: nat)
    requires default <= max
    ensures r <= max
  {
    if val.Some? && val.value.N? then
      Decimal.ParseStaysBelow(val.value.n, max);
      match Decimal.Parse(val.value.n, max)
      case Some(n) => n
      case None => default
    else default
  }

  /** The attribute is a number whose text denotes `n`, which fits the type. */
  ghost predicate Holds(val: Option<AttributeValue>, n: nat, max: nat) {
    val.Some? && val.value.N? && Decimal.Denotes(val.value.n, n) && n <= max
  }

  /** A number attribute is read exactly; anything missing, ill-typed, unreadable or too big is the default. */
  lemma AsUnsignedExactly(val: Option<AttributeValue>, default: nat, max: nat)
    requires default <= max
    ensures forall n: nat :: Holds(val, n, max) ==> AsUnsigned(val, default, max) == n
    ensures (forall n: nat :: !Holds(val, n, max)) ==> AsUnsigned(val, default, max) == default
  {
    if val.Some? && val.value.N? {
      forall n: nat
        ensures Decimal.Parse(val.value.n, max) == Some(n) <==> Holds(val, n, max)
      {
        Decimal.ParseExactly(val.value.n, max, n);
      }
    }
  }

  function AsU16(val: Option<AttributeValue>, default: U16): U16 {
    AsUnsigned(val, default, 0xFFFF)
  }

  function AsU8(val: Option<AttributeValue>, default: U8): U8 {
    AsUnsigned(val, default, 0xFF)
  }

  function AsStringVec(val: Option<AttributeValue>): seq<string>
  {
    if val.Some? && val.value.L?
    then seq(|val.value.l|, i requires 0 <= i < |val.value.l| => AsString(Some(val.value.l[i]), ""))
    else []
  }

  function AsOptionBool(val: Option<AttributeValue>, default: Option<bool>): Option<bool>
  {
    if val.Some? && val.value.Bool? then Some(val.value.b) else default
  }

  /** The peer read from an item; total, with a default for every missing or ill-typed attribute. */
  function Decode(item: Item): PeerData
  {
    PeerData(
      AsString(Get(item, EnodeUrl), ""),
      AsString(Get(item, PeerId), ""),
      AsString(Get(item, PeerIp), ""),
      AsU16(Get(item, Port), 30303),
      AsString(Get(item, ClientName), ""),
      AsString(Get(item, ClientVersion), ""),
      AsString(Get(item, ClientBuild), ""),
      AsString(Get(item, ClientArchitecture), ""),
      AsString(Get(item, Os), ""),
      AsString(Get(item, ClientLanguage), ""),
      AsU8(Get(item, EthVersion), 0),
      AsStringVec(Get(item, Capabilities)),
      AsString(Get(item, Chain), ""),
      AsString(Get(item, TotalDifficulty), ""),
      AsString(Get(item, BestBlock), ""),
      AsString(Get(item, GenesisBlockHash), ""),
      AsString(Get(item, LastSeen), ""),
      AsString(Get(item, Country), ""),
      AsString(Get(item, City), ""),
      AsOptionBool(Get(item, Synced), None),
      AsString(Get(item, Isp), ""))
  }

  lemma CapabilitiesRoundTrip(texts: seq<string>)
    ensures AsStringVec(Some(L(StringList(texts)))) == texts
  {
    var l := StringList(texts);
    forall i | 0 <= i < |texts|
      ensures AsString(Some(l[i]), "") == texts[i]
    {
    }
  }

  lemma PortRoundTrip(port: U16)
    ensures AsU16(Some(N(Decimal.Print(port))), 30303) == port
  {
    Decimal.ParseOfPrint(port, 0xFFFF);
  }

  lemma EthVersionRoundTrip(version: U8)
    ensures AsU8(Some(N(Decimal.Print(version))), 0) == version
  {
    Decimal.ParseOfPrint(version, 0xFF);
  }

  // What the written item holds under every name the reader looks up.

  lemma WrittenIdentity(p: PeerData, region: string)
    ensures var item := Encode(p, region);
            && Get(item, PeerId) == Some(S(p.id)) && Get(item, PeerIp) == Some(S(p.address))
            && Get(item, EnodeUrl) == Some(S(p.enodeUrl))
            && Get(item, Port) == Some(N(Decimal.Print(p.tcpPort)))
            && Get(item, EthVersion) == Some(N(Decimal.Print(p.ethVersion)))
            && Get(item, Capabilities) == Some(L(StringList(p.capabilities)))
  {
  }

  lemma WrittenClient(p: PeerData, region: string)
    ensures var item := Encode(p, region);
            && Get(item, ClientName) == Some(S(p.clientName))
            && Get(item, ClientVersion) == Some(S(p.clientVersion))
            && Get(item, ClientBuild) == Some(S(p.clientBuild))
            && Get(item, ClientArchitecture) == None
            && Get(item, Os) == Some(S(p.os)) && Get(item, ClientLanguage) == Some(S(p.clientLanguage))
  {
  }

  lemma WrittenChain(p: PeerData, region: string)
    ensures var item := Encode(p, region);
            && Get(item, Chain) == Some(S(p.chain))
            && Get(item, GenesisBlockHash) == Some(S(p.genesisBlockHash))
            && Get(item, BestBlock) == Some(S(p.bestBlock))
            && Get(item, TotalDifficulty) == Some(S(p.totalDifficulty))
            && Get(item, Synced) == Some(if p.synced.Some? then Bool(p.synced.value) else Null(true))
  {
  }

  lemma WrittenPlace(p: PeerData, region: string)
    ensures var item := Encode(p, region);
            && Get(item, Country) == Some(S(p.country)) && Get(item, City) == Some(S(p.city))
            && Get(item, Isp) == Some(S(p.isp)) && Get(item, LastSeen) == Some(S(p.lastSeen))
  {
  }

  lemma WrittenRegion(p: PeerData, region: string)
    ensures Get(Encode(p, region), SourceRegion) == Some(S(region))
  {
  }

  /** An attribute that is missing, or not of the type the reader expects, gives its field the default. */
  lemma ReadDefaults(item: Item)
    requires forall key :: key in item ==> item[key].Null?
    ensures Decode(item) ==
            PeerData("", "", "", 30303, "", "", "", "", "", "", 0, [], "", "", "", "", "", "", "", None, "")
  {
  }

  /** An element of a list that is not a text is read as the empty text. */
  lemma ReadList(l: seq<AttributeValue>, i: nat)
    requires i < |l|
    ensures |AsStringVec(Some(L(l)))| == |l|
    ensures AsStringVec(Some(L(l)))[i] == if l[i].S? then l[i].s else ""
  {
  }

  /** Reading depends on the attributes alone. */
  lemma DecodeReadsAttributes(item: Item, p: PeerData)
    requires
      && Get(item, PeerId) == Some(S(p.id)) && Get(item, PeerIp) == Some(S(p.address))
      && Get(item, ClientName) == Some(S(p.clientName))
      && Get(item, ClientVersion) == Some(S(p.clientVersion))
      && Get(item, ClientBuild) == Some(S(p.clientBuild))
      && AsString(Get(item, ClientArchitecture), "") == p.clientArch
      && Get(item, Os) == Some(S(p.os)) && Get(item, ClientLanguage) == Some(S(p.clientLanguage))
      && Get(item, EnodeUrl) == Some(S(p.enodeUrl))
      && AsU16(Get(item, Port), 30303) == p.tcpPort
      && Get(item, Chain) == Some(S(p.chain))
      && Get(item, Country) == Some(S(p.country)) && Get(item, City) == Some(S(p.city))
      && AsStringVec(Get(item, Capabilities)) == p.capabilities
      && AsU8(Get(item, EthVersion), 0) == p.ethVersion
      && Get(item, LastSeen) == Some(S(p.lastSeen))
      && Get(item, GenesisBlockHash) == Some(S(p.genesisBlockHash))
      && Get(item, BestBlock) == Some(S(p.bestBlock))
      && Get(item, TotalDifficulty) == Some(S(p.totalDifficulty))
      && AsOptionBool(Get(item, Synced), None) == p.synced
      && Get(item, Isp) == Some(S(p.isp))
    ensures Decode(item) == p
  {
  }

  /**
   Writing and reading a peer changes one field only: the architecture, written under
   "client_arch" and read under "client_architecture", is lost.
   */
  lemma ReadBackLosesOnlyArch(p: PeerData, region: string)
    ensures Decode(Encode(p, region)) == p.(clientArch := "")
  {
    WrittenIdentity(p, region);
    WrittenClient(p, region);
    WrittenChain(p, region);
    WrittenPlace(p, region);
    CapabilitiesRoundTrip(p.capabilities);
    PortRoundTrip(p.tcpPort);
    EthVersionRoundTrip(p.ethVersion);
    DecodeReadsAttributes(Encode(p, region), p.(clientArch := ""));
  }

  /** So the round trip is the identity exactly for the peers without an architecture. */
  lemma RoundTripExactly(p: PeerData, region: string)
    ensures Decode(Encode(p, region)) == p <==> p.clientArch == ""
  {
    ReadBackLosesOnlyArch(p, region);
  }
}
