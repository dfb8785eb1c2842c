/** The identity registry's endpoints (identity-registry/src/lib.rs): agent
    registration with a fresh nonce per address, detail updates, metadata
    upserts and the per-service pricing derived from metadata. The agent
    NFT's attributes are modelled as a map from nonce to details. */
module Identity {
  import opened Common
  import opened Metadata
  import Codec

  /** The attributes stored in an agent's NFT. */
  datatype AgentDetails = AgentDetails(
    name: Bytes,
    uri: Bytes,
    publicKey: Bytes,
    owner: Address,
    metadata: MetadataList)

  /** The registry's storage. `agentToken` is the agent NFT collection, empty
      until issued; `lastNonce` is `agentTokenNonce`; `agents` holds the
      attributes of every minted agent NFT by nonce. */
  datatype IdentityState = IdentityState(
    agentToken: Option<Bytes>,
    lastNonce: nat,
    agentIdByAddress: map<Address, nat>,
    agentOwner: map<nat, Address>,
    agents: map<nat, AgentDetails>,
    configs: map<nat, ServiceConfigs>)

  datatype IdentityError = TokenNotIssued | AlreadyRegistered | InvalidNft | UnknownAgent | NotOwner

  /** The new state and the NFT transfers an endpoint sends. */
  datatype Outcome = Outcome(state: IdentityState, transfers: seq<Transfer>)

  /** The metadata an agent registered without any gets: one entry keyed
      `price:0` whose value is the encoding of the number 0. */
  function DefaultMetadata(): (md: MetadataList)
    ensures |md| == 1 && md[0].key == PricePrefix + DefaultServiceId
    ensures DecodePrice(md[0].value) == 0
  {
    Codec.DecodeEncodeBigUint(0);
    [MetadataEntry(PricePrefix + DefaultServiceId, Codec.EncodeBigUint(0))]
  }

  /** "0", the service id of the default price entry. */
  const DefaultServiceId: Bytes := [0x30]

  function ConfigsOf(st: IdentityState, nonce: nat): ServiceConfigs {
    GetOrDefault(st.configs, nonce, NoConfigs)
  }

  /** `sync_pricing_metadata` for one agent; other agents are untouched. */
  function SyncPricingMetadata(st: IdentityState, nonce: nat, md: MetadataList): (r: IdentityState)
    ensures ConfigsOf(r, nonce) == SyncPricing(ConfigsOf(st, nonce), md)
    ensures forall n | n != nonce :: ConfigsOf(r, n) == ConfigsOf(st, n)
    ensures r == st.(configs := r.configs)
  {
    st.(configs := st.configs[nonce := SyncPricing(ConfigsOf(st, nonce), md)])
  }

  /** The NFT that stands for agent `nonce`. */
  function AgentNft(token: Bytes, nonce: nat): Payment {
    Payment(Esdt(token), nonce, 1)
  }

  /** The metadata a new agent is stored with: the given list, or the
      default entry when none or an empty list is given. */
  function StoredMetadata(metadata: Option<MetadataList>): (md: MetadataList)
    ensures metadata.Some? && metadata.value != [] ==> md == metadata.value
    ensures metadata.None? || metadata.value == [] ==> md == DefaultMetadata()
  {
    if metadata.None? || metadata.value == [] then DefaultMetadata() else metadata.value
  }

  /** `register_agent`: one agent per address. The next nonce of the
      counter becomes the agent id; empty metadata is replaced by the
      default entry; the pricing is synced from the metadata; the NFT is
      minted with the details and sent to the caller. */
  function RegisterAgent(st: IdentityState, caller: Address, name: Bytes, uri: Bytes, publicKey: Bytes,
                         metadata: Option<MetadataList>)
    : (r: Result<Outcome, IdentityError>)
    ensures r.Ok? <==> st.agentToken.Some? && caller !in st.agentIdByAddress
    ensures st.agentToken.None? ==> r == Err(TokenNotIssued)
    ensures st.agentToken.Some? && caller in st.agentIdByAddress ==> r == Err(AlreadyRegistered)
    ensures r.Ok? ==>
      var id := st.lastNonce + 1;
      var t := r.value.state;
      var md := StoredMetadata(metadata);
      && t.lastNonce == id
      && t.agentIdByAddress == st.agentIdByAddress[caller := id]
      && t.agentOwner == st.agentOwner[id := caller]
      && t.agents == st.agents[id := AgentDetails(name, uri, publicKey, caller, md)]
      && ConfigsOf(t, id) == SyncPricing(ConfigsOf(st, id), md)
      && (forall n | n != id :: ConfigsOf(t, n) == ConfigsOf(st, n))
      && t.agentToken == st.agentToken
      && r.value.transfers == [Transfer(caller, AgentNft(st.agentToken.value, id))]
  {
    if st.agentToken.None? then Err(TokenNotIssued)
    else if caller in st.agentIdByAddress then Err(AlreadyRegistered)
    else
      var nonce := st.lastNonce + 1;
      var md := StoredMetadata(metadata);
      var details := AgentDetails(name, uri, publicKey, caller, md);
      var st0 := st.(lastNonce := nonce);
      var st1 := SyncPricingMetadata(st0, nonce, md);
      assert st1.agents == st.agents && st1.agentOwner == st.agentOwner;
      assert st1.agentIdByAddress == st.agentIdByAddress && st1.agentToken == st.agentToken;
      var st2 := st1.(agents := st1.agents[nonce := details],
                      agentIdByAddress := st1.agentIdByAddress[caller := nonce],
                      agentOwner := st1.agentOwner[nonce := caller]);
      assert st2.configs == st1.configs;
      assert st0.configs == st.configs;
      assert ConfigsOf(st2, nonce) == SyncPricing(ConfigsOf(st, nonce), md);
      assert forall n | n != nonce :: ConfigsOf(st2, n) == ConfigsOf(st, n);
      Ok(Outcome(st2, [Transfer(caller, AgentNft(st.agentToken.value, nonce))]))
  }

  /** The field merge of `update_agent`: an empty URI or public key keeps
      the old one; metadata is replaced only when supplied. */
  function MergeDetails(d: AgentDetails, newUri: Bytes, newPublicKey: Bytes, metadata: Option<MetadataList>)
    : (r: AgentDetails)
    ensures r.name == d.name && r.owner == d.owner
    ensures r.uri == (if |newUri| == 0 then d.uri else newUri)
    ensures r.publicKey == (if |newPublicKey| == 0 then d.publicKey else newPublicKey)
    ensures r.metadata == metadata.GetOr(d.metadata)
  {
    var d1 := if newUri != [] then d.(uri := newUri) else d;
    var d2 := if newPublicKey != [] then d1.(publicKey := newPublicKey) else d1;
    match metadata
    case Some(m) => d2.(metadata := m)
    case None => d2
  }

  /** `update_agent`: whoever sends the agent's NFT to the registry may
      update its URI, public key and metadata; the NFT is sent back. */
  function UpdateAgent(st: IdentityState, caller: Address, payment: Payment,
                       newUri: Bytes, newPublicKey: Bytes, metadata: Option<MetadataList>)
    : (r: Result<Outcome, IdentityError>)
    ensures r.Ok? <==>
      && st.agentToken.Some?
      && payment.token == Esdt(st.agentToken.value)
      && payment.nonce in st.agents
    ensures r.Ok? ==>
      var n := payment.nonce;
      var t := r.value.state;
      && t.agents == st.agents[n := MergeDetails(st.agents[n], newUri, newPublicKey, metadata)]
      && (metadata.Some? ==> ConfigsOf(t, n) == SyncPricing(ConfigsOf(st, n), metadata.value))
      && (metadata.None? ==> ConfigsOf(t, n) == ConfigsOf(st, n))
      && (forall m | m != n :: ConfigsOf(t, m) == ConfigsOf(st, m))
      && t.agentOwner == st.agentOwner && t.agentIdByAddress == st.agentIdByAddress
      && t.lastNonce == st.lastNonce && t.agentToken == st.agentToken
      && r.value.transfers == [Transfer(caller, AgentNft(st.agentToken.value, n))]
  {
    if st.agentToken.None? then Err(TokenNotIssued)
    else if payment.token != Esdt(st.agentToken.value) then Err(InvalidNft)
    else if payment.nonce !in st.agents then Err(UnknownAgent)
    else
      var n := payment.nonce;
      var details := MergeDetails(st.agents[n], newUri, newPublicKey, metadata);
      var st1 := if metadata.Some? then SyncPricingMetadata(st, n, details.metadata) else st;
      Ok(Outcome(st1.(agents := st1.agents[n := details]),
                 [Transfer(caller, AgentNft(st.agentToken.value, n))]))
  }

  /** `set_metadata`: the agent's owner upserts entries into its metadata;
      the pricing is then re-synced from the whole merged list. */
  function SetMetadata(st: IdentityState, caller: Address, nonce: nat, entries: MetadataList)
    : (r: Result<IdentityState, IdentityError>)
    ensures r.Ok? <==> st.agentToken.Some? && nonce in st.agents && caller == st.agents[nonce].owner
    ensures st.agentToken.Some? && nonce in st.agents && caller != st.agents[nonce].owner
            ==> r == Err(NotOwner)
    ensures r.Ok? ==>
      var md := Upsert(st.agents[nonce].metadata, entries);
      && nonce in r.value.agents
      && r.value.agents[nonce] == st.agents[nonce].(metadata := md)
      && (forall n | n != nonce :: Lookup(r.value.agents, n) == Lookup(st.agents, n))
      && ConfigsOf(r.value, nonce) == SyncPricing(ConfigsOf(st, nonce), md)
      && (forall n | n != nonce :: ConfigsOf(r.value, n) == ConfigsOf(st, n))
      && r.value.agentOwner == st.agentOwner && r.value.agentIdByAddress == st.agentIdByAddress
      && r.value.lastNonce == st.lastNonce && r.value.agentToken == st.agentToken
  {
    if st.agentToken.None? then Err(TokenNotIssued)
    else if nonce !in st.agents then Err(UnknownAgent)
    else if caller != st.agents[nonce].owner then Err(NotOwner)
    else
      var d := st.agents[nonce];
      var md := Upsert(d.metadata, entries);
      var st1 := SyncPricingMetadata(st, nonce, md);
      Ok(st1.(agents := st1.agents[nonce := d.(metadata := md)]))
  }

  /** `get_metadata`: the first value stored under the key in the agent's
      metadata, or nothing. */
  function GetMetadata(st: IdentityState, nonce: nat, key: Bytes): (r: Result<Option<Bytes>, IdentityError>)
    ensures r.Ok? <==> nonce in st.agents
    ensures r.Ok? ==> (r.value.None? <==> !HasKey(st.agents[nonce].metadata, key))
    ensures r.Ok? ==> r.value == Get(st.agents[nonce].metadata, key)
  {
    if nonce !in st.agents then Err(UnknownAgent) else Ok(Get(st.agents[nonce].metadata, key))
  }

  // ---------------------------------------------------------------------
  // Registry invariant
  // ---------------------------------------------------------------------

  /** The registry's bookkeeping agrees with itself: ids are in 1..lastNonce,
      `agentIdByAddress` and `agentOwner` are inverse to each other (so one
      agent per address and one owner per agent), and every registered agent
      has its NFT details with the same owner. */
  ghost predicate Valid(st: IdentityState) {
    && (forall a | a in st.agentIdByAddress ::
          var id := st.agentIdByAddress[a];
          1 <= id <= st.lastNonce && id in st.agentOwner && st.agentOwner[id] == a)
    && (forall id | id in st.agentOwner ::
          1 <= id <= st.lastNonce
          && st.agentOwner[id] in st.agentIdByAddress && st.agentIdByAddress[st.agentOwner[id]] == id)
    && st.agents.Keys == st.agentOwner.Keys
    && (forall id | id in st.agents :: st.agents[id].owner == st.agentOwner[id])
  }

  /** The freshly deployed registry. */
  function Initial(): (st: IdentityState)
    ensures Valid(st)
  {
    IdentityState(None, 0, map[], map[], map[], map[])
  }

  /** Registration keeps the registry valid and hands out an id no agent
      had before. */
  lemma RegisterKeepsValid(st: IdentityState, caller: Address, name: Bytes, uri: Bytes, publicKey: Bytes,
                           metadata: Option<MetadataList>)
    requires Valid(st)
    requires RegisterAgent(st, caller, name, uri, publicKey, metadata).Ok?
    ensures Valid(RegisterAgent(st, caller, name, uri, publicKey, metadata).value.state)
    ensures st.lastNonce + 1 !in st.agentOwner
    ensures forall a | a in st.agentIdByAddress :: st.agentIdByAddress[a] != st.lastNonce + 1
  {
    var t := RegisterAgent(st, caller, name, uri, publicKey, metadata).value.state;
    var id := st.lastNonce + 1;
    assert t.agentIdByAddress == st.agentIdByAddress[caller := id];
    assert t.agentOwner == st.agentOwner[id := caller];
    assert id !in st.agentOwner;
    forall a | a in t.agentIdByAddress
      ensures var n := t.agentIdByAddress[a];
        1 <= n <= t.lastNonce && n in t.agentOwner && t.agentOwner[n] == a
    {
      if a != caller {
        assert st.agentIdByAddress[a] != id;
      }
    }
    forall n | n in t.agentOwner
      ensures 1 <= n <= t.lastNonce
        && t.agentOwner[n] in t.agentIdByAddress && t.agentIdByAddress[t.agentOwner[n]] == n
    {
      if n != id {
        assert st.agentOwner[n] != caller;
      }
    }
  }

  /** Updates and metadata changes keep the registry valid. */
  lemma UpdatesKeepValid(st: IdentityState, caller: Address, payment: Payment, newUri: Bytes,
                         newPublicKey: Bytes, metadata: Option<MetadataList>, nonce: nat, entries: MetadataList)
    requires Valid(st)
    ensures UpdateAgent(st, caller, payment, newUri, newPublicKey, metadata).Ok? ==>
      Valid(UpdateAgent(st, caller, payment, newUri, newPublicKey, metadata).value.state)
    ensures SetMetadata(st, caller, nonce, entries).Ok? ==>
      Valid(SetMetadata(st, caller, nonce, entries).value)
  {
  }

  /** Registrations of distinct addresses get ids 1, 2, 3, ... in order. */
lemma SuccessiveIds(st: IdentityState, callers: seq<Address>)
    requires Valid(st) && st.agentToken.Some?
    requires forall i, j | 0 <= i < j < |callers| :: callers[i] != callers[j]
    requires forall i | 0 <= i < |callers| :: callers[i] !in st.agentIdByAddress
    ensures var t := RegisterAll(st, callers);
      && Valid(t)
      && t.lastNonce == st.lastNonce + |callers|
      && t.agentToken == st.agentToken
      && (forall i | 0 <= i < |callers| :: callers[i] in t.agentIdByAddress
            && t.agentIdByAddress[callers[i]] == st.lastNonce + i + 1)
      && (forall a | a in t.agentIdByAddress && a !in st.agentIdByAddress :: a in callers)
  {
    RegisterAllValid(st, callers);
    RegisterAllIds(st, callers);
  }

  /** The id bookkeeping of successive registrations. */
  lemma {:induction false} RegisterAllIds(st: IdentityState, callers: seq<Address>)
    requires st.agentToken.Some?
    requires forall i, j | 0 <= i < j < |callers| :: callers[i] != callers[j]
    requires forall i | 0 <= i < |callers| :: callers[i] !in st.agentIdByAddress
    ensures var t := RegisterAll(st, callers);
      && t.lastNonce == st.lastNonce + |callers|
      && t.agentToken == st.agentToken
      && (forall i | 0 <= i < |callers| :: callers[i] in t.agentIdByAddress
            && t.agentIdByAddress[callers[i]] == st.lastNonce + i + 1)
      && (forall a | a in t.agentIdByAddress && a !in st.agentIdByAddress :: a in callers)
    decreases |callers|
  {
    if callers != [] {
      var init := callers[..|callers| - 1];
      var last := callers[|callers| - 1];
      RegisterAllIds(st, init);
      var t := RegisterAll(st, init);
      assert last !in init;
      assert last !in t.agentIdByAddress;
      var u := RegisterOne(t, last);
      assert RegisterAll(st, callers) == u;
      assert u.agentIdByAddress == t.agentIdByAddress[last := t.lastNonce + 1];
      forall i | 0 <= i < |callers|
        ensures callers[i] in u.agentIdByAddress && u.agentIdByAddress[callers[i]] == st.lastNonce + i + 1
      {
        if i < |init| {
          assert callers[i] == init[i];
        }
      }
    }
  }

  /** Successive registrations keep the registry consistent. */
  lemma {:induction false} RegisterAllValid(st: IdentityState, callers: seq<Address>)
    requires Valid(st)
    ensures Valid(RegisterAll(st, callers))
    decreases |callers|
  {
    if callers != [] {
      RegisterAllValid(st, callers[..|callers| - 1]);
      RegisterOneValid(RegisterAll(st, callers[..|callers| - 1]), callers[|callers| - 1]);
    }
  }

  /** Registers one address with empty details; a rejected call leaves the
      registry as it was. */
  function RegisterOne(t: IdentityState, caller: Address): (u: IdentityState)
    ensures u.agentToken == t.agentToken
    ensures t.agentToken.Some? && caller !in t.agentIdByAddress ==>
      && u.lastNonce == t.lastNonce + 1
      && u.agentIdByAddress == t.agentIdByAddress[caller := t.lastNonce + 1]
  {
    match RegisterAgent(t, caller, [], [], [], None)
    case Ok(o) => o.state
    case Err(_) => t
  }

  lemma RegisterOneValid(t: IdentityState, caller: Address)
    requires Valid(t)
    ensures Valid(RegisterOne(t, caller))
  {
    if t.agentToken.Some? && caller !in t.agentIdByAddress {
      RegisterKeepsValid(t, caller, [], [], [], None);
    }
  }

  /** Registers each address in turn with empty details. */
  function RegisterAll(st: IdentityState, callers: seq<Address>): IdentityState {
    if callers == [] then st
    else RegisterOne(RegisterAll(st, callers[..|callers| - 1]), callers[|callers| - 1])
  }

  /** Registering without metadata stores the default `price:0` entry and
      prices service "0" at 0. */
  lemma RegisterWithoutMetadata(st: IdentityState, caller: Address, name: Bytes, uri: Bytes, publicKey: Bytes)
    requires RegisterAgent(st, caller, name, uri, publicKey, None).Ok?
    ensures var t := RegisterAgent(st, caller, name, uri, publicKey, None).value.state;
      && GetMetadata(t, st.lastNonce + 1, PricePrefix + DefaultServiceId) == Ok(Some(Codec.EncodeBigUint(0)))
      && Lookup(ConfigsOf(t, st.lastNonce + 1).price, DefaultServiceId) == Some(0)
  {
    var md := DefaultMetadata();
    GetReturnsFirstMatch(md, PricePrefix + DefaultServiceId, 0);
    SyncPricingLookup(ConfigsOf(st, st.lastNonce + 1), md, DefaultServiceId);
  }

  /** After `set_metadata`, a key the entries write reads as the last value
      written for it, other keys read as before, and each service's price,
      token and token nonce come from the last matching entry of the merged
      metadata. */
  lemma SetMetadataEffect(st: IdentityState, caller: Address, nonce: nat, entries: MetadataList,
                          key: Bytes, sid: Bytes)
    requires SetMetadata(st, caller, nonce, entries).Ok?
    requires |sid| > 0
    ensures var t := SetMetadata(st, caller, nonce, entries).value;
      var md := Upsert(st.agents[nonce].metadata, entries);
      && GetMetadata(t, nonce, key)
         == Ok(match LastValue(entries, key) case Some(v) => Some(v) case None => Get(st.agents[nonce].metadata, key))
      && Lookup(ConfigsOf(t, nonce).price, sid)
         == (match Get(md, PricePrefix + sid) case Some(_) => Some(DecodePrice(LastValue(md, PricePrefix + sid).value))
                                              case None => Lookup(ConfigsOf(st, nonce).price, sid))
  {
    var md := Upsert(st.agents[nonce].metadata, entries);
    UpsertGet(st.agents[nonce].metadata, entries, key);
    SyncPricingLookup(ConfigsOf(st, nonce), md, sid);
  }

  /** "default", a service id. */
  const DefaultLabel: Bytes := [0x64, 0x65, 0x66, 0x61, 0x75, 0x6c, 0x74]

  /** The edge-case test's price entry: `price:default` with the single byte
      0x64 prices service "default" at 100. */
  lemma PriceDefaultIsHundred(st: IdentityState, caller: Address, nonce: nat)
    requires SetMetadata(st, caller, nonce, [MetadataEntry(PricePrefix + DefaultLabel, [0x64])]).Ok?
    ensures Lookup(ConfigsOf(SetMetadata(st, caller, nonce, [MetadataEntry(PricePrefix + DefaultLabel, [0x64])]).value,
                             nonce).price, DefaultLabel) == Some(100)
  {
    var e := MetadataEntry(PricePrefix + DefaultLabel, [0x64]);
    var old_md := st.agents[nonce].metadata;
    var md := Upsert(old_md, [e]);
    assert md == UpsertOne(old_md, e) by {
      assert [e][..0] == [];
      assert Upsert(old_md, []) == old_md;
      assert [e][|[e]| - 1] == e;
    }
    LastValueOfUpsert(old_md, e);
    SyncPricingLookup(ConfigsOf(st, nonce), md, DefaultLabel);
    assert Codec.DecodeBigUint([0x64]) == 100 by {
      assert [0x64 as byte][..0] == [];
    }
    var t := SetMetadata(st, caller, nonce, [e]).value;
    assert ConfigsOf(t, nonce) == SyncPricing(ConfigsOf(st, nonce), md);
  }

  /** After upserting one entry, the last entry with its key holds its value. */
  lemma LastValueOfUpsert(md: MetadataList, e: MetadataEntry)
    ensures LastValue(UpsertOne(md, e), e.key) == Some(e.value)
  {
    var r := UpsertOne(md, e);
    var (replaced, found) := ReplaceKey(md, e);
    if found {
      LastValueAllMatches(replaced, e);
    } else {
      assert r[|r| - 1] == e;
    }
  }

  lemma {:induction false} LastValueAllMatches(r: MetadataList, e: MetadataEntry)
    requires HasKey(r, e.key)
    requires forall i | 0 <= i < |r| && r[i].key == e.key :: r[i] == e
    ensures LastValue(r, e.key) == Some(e.value)
    decreases |r|
  {
    if r[|r| - 1].key != e.key {
      var init := r[..|r| - 1];
      assert HasKey(init, e.key) by {
        var i :| 0 <= i < |r| && r[i].key == e.key;
        assert init[i] == r[i];
      }
      LastValueAllMatches(init, e);
    }
  }
}
