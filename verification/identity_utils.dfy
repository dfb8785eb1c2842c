/** The identity registry's helpers over its keyed storage
    (identity-registry/src/utils.rs): the owner check against the
    nonce-to-owner mapping, the metadata map sync, and the service
    configuration sync. */
module IdentityUtils {
  import opened Common
  import opened Metadata

  datatype UtilsError = NotOwner

  /** `require_agent_owner`: the caller must be the stored owner of the
      agent nonce; the caller is returned. An agent with no stored owner
      has no owner the caller can equal. */
  function RequireAgentOwner(owners: map<nat, Address>, caller: Address, nonce: nat)
    : (r: Result<Address, UtilsError>)
    ensures r.Ok? <==> nonce in owners && owners[nonce] == caller
    ensures r.Ok? ==> r.value == caller
    ensures r.Err? ==> r.error == NotOwner
  {
    if Lookup(owners, nonce) != Some(caller) then Err(NotOwner) else Ok(caller)
  }

  /** `sync_metadata`: each entry is inserted into the agent's key/value
      map in order. */
  function SyncMetadata(m: map<Bytes, Bytes>, entries: MetadataList): map<Bytes, Bytes> {
    if entries == [] then m
    else SyncMetadata(m, entries[..|entries| - 1])[entries[|entries| - 1].key := entries[|entries| - 1].value]
  }

  /** After the sync, a key holds the value of its last entry; a key no entry
      names keeps its old value (a later duplicate overwrites an earlier
      one). */
  lemma {:induction false} SyncMetadataLookup(m: map<Bytes, Bytes>, entries: MetadataList, key: Bytes)
    ensures Lookup(SyncMetadata(m, entries), key)
            == match LastValue(entries, key) case Some(v) => Some(v) case None => Lookup(m, key)
    decreases |entries|
  {
    if entries != [] {
      SyncMetadataLookup(m, entries[..|entries| - 1], key);
    }
  }

  /** One service configuration input: a `u32` service id, the payment token
      and token nonce, and the price (zero means "remove"). */
  datatype ServiceConfigInput = ServiceConfigInput(serviceId: nat, token: TokenId, nonce: nat, price: nat)

  /** What one input leaves stored for its service id: the payment when
      the price is positive, nothing when it is zero. */
  function ConfigFor(c: ServiceConfigInput): (r: Option<Payment>)
    ensures r.Some? <==> c.price > 0
    ensures r.Some? ==> r.value.token == c.token && r.value.nonce == c.nonce && r.value.amount == c.price
  {
    if c.price > 0 then Some(Payment(c.token, c.nonce, c.price)) else None
  }

  /** `sync_service_configs`: inputs processed in order; a positive price
      inserts the configuration, a zero price removes the service. */
  function SyncServiceConfigs(m: map<nat, Payment>, inputs: seq<ServiceConfigInput>): map<nat, Payment> {
    if inputs == [] then m
    else
      var m' := SyncServiceConfigs(m, inputs[..|inputs| - 1]);
      var c := inputs[|inputs| - 1];
      match ConfigFor(c)
      case Some(p) => m'[c.serviceId := p]
      case None => m' - {c.serviceId}
  }

  /** The last input for a service id, if any. */
  function LastInput(inputs: seq<ServiceConfigInput>, serviceId: nat): (r: Option<ServiceConfigInput>)
    ensures r.Some? ==> r.value.serviceId == serviceId
    ensures r.None? <==> forall i | 0 <= i < |inputs| :: inputs[i].serviceId != serviceId
  {
    if inputs == [] then None
    else if inputs[|inputs| - 1].serviceId == serviceId then Some(inputs[|inputs| - 1])
    else LastInput(inputs[..|inputs| - 1], serviceId)
  }

  /** After the sync, a service id holds what its last input says: the
      configuration of a positive price or nothing for a zero price; a
      service id no input names is unchanged. */
  lemma {:induction false} SyncServiceConfigsLookup(m: map<nat, Payment>, inputs: seq<ServiceConfigInput>,
                                                    serviceId: nat)
    ensures Lookup(SyncServiceConfigs(m, inputs), serviceId)
            == match LastInput(inputs, serviceId) case Some(c) => ConfigFor(c) case None => Lookup(m, serviceId)
    decreases |inputs|
  {
    if inputs != [] {
      SyncServiceConfigsLookup(m, inputs[..|inputs| - 1], serviceId);
    }
  }

  /** Every stored configuration has a non-zero price: a zero price never
      gets stored, and configurations already stored keep their positive
      amount. */
  lemma StoredPricesPositive(m: map<nat, Payment>, inputs: seq<ServiceConfigInput>, serviceId: nat)
    requires serviceId in SyncServiceConfigs(m, inputs)
    ensures SyncServiceConfigs(m, inputs)[serviceId].amount > 0
    ensures LastInput(inputs, serviceId).Some? ==> LastInput(inputs, serviceId).value.price > 0
    ensures LastInput(inputs, serviceId).None? ==> serviceId in m
  {
    SyncServiceConfigsLookup(m, inputs, serviceId);
  }
}
