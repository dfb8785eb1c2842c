/** The identity registry's agent metadata: an ordered list of key/value
    entries kept in the agent NFT's attributes, its lookup and upsert, and
    the derivation of per-service payment configuration from the keys
    prefixed `price:`, `token:` and `pnonce:`
    (identity-registry/src/lib.rs). */
module Metadata {
  import opened Common
  import Codec

  datatype MetadataEntry = MetadataEntry(key: Bytes, value: Bytes)

  type MetadataList = seq<MetadataEntry>

  predicate HasKey(md: MetadataList, key: Bytes) {
    exists i | 0 <= i < |md| :: md[i].key == key
  }

  /** A non-empty list has a key exactly when its head or its tail has it. */
  lemma HasKeyCons(md: MetadataList, key: Bytes)
    requires |md| > 0
    ensures HasKey(md, key) <==> md[0].key == key || HasKey(md[1..], key)
  {
    if HasKey(md[1..], key) {
      var i :| 0 <= i < |md[1..]| && md[1..][i].key == key;
      assert md[i + 1].key == key;
    }
  }

  /** `get_metadata` on a list: the value of the first entry with the key. */
  function Get(md: MetadataList, key: Bytes): (r: Option<Bytes>)
    ensures r.None? <==> !HasKey(md, key)
  {
    if md == [] then None
    else if md[0].key == key then Some(md[0].value)
    else
      assert forall i | 1 <= i < |md| :: md[i] == md[1..][i - 1];
      Get(md[1..], key)
  }

  /** The entry `Get` returns is the first one carrying the key. */
  lemma {:induction false} GetReturnsFirstMatch(md: MetadataList, key: Bytes, i: nat)
    requires i < |md| && md[i].key == key
    requires forall j | 0 <= j < i :: md[j].key != key
    ensures Get(md, key) == Some(md[i].value)
    decreases i
  {
    if i > 0 {
      GetReturnsFirstMatch(md[1..], key, i - 1);
    }
  }

  lemma {:induction false} GetAppend(a: MetadataList, b: MetadataList, key: Bytes)
    ensures Get(a + b, key) == if HasKey(a, key) then Get(a, key) else Get(b, key)
    decreases |a|
  {
    if a == [] {
      assert a + b == b;
    } else {
      assert (a + b)[0] == a[0];
      assert (a + b)[1..] == a[1..] + b;
      GetAppend(a[1..], b, key);
      if a[0].key != key {
        assert HasKey(a, key) <==> HasKey(a[1..], key) by {
          if HasKey(a, key) {
            var i :| 0 <= i < |a| && a[i].key == key;
            assert a[1..][i - 1] == a[i];
          }
          if HasKey(a[1..], key) {
            var i :| 0 <= i < |a[1..]| && a[1..][i].key == key;
            assert a[i + 1] == a[1..][i];
          }
        }
      }
    }
  }

  /** The inner loop of `set_metadata` for one entry: every existing entry
      with the same key is replaced by it, the others are copied, and the
      flag reports whether any key matched. */
  function ReplaceKey(md: MetadataList, e: MetadataEntry): (r: (MetadataList, bool))
    ensures r.1 <==> HasKey(md, e.key)
    ensures |r.0| == |md|
    ensures forall i | 0 <= i < |md| :: r.0[i] == (if md[i].key == e.key then e else md[i])
  {
    if md == [] then ([], false)
    else
      var (rest, found) := ReplaceKey(md[1..], e);
      var r := [if md[0].key == e.key then e else md[0]] + rest;
      HasKeyCons(md, e.key);
      assert forall i | 0 <= i < |md| :: r[i] == (if md[i].key == e.key then e else md[i]) by {
        forall i | 0 < i < |md|
          ensures r[i] == (if md[i].key == e.key then e else md[i])
        {
          assert md[i] == md[1..][i - 1];
        }
      }
      (r, md[0].key == e.key || found)
  }

  /** Upsert of one entry: replace the matching entries in place, or
      append the entry when its key is new. */
  function UpsertOne(md: MetadataList, e: MetadataEntry): (r: MetadataList)
    ensures |r| == if HasKey(md, e.key) then |md| else |md| + 1
    ensures forall i | 0 <= i < |md| && md[i].key != e.key :: r[i] == md[i]
    ensures forall i | 0 <= i < |md| :: r[i].key == md[i].key
    ensures forall i | 0 <= i < |md| && md[i].key == e.key :: r[i] == e
    ensures !HasKey(md, e.key) ==> r[|md|] == e
  {
    var (replaced, found) := ReplaceKey(md, e);
    if found then replaced else replaced + [e]
  }

  /** After an upsert the key reads as the new value and every other key
      reads as before. */
  lemma UpsertOneGet(md: MetadataList, e: MetadataEntry, key: Bytes)
    ensures Get(UpsertOne(md, e), key) == if key == e.key then Some(e.value) else Get(md, key)
  {
    var (replaced, found) := ReplaceKey(md, e);
    ReplaceKeyGet(md, e, key);
    if !found {
      GetAppend(replaced, [e], key);
      if key == e.key {
        assert !HasKey(replaced, key);
        assert [e][0] == e;
      } else {
        assert !HasKey([e], key);
      }
    }
  }

  lemma {:induction false} ReplaceKeyGet(md: MetadataList, e: MetadataEntry, key: Bytes)
    ensures var r := ReplaceKey(md, e).0;
      && (key == e.key ==> Get(r, key) == if HasKey(md, key) then Some(e.value) else None)
      && (key != e.key ==> Get(r, key) == Get(md, key))
    decreases |md|
  {
    if md != [] {
      ReplaceKeyGet(md[1..], e, key);
      var r := ReplaceKey(md, e).0;
      assert r[1..] == ReplaceKey(md[1..], e).0;
      if key == e.key && md[0].key != e.key {
        assert HasKey(md, key) ==> HasKey(md[1..], key) by {
          if HasKey(md, key) {
            var i :| 0 <= i < |md| && md[i].key == key;
            assert md[1..][i - 1] == md[i];
          }
        }
      }
    }
  }

  /** `set_metadata`'s merge: upsert the entries one after another. */
  function Upsert(md: MetadataList, entries: MetadataList): MetadataList {
    if entries == [] then md
    else UpsertOne(Upsert(md, entries[..|entries| - 1]), entries[|entries| - 1])
  }

  /** The value of the last entry carrying the key. */
  function LastValue(entries: MetadataList, key: Bytes): (r: Option<Bytes>)
    ensures r.None? <==> !HasKey(entries, key)
  {
    if entries == [] then None
    else if entries[|entries| - 1].key == key then Some(entries[|entries| - 1].value)
    else LastValue(entries[..|entries| - 1], key)
  }

  /** After a merge, a key written by the entries reads as the last value
      written for it; every other key reads as before. */
  lemma {:induction false} UpsertGet(md: MetadataList, entries: MetadataList, key: Bytes)
    ensures Get(Upsert(md, entries), key)
            == match LastValue(entries, key) case Some(v) => Some(v) case None => Get(md, key)
    decreases |entries|
  {
    if entries != [] {
      var init := entries[..|entries| - 1];
      UpsertGet(md, init, key);
      UpsertOneGet(Upsert(md, init), entries[|entries| - 1], key);
    }
  }

  /** A merge keeps every existing entry in its place: keys never move, and
      entries whose key is not written keep their value. */
  lemma {:induction false} UpsertKeepsOrder(md: MetadataList, entries: MetadataList)
    ensures |Upsert(md, entries)| >= |md|
    ensures forall i | 0 <= i < |md| :: Upsert(md, entries)[i].key == md[i].key
    ensures forall i | 0 <= i < |md| && !HasKey(entries, md[i].key) :: Upsert(md, entries)[i] == md[i]
    decreases |entries|
  {
    if entries != [] {
      var init := entries[..|entries| - 1];
      var last := entries[|entries| - 1];
      UpsertKeepsOrder(md, init);
      forall i | 0 <= i < |md| && !HasKey(entries, md[i].key)
        ensures Upsert(md, entries)[i] == md[i]
      {
        assert md[i].key != last.key;
      }
    }
  }

  // ---------------------------------------------------------------------
  // Service pricing derived from the metadata
  // ---------------------------------------------------------------------

  /** "price:" */
  const PricePrefix: Bytes := [0x70, 0x72, 0x69, 0x63, 0x65, 0x3a]
  /** "token:" */
  const TokenPrefix: Bytes := [0x74, 0x6f, 0x6b, 0x65, 0x6e, 0x3a]
  /** "pnonce:" */
  const PnoncePrefix: Bytes := [0x70, 0x6e, 0x6f, 0x6e, 0x63, 0x65, 0x3a]

  /** Per-service payment configuration of one agent, keyed by service id:
      the `agentServicePrice`, `agentServicePaymentToken` and
      `agentServicePaymentNonce` mappers. */
  datatype ServiceConfigs = ServiceConfigs(
    price: map<Bytes, nat>,
    token: map<Bytes, TokenId>,
    pnonce: map<Bytes, nat>)

  const NoConfigs := ServiceConfigs(map[], map[], map[])

  /** The service id a key names under a prefix: the rest of a key strictly
      longer than the prefix and starting with it. */
  function ServiceIdOf(key: Bytes, prefix: Bytes): (r: Option<Bytes>)
    ensures r.Some? <==> |key| > |prefix| && key[..|prefix|] == prefix
    ensures r.Some? ==> key == prefix + r.value && |r.value| > 0
  {
    if |key| > |prefix| && key[..|prefix|] == prefix then Some(key[|prefix|..]) else None
  }

  /** A key names service `sid` under `prefix` exactly when it is the
      prefix followed by a non-empty `sid`. */
  lemma ServiceIdOfConcat(key: Bytes, prefix: Bytes, sid: Bytes)
    requires |sid| > 0
    ensures ServiceIdOf(key, prefix) == Some(sid) <==> key == prefix + sid
  {
    if key == prefix + sid {
      assert key[..|prefix|] == prefix;
      assert key[|prefix|..] == sid;
    }
  }

  /** A price value: a `BigUint`, which always decodes. */
  function DecodePrice(v: Bytes): nat {
    Codec.DecodeBigUint(v)
  }

  /** A token value; an undecodable one falls back to the native coin. */
  function DecodePaymentToken(v: Bytes): TokenId {
    Codec.DecodeToken(v).GetOr(Egld)
  }

  /** A token-nonce value; an undecodable one (over eight bytes) falls back
      to 0. */
  function DecodePaymentNonce(v: Bytes): (r: nat)
    ensures |v| > 8 ==> r == 0
    ensures |v| <= 8 ==> r == Codec.DecodeBigUint(v)
  {
    Codec.DecodeU64(v).GetOr(0)
  }

  /** One prefix test of the sync loop: a matching entry writes its decoded
      value for its service id. */
  function SetField<V>(m: map<Bytes, V>, prefix: Bytes, e: MetadataEntry, decode: Bytes -> V): map<Bytes, V> {
    match ServiceIdOf(e.key, prefix)
    case Some(sid) => m[sid := decode(e.value)]
    case None => m
  }

  /** One iteration of `sync_pricing_metadata`: the three independent
      prefix tests on one entry. */
  function SyncEntry(c: ServiceConfigs, e: MetadataEntry): ServiceConfigs {
    ServiceConfigs(
      SetField(c.price, PricePrefix, e, DecodePrice),
      SetField(c.token, TokenPrefix, e, DecodePaymentToken),
      SetField(c.pnonce, PnoncePrefix, e, DecodePaymentNonce))
  }

  /** `sync_pricing_metadata`: the entries processed in order. */
  function SyncPricing(c: ServiceConfigs, md: MetadataList): ServiceConfigs {
    if md == [] then c else SyncEntry(SyncPricing(c, md[..|md| - 1]), md[|md| - 1])
  }

  /** One field of the configuration synced on its own. */
  function SyncField<V>(m: map<Bytes, V>, prefix: Bytes, md: MetadataList, decode: Bytes -> V): map<Bytes, V> {
    if md == [] then m else SetField(SyncField(m, prefix, md[..|md| - 1], decode), prefix, md[|md| - 1], decode)
  }

  /** The three fields are synced independently of each other. */
  lemma {:induction false} SyncPricingByField(c: ServiceConfigs, md: MetadataList)
    ensures SyncPricing(c, md) == ServiceConfigs(
      SyncField(c.price, PricePrefix, md, DecodePrice),
      SyncField(c.token, TokenPrefix, md, DecodePaymentToken),
      SyncField(c.pnonce, PnoncePrefix, md, DecodePaymentNonce))
    decreases |md|
  {
    if md != [] {
      SyncPricingByField(c, md[..|md| - 1]);
    }
  }

  /** For a field, the service id `sid` ends up holding the decoded value of
      the last entry keyed `prefix + sid`, or keeps its old value when no
      entry names it. The bare prefix names no service. */
  lemma {:induction false} SyncFieldLookup<V>(m: map<Bytes, V>, prefix: Bytes, md: MetadataList,
                                              decode: Bytes -> V, sid: Bytes)
    ensures |sid| == 0 ==> Lookup(SyncField(m, prefix, md, decode), sid) == Lookup(m, sid)
    ensures |sid| > 0 ==>
      (Lookup(SyncField(m, prefix, md, decode), sid)
       == match LastValue(md, prefix + sid) case Some(v) => Some(decode(v)) case None => Lookup(m, sid))
    decreases |md|
  {
    if md != [] {
      SyncFieldLookup(m, prefix, md[..|md| - 1], decode, sid);
      if |sid| > 0 {
        ServiceIdOfConcat(md[|md| - 1].key, prefix, sid);
      }
    }
  }

  /** The pricing sync per service: price, token and token nonce of service
      `sid` come from the last `price:sid`, `token:sid` and `pnonce:sid`
      entries, decoded with their fallbacks; services no entry names keep
      their configuration. */
  lemma SyncPricingLookup(c: ServiceConfigs, md: MetadataList, sid: Bytes)
    requires |sid| > 0
    ensures Lookup(SyncPricing(c, md).price, sid)
      == match LastValue(md, PricePrefix + sid) case Some(v) => Some(DecodePrice(v)) case None => Lookup(c.price, sid)
    ensures Lookup(SyncPricing(c, md).token, sid)
      == match LastValue(md, TokenPrefix + sid) case Some(v) => Some(DecodePaymentToken(v)) case None => Lookup(c.token, sid)
    ensures Lookup(SyncPricing(c, md).pnonce, sid)
      == match LastValue(md, PnoncePrefix + sid) case Some(v) => Some(DecodePaymentNonce(v)) case None => Lookup(c.pnonce, sid)
  {
    SyncPricingByField(c, md);
    SyncFieldLookup(c.price, PricePrefix, md, DecodePrice, sid);
    SyncFieldLookup(c.token, TokenPrefix, md, DecodePaymentToken, sid);
    SyncFieldLookup(c.pnonce, PnoncePrefix, md, DecodePaymentNonce, sid);
  }
}
