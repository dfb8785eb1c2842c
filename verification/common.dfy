/** Value types shared by the escrow, validation, reputation and identity
    registries: byte buffers, addresses, token payments and value transfers,
    plus the Option/Result wrappers every endpoint returns through. */
module Common {

  /** One byte of a managed buffer. */
  newtype byte = b: int | 0 <= b < 256

  /** A managed buffer (job ids, proofs, hashes, metadata keys and values). */
  type Bytes = seq<byte>

  /** A strictly positive amount (the source's `NonZeroBigUint`). */
  type Pos = n: nat | n > 0 witness 1

  datatype Option<+T> = None | Some(value: T) {
    function GetOr(default: T): T {
      match this
      case Some(v) => v
      case None => default
    }
  }

  /** Either the new state of an endpoint or the error it aborts with.
      An error carries no state: the whole transaction is rolled back. */
  datatype Result<+T, +E> = Ok(value: T) | Err(error: E)

  /** An account address. */
  datatype Address = Address(raw: Bytes)

  /** The native coin or a fungible/non-fungible token identifier. */
  datatype TokenId = Egld | Esdt(ticker: Bytes)

  /** A single payment: token, token nonce and a non-zero amount. */
  datatype Payment = Payment(token: TokenId, nonce: nat, amount: Pos)

  /** An outgoing value transfer emitted by an endpoint. */
  datatype Transfer = Transfer(to: Address, payment: Payment)

  /** Reads a map entry, absent keys as None. */
  function Lookup<K, V>(m: map<K, V>, k: K): (r: Option<V>)
    ensures r.Some? <==> k in m
    ensures r.Some? ==> r.value == m[k]
  {
    if k in m then Some(m[k]) else None
  }

  /** Reads a map entry the way a `SingleValueMapper` reads an empty slot:
      as the type's default value. */
  function GetOrDefault<K, V>(m: map<K, V>, k: K, default: V): V {
    if k in m then m[k] else default
  }
}
