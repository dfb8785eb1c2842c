/** The top-level decoding of metadata values used by the identity registry's
    pricing sync: big-endian unsigned integers of arbitrary width
    (`BigUint`), of at most eight bytes (`u64`), and token identifiers. */
module Codec {
  import opened Common

  const U64Bound: nat := 0x1_0000_0000_0000_0000

  function Pow256(k: nat): (r: nat)
    ensures r > 0
  {
    if k == 0 then 1 else 256 * Pow256(k - 1)
  }

  /** The big-endian unsigned value of a byte string; the empty string is 0.
      This is how a `BigUint` is top-decoded, and it never fails. */
  function DecodeBigUint(b: Bytes): (r: nat)
    ensures r < Pow256(|b|)
  {
    if |b| == 0 then 0 else DecodeBigUint(b[..|b| - 1]) * 256 + b[|b| - 1] as nat
  }

  /** The minimal big-endian encoding of a `BigUint`: no leading zero byte,
      and zero is the empty string. */
  function EncodeBigUint(n: nat): (r: Bytes)
    ensures n == 0 <==> |r| == 0
    ensures |r| > 0 ==> r[0] != 0
    decreases n
  {
    if n == 0 then [] else EncodeBigUint(n / 256) + [(n % 256) as byte]
  }

  /** Decoding the encoding of a number gives the number back. */
  lemma {:induction false} DecodeEncodeBigUint(n: nat)
    ensures DecodeBigUint(EncodeBigUint(n)) == n
    decreases n
  {
    if n > 0 {
      var e := EncodeBigUint(n);
      assert e[..|e| - 1] == EncodeBigUint(n / 256);
      DecodeEncodeBigUint(n / 256);
    }
  }

  /** Top-decoding a `u64`: at most eight bytes, big-endian; a longer value
      is a decoding error. */
  function DecodeU64(b: Bytes): (r: Option<nat>)
    ensures r.None? <==> |b| > 8
    ensures r.Some? ==> r.value < U64Bound
  {
    if |b| > 8 then None
    else
      PowMonotone(|b|, 8);
      Some(DecodeBigUint(b))
  }

  lemma {:induction false} PowMonotone(i: nat, j: nat)
    requires i <= j
    ensures Pow256(i) <= Pow256(j)
    decreases j
  {
    if i < j {
      PowMonotone(i, j - 1);
    }
  }

  /** The byte string that names the native coin, "EGLD". */
  const EgldName: Bytes := [0x45, 0x47, 0x4c, 0x44]

  /** Top-decoding a token identifier: the native coin's name or any other
      buffer taken as an ESDT identifier. Kept as an Option so that the
      caller's fallback is visible; this decoder accepts every buffer. */
  function DecodeToken(b: Bytes): (r: Option<TokenId>)
    ensures r.Some?
    ensures r.value == Egld <==> b == EgldName
  {
    if b == EgldName then Some(Egld) else Some(Esdt(b))
  }
}
