/** Constants of the TPM 2.0 interface, the host's return codes and the cryptographic primitives it calls. */
module Tpm {
  import opened Octets

  // ---- algorithm identifiers ----
  const ALG_RSA: u16 := 0x0001
  const ALG_SHA1: u16 := 0x0004
  const ALG_HMAC: u16 := 0x0005
  const ALG_AES: u16 := 0x0006
  const ALG_KEYEDHASH: u16 := 0x0008
  const ALG_XOR: u16 := 0x000A
  const ALG_SHA256: u16 := 0x000B
  const ALG_SHA384: u16 := 0x000C
  const ALG_SHA512: u16 := 0x000D
  const ALG_NULL: u16 := 0x0010
  const ALG_RSASSA: u16 := 0x0014
  const ALG_RSAPSS: u16 := 0x0016
  const ALG_ECDSA: u16 := 0x0018
  const ALG_ECDAA: u16 := 0x001A
  const ALG_ECC: u16 := 0x0023
  const ALG_SYMCIPHER: u16 := 0x0025
  const ALG_CFB: u16 := 0x0043

  // ---- tags ----
  const ST_NO_SESSIONS: u16 := 0x8001
  const ST_SESSIONS: u16 := 0x8002

  // ---- return codes ----
  const RC_SUCCESS := 0
  const RC_FAILURE := 0x101
  const RC_HMAC := 0x119
  const RC_AUTH_MISSING := 0x125
  const RC_TIMEOUT := -100
  const BAD_MUTEX_E := -106
  const WC_TIMEOUT_E := -107
  const MEMORY_E := -125
  const RSA_BUFFER_E := -131
  const BUFFER_E := -132
  const BAD_FUNC_ARG := -173
  const NOT_COMPILED_IN := -174
  const RSA_PAD_E := -201
  const PSS_SALTLEN_E := -250

  // ---- capacities of the sized buffers ----
  const MAX_DIGEST := 64   // TPM2B_DIGEST, TPM2B_NONCE, TPM2B_AUTH
  const MAX_DATA := 66     // TPM2B_DATA
  const MAX_NAME := 68     // TPM2B_NAME
  const MAX_RSA := 512     // TPM2B_PUBLIC_KEY_RSA
  const MAX_ECC := 66      // TPM2B_ECC_PARAMETER
  const MAX_NV := 768      // TPM2B_MAX_NV_BUFFER
  const MAX_MASK := 1024   // TPM2B_MAX_BUFFER

  const HEADER_SIZE := 10

  // ---- session handles and attributes ----
  const RS_PW: u32 := 0x4000_0009
  const SESSION_CONTINUE: byte := 0x01
  const SESSION_DECRYPT: byte := 0x20
  const SESSION_ENCRYPT: byte := 0x40
  const SESSION_AUDIT: byte := 0x80

  predicate IsHmacSession(h: u32) { h / 0x100_0000 == 0x02 }

  predicate IsPolicySession(h: u32) { h / 0x100_0000 == 0x03 }

  function DigestSize(alg: u16): (r: nat)
    ensures r <= MAX_DIGEST
    ensures r > 0 <==> alg in {ALG_SHA1, ALG_SHA256, ALG_SHA384, ALG_SHA512}
  {
    if alg == ALG_SHA1 then 20
    else if alg == ALG_SHA256 then 32
    else if alg == ALG_SHA384 then 48
    else if alg == ALG_SHA512 then 64
    else 0
  }

  // ---- primitives that wolfCrypt supplies: only lengths and decryption are assumed of them ----

  type HashFn = h: (u16, Bytes) -> Bytes | forall a: u16, m: Bytes :: |h(a, m)| == DigestSize(a)
    witness (a: u16, m: Bytes) => Zeros(DigestSize(a))

  type HmacFn = h: (u16, Bytes, Bytes) -> Bytes | forall a: u16, k: Bytes, m: Bytes :: |h(a, k, m)| == DigestSize(a)
    witness (a: u16, k: Bytes, m: Bytes) => Zeros(DigestSize(a))

  type CfbFn = f: (Bytes, Bytes, Bytes) -> Bytes | forall k: Bytes, iv: Bytes, d: Bytes :: |f(k, iv, d)| == |d|
    witness (k: Bytes, iv: Bytes, d: Bytes) => d

  datatype CfbPair = CfbPair(enc: CfbFn, dec: CfbFn) {
    function Enc(k: Bytes, iv: Bytes, d: Bytes): (r: Bytes)
      ensures |r| == |d|
    {
      enc(k, iv, d)
    }

    function Dec(k: Bytes, iv: Bytes, d: Bytes): (r: Bytes)
      ensures |r| == |d|
    {
      dec(k, iv, d)
    }
  }

  type Cfb = c: CfbPair | forall k: Bytes, iv: Bytes, d: Bytes :: c.Dec(k, iv, c.Enc(k, iv, d)) == d
    witness CfbPair((k: Bytes, iv: Bytes, d: Bytes) => d, (k: Bytes, iv: Bytes, d: Bytes) => d)

  datatype Suite = Suite(hash: HashFn, hmac: HmacFn, cfb: Cfb)
}
