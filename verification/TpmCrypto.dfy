/** The session cryptography on the TPM's side, written from the standards octet by octet: KDFa (section 5.1 of NIST SP
    800-108), session-based encryption (section 21 of TPM 2.0 Part 1), cpHash, rpHash and the authorisation HMAC
    (sections 18.7, 18.8 and 19.6.5). The host's formulas play no part here. */
module TpmCrypto {
  import opened Octets
  import opened Tpm

  /** Octet j of a key: block j / h + 1 of the counter mode, at j % h. */
  function KdfaOctet(c: Suite, alg: u16, key: Bytes, use: Bytes, u: Bytes, v: Bytes, bits: nat, j: nat): (r: byte)
    requires DigestSize(alg) > 0
  {
    c.hmac(alg, key, BE(4, j / DigestSize(alg) + 1) + use + [0] + u + v + BE(4, bits))[j % DigestSize(alg)]
  }

  function Kdfa(c: Suite, alg: u16, key: Bytes, use: Bytes, u: Bytes, v: Bytes, n: nat): (r: Bytes)
    requires DigestSize(alg) > 0
    ensures |r| == n && forall j :: 0 <= j < n ==> r[j] == KdfaOctet(c, alg, key, use, u, v, 8 * n, j)
  {
    seq(n, j requires 0 <= j < n => KdfaOctet(c, alg, key, use, u, v, 8 * n, j))
  }

  /** The TPM's secret of a session and the algorithms it was set up with. */
  datatype Secret = Secret(alg: u16, value: Bytes, symmetric: u16, keyBits: nat, mode: u16) {
    predicate Xors() { symmetric == ALG_XOR }

    /** Can it encrypt parameters at all? */
    predicate Capable() {
      && DigestSize(alg) > 0
      && (Xors() || (symmetric == ALG_AES && mode == ALG_CFB && keyBits / 8 in {16, 24, 32}))
    }

    /** XOR obfuscation with the label "XOR". */
    function Obfuscated(c: Suite, newer: Bytes, older: Bytes, data: Bytes): (r: Bytes)
      requires DigestSize(alg) > 0
      ensures |r| == |data|
    {
      var mask := Kdfa(c, alg, value, [0x58, 0x4F, 0x52], newer, older, |data|);
      seq(|data|, j requires 0 <= j < |data| => Xor(data[j], mask[j]))
    }

    /** The key, then the initial vector, from the label "CFB". */
    function KeyAndIv(c: Suite, newer: Bytes, older: Bytes): (r: (Bytes, Bytes))
      requires DigestSize(alg) > 0
      ensures |r.0| == keyBits / 8 && |r.1| == 16
    {
      var both := Kdfa(c, alg, value, [0x43, 0x46, 0x42], newer, older, keyBits / 8 + 16);
      (both[..keyBits / 8], both[keyBits / 8..])
    }

    function Seal(c: Suite, newer: Bytes, older: Bytes, data: Bytes): (r: Bytes)
      requires Capable()
      ensures |r| == |data|
    {
      if Xors() then Obfuscated(c, newer, older, data)
      else c.cfb.Enc(KeyAndIv(c, newer, older).0, KeyAndIv(c, newer, older).1, data)
    }

    function Open(c: Suite, newer: Bytes, older: Bytes, data: Bytes): (r: Bytes)
      requires Capable()
      ensures |r| == |data|
    {
      if Xors() then Obfuscated(c, newer, older, data)
      else c.cfb.Dec(KeyAndIv(c, newer, older).0, KeyAndIv(c, newer, older).1, data)
    }
  }
}
