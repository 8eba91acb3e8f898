/** The host's key derivation, ciphers, hashes and HMACs are those of the standards, as the TPM writes them. */
module PeerCrypto {
  import opened Octets
  import opened Tpm
  import opened ParamEnc
  import opened TpmCrypto
  import opened Peer

  /** The keys of the TPM's session as the host would hold them. */
  function KeysOf(t: Held): (r: Cipher) { Cipher(t.symmetric, t.authHash, t.key, t.bind) }

  lemma KdfIsKdfa(c: Suite, k: KdfInput, n: nat)
    requires DigestSize(k.alg) > 0 && k.lbl.Some? && k.bits == 8 * n
    ensures Kdf(c, k, n) == Kdfa(c, k.alg, k.key, k.lbl.value, k.contextU, k.contextV, n)
  {
    hide Kdf, BE, DigestSize;
    var a, b := Kdf(c, k, n), Kdfa(c, k.alg, k.key, k.lbl.value, k.contextU, k.contextV, n);
    forall j | 0 <= j < n ensures a[j] == b[j] {
      KdfOctet(c, k, n, j);
      var m := BE(4, j / DigestSize(k.alg) + 1);
      assert m + (k.lbl.value + [0]) == m + k.lbl.value + [0];
    }
  }

  /** Whatever the host can encrypt the TPM can decrypt, and both ciphers are the same. */
  lemma CiphersAgree(c: Suite, t: Held, newer: Bytes, older: Bytes, data: Bytes)
    requires KeysOf(t).Error(|data|) == None
    ensures t.Secret().Capable()
    ensures Encrypt(c, KeysOf(t), newer, older, data) == t.Secret().Seal(c, newer, older, data)
    ensures Decrypt(c, KeysOf(t), newer, older, data) == t.Secret().Open(c, newer, older, data)
  {
    hide Kdf, Kdfa, Xor, DigestSize;
    var x, s := KeysOf(t), t.Secret();
    assert x.Key() == s.value by { assert t.key + [] == t.key; }
    if s.Xors() {
      KdfIsKdfa(c, x.KdfFor(XOR_LABEL, newer, older, |data|), |data|);
      assert Mask(c, x, newer, older, |data|) == Kdfa(c, s.alg, s.value, XOR_LABEL, newer, older, |data|);
      assert XorBytes(data, Mask(c, x, newer, older, |data|)) == s.Obfuscated(c, newer, older, data);
    } else {
      var n := x.AesKeySize() + 16;
      KdfIsKdfa(c, x.KdfFor(CFB_LABEL, newer, older, n), n);
      assert AesKeyIv(c, x, newer, older) == Kdfa(c, s.alg, s.value, CFB_LABEL, newer, older, n);
    }
  }

  lemma CommandHmacIs(c: Suite, alg: u16, key: Bytes, cc: u32, names: Bytes, params: Bytes, newer: Bytes, older: Bytes,
      attrs: byte)
    ensures AuthHmac(c, alg, key, CpHash(c, alg, cc, names, params), newer, older, attrs)
            == c.hmac(alg, key, c.hash(alg, BE(4, cc) + names + params) + newer + older + [attrs])
  {
    hide BE, DigestSize;
  }

  lemma ResponseHmacIs(c: Suite, alg: u16, key: Bytes, cc: u32, params: Bytes, newer: Bytes, older: Bytes, attrs: byte)
    ensures AuthHmac(c, alg, key, RpHash(c, alg, cc, params), newer, older, attrs)
            == c.hmac(alg, key, c.hash(alg, BE(4, RC_SUCCESS) + BE(4, cc) + params) + newer + older + [attrs])
  {
    hide BE, DigestSize;
  }
}
