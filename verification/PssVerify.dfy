/** EMSA-PSS-VERIFY (section 9.1.2 of RFC 8017) with MGF1 (appendix B.2.1), octet by octet; the encoder's functions play
    no part here. */
module PssVerify {
  import opened Octets
  import opened Tpm

  /** Octet i of MGF1: Hash(seed || C) with the four-octet counter C = i / hLen, at i % hLen. */
  function MaskOctet(c: Suite, alg: u16, seed: Bytes, i: nat): (r: byte)
    requires DigestSize(alg) > 0
  {
    c.hash(alg, seed + BE(4, i / DigestSize(alg)))[i % DigestSize(alg)]
  }

  /** Octet i of the data block; of the leftmost one only the low-order bits, below top, are kept. */
  function DataOctet(c: Suite, alg: u16, masked: Bytes, h: Bytes, top: nat, i: nat): (r: byte)
    requires DigestSize(alg) > 0 && i < |masked| && top > 0
  {
    var x := Xor(masked[i], MaskOctet(c, alg, h, i));
    if i == 0 then x % top else x
  }

  function SaltIn(c: Suite, alg: u16, masked: Bytes, h: Bytes, top: nat, saltLen: nat): (r: Bytes)
    requires DigestSize(alg) > 0 && saltLen <= |masked| && top > 0
    ensures |r| == saltLen
  {
    seq<byte>(saltLen, i requires 0 <= i < saltLen => DataOctet(c, alg, masked, h, top, |masked| - saltLen + i))
  }

  predicate Verify(c: Suite, alg: u16, mHash: Bytes, em: Bytes, emBits: nat, saltLen: nat)
    requires DigestSize(alg) > 0
  {
    var hLen, emLen := DigestSize(alg), (emBits + 7) / 8;
    var top := Pow2(8 - (8 * emLen - emBits));
    && |em| == emLen && emLen >= hLen + saltLen + 2
    && em[emLen - 1] == 0xBC
    && var n := emLen - hLen - 1;
    var masked, h := em[..n], em[n..n + hLen];
    && masked[0] < top
    && (forall i :: 0 <= i < n - saltLen - 1 ==> DataOctet(c, alg, masked, h, top, i) == 0)
    && DataOctet(c, alg, masked, h, top, n - saltLen - 1) == 1
    && h == c.hash(alg, Zeros(8) + mHash + SaltIn(c, alg, masked, h, top, saltLen))
  }
}
