/** PSS encoding of a digest for an RSA signature (RsaPadPss and RsaMGF1 of tpm2_cryptocb.c) against sections 9.1.1,
    9.1.2 and appendix B.2.1 of RFC 8017. */
module Pss {
  import opened Octets
  import opened Tpm
  import opened ParamEnc
  import opened Commands
  import opened PssVerify

  const PAD_TERM: byte := 0xBC
  const PAD_SZ := 8
  const SALT_LEN_DEFAULT := -1
  const SALT_MAX_SZ := 62

  type SaltSource = f: nat -> RngReply | forall n: nat :: f(n).Answers(n)
    witness (n: nat) => Nonce(Zeros(n))

  // ---- MGF1 ----

  function MgfStream(c: Suite, alg: u16, seed: Bytes, n: nat): (r: Bytes)
    ensures DigestSize(alg) > 0 ==> |r| >= n
  {
    if n == 0 then [] else MgfStream(c, alg, seed, n - 1) + c.hash(alg, seed + BE(4, n - 1))
  }

  /** The first size octets of Hash(seed || 0) || Hash(seed || 1) || ... with four-octet counters. */
  function Mgf1(c: Suite, alg: u16, seed: Bytes, size: nat): (r: Bytes)
    requires DigestSize(alg) > 0
    ensures |r| == size
  {
    MgfStream(c, alg, seed, size)[..size]
  }

  lemma {:induction false} MgfPrefix(c: Suite, alg: u16, seed: Bytes, m: nat, n: nat)
    requires m <= n
    ensures MgfStream(c, alg, seed, m) <= MgfStream(c, alg, seed, n)
    decreases n
  {
    if m < n { MgfPrefix(c, alg, seed, m, n - 1); }
  }

  lemma MgfSettled(c: Suite, alg: u16, seed: Bytes, n: nat, size: nat)
    requires DigestSize(alg) > 0 && size <= |MgfStream(c, alg, seed, n)|
    ensures MgfStream(c, alg, seed, n)[..size] == Mgf1(c, alg, seed, size)
  {
    if n <= size { MgfPrefix(c, alg, seed, n, size); } else { MgfPrefix(c, alg, seed, size, n); }
  }

  /** Octet j of the mask lies in block j / h, at j % h, where h is the digest size. */
  lemma {:induction false} MgfOctet(c: Suite, alg: u16, seed: Bytes, n: nat, j: nat)
    requires DigestSize(alg) > 0
    ensures |MgfStream(c, alg, seed, n)| == n * DigestSize(alg)
    ensures j < n * DigestSize(alg) ==> MgfStream(c, alg, seed, n)[j] == MaskOctet(c, alg, seed, j)
  {
    hide DigestSize, BE;
    var h := DigestSize(alg);
    if n > 0 {
      MgfOctet(c, alg, seed, n - 1, j);
      assert n * h == (n - 1) * h + h;
      if (n - 1) * h <= j < n * h { Quotient(j, h, n - 1); }
    }
  }

  /** MGF1 as the standard writes it. */
  lemma Mgf1Octets(c: Suite, alg: u16, seed: Bytes, size: nat)
    requires DigestSize(alg) > 0
    ensures forall j :: 0 <= j < size ==> Mgf1(c, alg, seed, size)[j] == MaskOctet(c, alg, seed, j)
  {
    hide DigestSize, MgfStream, MaskOctet;
    forall j | 0 <= j < size ensures Mgf1(c, alg, seed, size)[j] == MaskOctet(c, alg, seed, j) {
      MgfOctet(c, alg, seed, size, j);
    }
  }

  lemma CounterBytes(v: nat)
    requires v < 0x1_0000_0000
    ensures U32(v) == [v / 0x100_0000 % 0x100, v / 0x1_0000 % 0x100, v / 0x100 % 0x100, v % 0x100]
  {
    assert BE(4, v) == BE(3, v / 0x100) + [v % 0x100];
    assert BE(3, v / 0x100) == BE(2, v / 0x1_0000) + [v / 0x100 % 0x100];
    assert BE(2, v / 0x1_0000) == BE(1, v / 0x100_0000) + [v / 0x1_0000 % 0x100];
    assert BE(1, v / 0x100_0000) == [v / 0x100_0000 % 0x100];
  }

  lemma MgfStep(c: Suite, alg: u16, seed: Bytes, n: nat)
    requires n < 0x1_0000_0000
    ensures MgfStream(c, alg, seed, 0) == []
    ensures MgfStream(c, alg, seed, n + 1) == MgfStream(c, alg, seed, n) + c.hash(alg, seed + U32(n))
  {
    hide U32;
    assert U32(n) == BE(4, n) by { CounterOctets(n); }
  }

  /** The last block may be cut short. */
  lemma CutShort(made: Bytes, tmp: Bytes, n: nat)
    requires n <= |tmp|
    ensures (made + tmp)[..|made| + n] == made + tmp[..n]
  {
  }

  method MgfRound(c: Suite, alg: u16, seed: Bytes, counter: nat) returns (tmp: Bytes)
    requires counter < 0x1_0000_0000
    ensures tmp == c.hash(alg, seed + U32(counter))
  {
    hide U32;
    CounterBytes(counter);
    var bytes := [counter / 0x100_0000 % 0x100, counter / 0x1_0000 % 0x100, counter / 0x100 % 0x100, counter % 0x100];
    tmp := c.hash(alg, seed + bytes);
  }

  method CopyNext(out: array<byte>, off: nat, tmp: Bytes, idx: nat, n: nat, ghost before: Bytes, ghost made: Bytes)
    requires n <= |tmp| && |before| == out.Length && off + idx + n <= out.Length
    requires |made| == idx && out[..] == Splice(before, off, made)
    modifies out
    ensures out[..] == Splice(before, off, (made + tmp)[..idx + n])
  {
    hide Splice;
    CopyInto(out, off + idx, tmp[..n]);
    SpliceSplice(before, off, made, tmp[..n]);
    CutShort(made, tmp, n);
  }

  lemma MaskWritten(c: Suite, alg: u16, seed: Bytes, before: Bytes, off: nat, n: nat, after: Bytes)
    requires DigestSize(alg) > 0 && off + n <= |before| && after == Splice(before, off, Mgf1(c, alg, seed, n))
    ensures forall j :: 0 <= j < n ==>
      after[off + j] == c.hash(alg, seed + BE(4, j / DigestSize(alg)))[j % DigestSize(alg)]
  {
    hide DigestSize, BE, Mgf1;
    Mgf1Octets(c, alg, seed, n);
    forall j | 0 <= j < n
      ensures after[off + j] == c.hash(alg, seed + BE(4, j / DigestSize(alg)))[j % DigestSize(alg)]
    {
      assert after[off + j] == after[off..off + n][j] == Mgf1(c, alg, seed, n)[j] == MaskOctet(c, alg, seed, j);
    }
  }

  method RsaMGF1(c: Suite, alg: u16, seed: Bytes, out: array<byte>, off: nat, outSz: nat) returns (rc: int)
    requires DigestSize(alg) > 0 && off + outSz <= out.Length && outSz < 0x1_0000_0000
    modifies out
    ensures |seed| > MAX_DIGEST ==> rc == BAD_FUNC_ARG && out[..] == old(out[..])
    ensures |seed| <= MAX_DIGEST ==> rc == RC_SUCCESS && out[..] == Splice(old(out[..]), off, Mgf1(c, alg, seed, outSz))
    ensures |seed| <= MAX_DIGEST ==> forall j :: 0 <= j < outSz ==>
      out[off + j] == c.hash(alg, seed + BE(4, j / DigestSize(alg)))[j % DigestSize(alg)]
  {
    hide U32, Splice, Mgf1, DigestSize, MgfStream;
    var hLen := DigestSize(alg);
    var tmpSz := if |seed| + 4 > hLen then |seed| + 4 else hLen;
    if tmpSz > MAX_DIGEST + 4 { return BAD_FUNC_ARG; }
    ghost var before := out[..];
    SpliceSelf(before, off, 0);
    MgfStep(c, alg, seed, 0);
    var counter, idx := 0, 0;
    ghost var made: Bytes := [];
    while true
      invariant counter <= idx == |made| <= outSz
      invariant (counter > 0 ==> idx < outSz) && made == MgfStream(c, alg, seed, counter)
      invariant out[..] == Splice(before, off, made)
      decreases outSz - idx
    {
      var tmp := MgfRound(c, alg, seed, counter);
      MgfStep(c, alg, seed, counter);
      var n := Min(hLen, outSz - idx);
      CopyNext(out, off, tmp, idx, n, before, made);
      counter := counter + 1;
      idx := idx + n;
      if idx >= outSz { break; }
      made := made + tmp;
      assert made[..idx] == made;
    }
    MgfSettled(c, alg, seed, counter, outSz);
    MaskWritten(c, alg, seed, before, off, outSz, out[..]);
    rc := RC_SUCCESS;
  }

  // ---- EMSA-PSS ----

  function EmLen(emBits: nat): (r: nat) { (emBits + 7) / 8 }

  /** The mask that clears the leftmost 8 * emLen - emBits bits of an octet. */
  function TopMask(emBits: nat): (r: byte)
    ensures r % 2 == 1
  {
    Pow2Of8();
    var keep := 8 - (8 * EmLen(emBits) - emBits);
    Pow2Upto(keep);
    Pow2(keep) - 1
  }

  lemma Pow2Upto(n: nat)
    requires n <= 8
    ensures Pow2(n) <= 256 && (n > 0 ==> Pow2(n) % 2 == 0)
  {
    Pow2Of8();
    Pow2Grows(n, 8);
  }

  lemma {:induction false} Pow2Grows(m: nat, n: nat)
    requires m <= n
    ensures Pow2(m) <= Pow2(n)
    decreases n
  {
    if m < n { Pow2Grows(m, n - 1); }
  }

  function ClearTop(b: Bytes, emBits: nat): (r: Bytes)
    requires |b| > 0
    ensures |r| == |b| && forall i :: 0 < i < |b| ==> r[i] == b[i]
  {
    b[0 := And(b[0], TopMask(emBits))]
  }

  function DataBlock(n: nat, salt: Bytes): (r: Bytes)
    requires |salt| < n
    ensures |r| == n
  {
    Zeros(n - |salt| - 1) + [1] + salt
  }

  function SaltedHash(c: Suite, alg: u16, mHash: Bytes, salt: Bytes): (r: Bytes)
    ensures |r| == DigestSize(alg)
  {
    c.hash(alg, Zeros(PAD_SZ) + mHash + salt)
  }

  /** EMSA-PSS-ENCODE, section 9.1.1, for a digest and a salt. */
  function Encode(c: Suite, alg: u16, mHash: Bytes, salt: Bytes, emBits: nat): (r: Bytes)
    requires DigestSize(alg) > 0 && EmLen(emBits) >= DigestSize(alg) + |salt| + 2
    ensures |r| == EmLen(emBits)
  {
    var h := SaltedHash(c, alg, mHash, salt);
    var n := EmLen(emBits) - DigestSize(alg) - 1;
    ClearTop(XorBytes(DataBlock(n, salt), Mgf1(c, alg, h, n)), emBits) + h + [PAD_TERM]
  }

  /** The verification in the encoder's terms. */
  predicate Unmasks(c: Suite, alg: u16, mHash: Bytes, em: Bytes, emBits: nat, saltLen: nat)
    requires DigestSize(alg) > 0
  {
    var hLen := DigestSize(alg);
    var emLen := EmLen(emBits);
    && |em| == emLen && emLen >= hLen + saltLen + 2 && em[emLen - 1] == PAD_TERM
    && var n := emLen - hLen - 1;
    var maskedDB := em[..n];
    var h := em[n..n + hLen];
    && And(maskedDB[0], TopMask(emBits)) == maskedDB[0]
    && var db := ClearTop(XorBytes(maskedDB, Mgf1(c, alg, h, n)), emBits);
    && (forall i :: 0 <= i < n - saltLen - 1 ==> db[i] == 0) && db[n - saltLen - 1] == 1
    && SaltedHash(c, alg, mHash, db[n - saltLen..]) == h
  }

  /** Which is the standard's: masking with ones is taking what is below a power of two. */
  lemma VerifyIff(c: Suite, alg: u16, mHash: Bytes, em: Bytes, emBits: nat, saltLen: nat)
    requires DigestSize(alg) > 0
    ensures Verify(c, alg, mHash, em, emBits, saltLen) <==> Unmasks(c, alg, mHash, em, emBits, saltLen)
  {
    hide DigestSize, Xor, And, TopMask, Pow2, MaskOctet, Mgf1;
    var hLen, emLen := DigestSize(alg), EmLen(emBits);
    if |em| == emLen && emLen >= hLen + saltLen + 2 {
      var n := emLen - hLen - 1;
      var masked, h := em[..n], em[n..n + hLen];
      var top := Pow2(8 - (8 * emLen - emBits));
      var db := ClearTop(XorBytes(masked, Mgf1(c, alg, h, n)), emBits);
      Mgf1Octets(c, alg, h, n);
      KeepsLow(masked[0], emBits);
      KeepsLow(Xor(masked[0], MaskOctet(c, alg, h, 0)), emBits);
      assert forall i :: 0 <= i < n ==> db[i] == DataOctet(c, alg, masked, h, top, i);
      assert db[n - saltLen..] == SaltIn(c, alg, masked, h, top, saltLen);
    }
  }

  lemma KeepsLow(a: byte, emBits: nat)
    ensures And(a, TopMask(emBits)) == a % Pow2(8 - (8 * EmLen(emBits) - emBits))
    ensures And(a, TopMask(emBits)) == a <==> a < Pow2(8 - (8 * EmLen(emBits) - emBits))
  {
    hide AndBits;
    var k := 8 - (8 * EmLen(emBits) - emBits);
    AndBitsLow(8, a, k);
    LowIsSmall(a, Pow2(k));
  }

  lemma LowIsSmall(a: nat, p: nat)
    requires p > 0
    ensures a % p == a <==> a < p
  {
  }

  lemma {:induction false} AndBitsUnits(n: nat, m: nat)
    requires n > 0
    ensures AndBits(n, 0, m) == 0 && AndBits(n, 1, m) == m % 2
  {
    AndBitsZero(n - 1, m / 2);
  }

  lemma {:induction false} AndBitsZero(n: nat, m: nat)
    ensures AndBits(n, 0, m) == 0
  {
    if n > 0 { AndBitsZero(n - 1, m / 2); }
  }

  /** Masking twice with a mask that keeps the lowest bit undoes the masking of a block that starts with 0 or 1. */
  lemma UnmaskByte(d: byte, x: byte, m: byte)
    requires m % 2 == 1 && d <= 1
    ensures And(Xor(And(Xor(d, x), m), x), m) == d
  {
    AndXor(And(Xor(d, x), m), x, m);
    AndXor(d, x, m);
    AndXor(Xor(d, x), x, m);
    XorCancels(And(d, m), And(x, m));
    AndBitsUnits(8, m);
  }

  lemma Unmask(db: Bytes, mask: Bytes, emBits: nat)
    requires |db| == |mask| > 0 && db[0] <= 1
    ensures ClearTop(XorBytes(ClearTop(XorBytes(db, mask), emBits), mask), emBits) == db
  {
    hide Xor, And, TopMask;
    var masked := ClearTop(XorBytes(db, mask), emBits);
    var back := ClearTop(XorBytes(masked, mask), emBits);
    UnmaskByte(db[0], mask[0], TopMask(emBits));
    forall i | 0 <= i < |db| ensures back[i] == db[i] {
      if i > 0 { XorCancels(db[i], mask[i]); }
    }
  }

  /** What is encoded verifies. */
  lemma EncodeVerifies(c: Suite, alg: u16, mHash: Bytes, salt: Bytes, emBits: nat)
    requires DigestSize(alg) > 0 && EmLen(emBits) >= DigestSize(alg) + |salt| + 2
    ensures Verify(c, alg, mHash, Encode(c, alg, mHash, salt, emBits), emBits, |salt|)
  {
    hide Mgf1, SaltedHash, Xor, And, TopMask, EmLen, DigestSize, Verify;
    VerifyIff(c, alg, mHash, Encode(c, alg, mHash, salt, emBits), emBits, |salt|);
    var h := SaltedHash(c, alg, mHash, salt);
    var n := EmLen(emBits) - DigestSize(alg) - 1;
    var db := DataBlock(n, salt);
    var mask := Mgf1(c, alg, h, n);
    var masked := ClearTop(XorBytes(db, mask), emBits);
    var em := Encode(c, alg, mHash, salt, emBits);
    assert em[..n] == masked && em[n..n + DigestSize(alg)] == h;
    AndXor(XorBytes(db, mask)[0], mask[0], TopMask(emBits));
    Unmask(db, mask, emBits);
    assert db[n - |salt|..] == salt;
  }

  /** And nothing else does: an accepted block is the encoding of the digest with the salt it holds. */
  lemma VerifiedIsEncoded(c: Suite, alg: u16, mHash: Bytes, em: Bytes, emBits: nat, saltLen: nat)
    requires DigestSize(alg) > 0 && Verify(c, alg, mHash, em, emBits, saltLen)
    ensures exists salt: Bytes :: |salt| == saltLen && em == Encode(c, alg, mHash, salt, emBits)
  {
    hide Mgf1, SaltedHash, Xor, And, TopMask, EmLen, DigestSize, Verify;
    VerifyIff(c, alg, mHash, em, emBits, saltLen);
    var hLen := DigestSize(alg);
    var n := EmLen(emBits) - hLen - 1;
    var maskedDB, h := em[..n], em[n..n + hLen];
    var mask := Mgf1(c, alg, h, n);
    var db := ClearTop(XorBytes(maskedDB, mask), emBits);
    var salt := db[n - saltLen..];
    assert db == DataBlock(n, salt);
    var again := ClearTop(XorBytes(db, mask), emBits);
    var m := TopMask(emBits);
    forall i | 0 <= i < n ensures again[i] == maskedDB[i] {
      if i == 0 { RemaskByte(maskedDB[0], mask[0], m); } else { XorCancels(maskedDB[i], mask[i]); }
    }
    assert again == maskedDB;
    assert em == maskedDB + h + [PAD_TERM];
    assert em == Encode(c, alg, mHash, salt, emBits);
  }

  lemma RemaskByte(a: byte, x: byte, m: byte)
    requires And(a, m) == a
    ensures And(Xor(And(Xor(a, x), m), x), m) == a
  {
    AndXor(And(Xor(a, x), m), x, m);
    AndXor(a, x, m);
    AndXor(Xor(a, x), x, m);
    XorCancels(And(a, m), And(x, m));
  }

  // ---- the code ----

  /** Clearing the top bits of a raw mask and then combining it with the data block is masking the data block. */
  lemma CombinedIsMasked(mask: Bytes, salt: Bytes, emBits: nat, cleared: Bytes, out: Bytes)
    requires |mask| == |cleared| == |out| > |salt|
    requires cleared == if emBits % 8 != 0 then ClearTop(mask, emBits) else mask
    requires var p := |mask| - |salt| - 1;
      && (forall i :: 0 <= i < p ==> out[i] == cleared[i]) && out[p] == Xor(cleared[p], 1)
      && out[p + 1..] == XorBytes(cleared[p + 1..], salt)
    ensures out == ClearTop(XorBytes(DataBlock(|mask|, salt), mask), emBits)
  {
    hide Xor, And, TopMask;
    var p := |mask| - |salt| - 1;
    var db := DataBlock(|mask|, salt);
    var want := ClearTop(XorBytes(db, mask), emBits);
    var m := TopMask(emBits);
    if emBits % 8 == 0 { WholeMask(emBits); AndAll(want[0]); AndAll(XorBytes(db, mask)[0]); }
    forall i | 0 <= i < |mask| ensures out[i] == want[i] {
      XorCommutes(db[i], mask[i]);
      XorCommutes(db[i], cleared[i]);
      XorCancels(mask[i], 0);
      XorCancels(cleared[i], 0);
      if i == 0 { FirstByte(db[0], mask[0], m); }
      if i > p { assert out[i] == out[p + 1..][i - p - 1] == XorBytes(cleared[p + 1..], salt)[i - p - 1]; }
    }
  }

  lemma FirstByte(d: byte, x: byte, m: byte)
    requires d <= 1 && m % 2 == 1
    ensures And(Xor(d, x), m) == Xor(d, And(x, m))
  {
    AndXor(d, x, m);
    AndBitsUnits(8, m);
  }

  lemma WholeMask(emBits: nat)
    requires emBits % 8 == 0
    ensures TopMask(emBits) == 0xFF
  {
    Pow2Of8();
  }

  lemma TopMaskIs(emBits: nat)
    requires emBits % 8 != 0
    ensures TopMask(emBits) == Pow2(emBits % 8) - 1
  {
  }

  /** The separator and, behind it, the salt, combined with what is in the block. */
  function Salted(b: Bytes, m: nat, salt: Bytes): (r: Bytes)
    requires m + 1 + |salt| <= |b|
    ensures |r| == |b|
  {
    Splice(b, m, [Xor(b[m], 1)] + XorBytes(b[m + 1..m + 1 + |salt|], salt))
  }

  method XorSalt(block: array<byte>, m: nat, salt: array<byte>, saltLen: nat)
    requires m + 1 + saltLen <= block.Length && saltLen <= salt.Length && block != salt
    modifies block
    ensures block[..] == Salted(old(block[..]), m, salt[..saltLen])
  {
    hide Xor, XorBytes, Splice;
    ghost var was := block[..];
    block[m] := Xor(block[m], 1);
    assert block[..] == Splice(was, m, [Xor(was[m], 1)]) by { SplicedBack(was, block[..], m, [Xor(was[m], 1)]); }
    assert block[m + 1..m + 1 + saltLen] == was[m + 1..m + 1 + saltLen];
    XorInto(block, m + 1, salt, saltLen);
    SpliceSplice(was, m, [Xor(was[m], 1)], XorBytes(was[m + 1..m + 1 + saltLen], salt[..saltLen]));
  }

  function Cleared(mask: Bytes, bits: nat): (r: Bytes)
    requires |mask| > 0 && bits > 0
    ensures |r| == |mask|
  {
    if (bits - 1) % 8 != 0 then ClearTop(mask, bits - 1) else mask
  }

  method ClearHigh(block: array<byte>, off: nat, n: nat, bits: nat)
    requires off + n <= block.Length && n > 0 && bits > 0
    modifies block
    ensures block[..] == old(block[..off]) + Cleared(old(block[off..off + n]), bits) + old(block[off + n..])
  {
    hide And, TopMask, ClearTop, Pow2;
    ghost var before := block[..];
    var hiBits := (bits - 1) % 8;
    if hiBits != 0 {
      TopMaskIs(bits - 1);
      ClearedFirst(before, off, n, bits - 1);
      block[off] := And(block[off], Pow2(hiBits) - 1);
    } else {
      assert before == before[..off] + before[off..off + n] + before[off + n..];
    }
  }

  lemma SpliceIs(b: Bytes, off: nat, data: Bytes)
    requires off + |data| <= |b|
    ensures Splice(b, off, data) == b[..off] + data + b[off + |data|..]
  {
  }

  lemma SplitAt(b: Bytes, k: nat)
    requires k < |b|
    ensures b == b[..k] + [b[k]] + b[k + 1..]
  {
  }

  lemma SaltedParts(l: Bytes, pre: Bytes, a: Bytes, x: byte, t: Bytes, post: Bytes, salt: Bytes)
    requires |salt| == |t| && l == pre + (a + [x] + t) + post
    ensures Salted(l, |pre| + |a|, salt) == pre + (a + ([Xor(x, 1)] + XorBytes(t, salt))) + post
  {
    hide Xor, XorBytes, Splice;
    Parts(l, pre, a, x, t, post, [Xor(x, 1)] + XorBytes(t, salt));
  }

  lemma SaltedMask(pre: Bytes, mask: Bytes, post: Bytes, salt: Bytes, bits: nat)
    requires |salt| < |mask| && bits > 0
    ensures Salted(pre + Cleared(mask, bits) + post, |pre| + (|mask| - |salt| - 1), salt)
            == pre + ClearTop(XorBytes(DataBlock(|mask|, salt), mask), bits - 1) + post
  {
    hide Xor, XorBytes, DataBlock, ClearTop, Cleared, Salted;
    var cleared := Cleared(mask, bits);
    var k := |mask| - |salt| - 1;
    var a, x, t := cleared[..k], cleared[k], cleared[k + 1..];
    SplitAt(cleared, k);
    CombinedParts(mask, a, x, t, salt, bits);
    SaltedParts(pre + cleared + post, pre, a, x, t, post, salt);
  }

  /** The mask in the block becomes the masked data block. */
  method CombineBlock(block: array<byte>, off: nat, n: nat, salt: array<byte>, saltLen: nat, bits: nat)
    requires off + n <= block.Length && saltLen < n && saltLen <= salt.Length && bits > 0 && block != salt
    modifies block
    ensures block[..] == Splice(old(block[..]), off,
              ClearTop(XorBytes(DataBlock(n, salt[..saltLen]), old(block[off..off + n])), bits - 1))
  {
    hide Xor, XorBytes, DataBlock, Splice, ClearTop, Cleared, Salted;
    ghost var before := block[..];
    ghost var mask := before[off..off + n];
    assert mask == block[off..off + n] && before[..off] == block[..off] && before[off + n..] == block[off + n..];
    SaltedMask(before[..off], mask, before[off + n..], salt[..saltLen], bits);
    SpliceIs(before, off, ClearTop(XorBytes(DataBlock(n, salt[..saltLen]), mask), bits - 1));
    ClearHigh(block, off, n, bits);
    XorSalt(block, off + n - saltLen - 1, salt, saltLen);
  }

  lemma ClearedFirst(b: Bytes, off: nat, n: nat, emBits: nat)
    requires off + n <= |b| && n > 0
    ensures b[off := And(b[off], TopMask(emBits))] == b[..off] + ClearTop(b[off..off + n], emBits) + b[off + n..]
  {
    hide And, TopMask;
  }

  lemma Parts(l: Bytes, pre: Bytes, a: Bytes, x: byte, t: Bytes, post: Bytes, y: Bytes)
    requires |y| == 1 + |t| && l == pre + (a + [x] + t) + post
    ensures var m := |pre| + |a|;
      l[m] == x && l[m + 1..m + 1 + |t|] == t && Splice(l, m, y) == pre + (a + y) + post
  {
    var m := |pre| + |a|;
    assert l[..m] == pre + a;
    assert l[m + 1 + |t|..] == post;
  }

  lemma CombinedParts(mask: Bytes, a: Bytes, x: byte, t: Bytes, salt: Bytes, bits: nat)
    requires |salt| == |t| && |mask| > 0 && bits > 0 && Cleared(mask, bits) == a + [x] + t
    ensures a + ([Xor(x, 1)] + XorBytes(t, salt)) == ClearTop(XorBytes(DataBlock(|mask|, salt), mask), bits - 1)
  {
    hide Xor, And, TopMask, DataBlock, ClearTop, XorBytes;
    var cleared := a + [x] + t;
    var out := a + ([Xor(x, 1)] + XorBytes(t, salt));
    assert cleared[|a| + 1..] == t && out[|a| + 1..] == XorBytes(t, salt);
    CombinedIsMasked(mask, salt, bits - 1, cleared, out);
  }

  lemma SplicedBack(a: Bytes, b: Bytes, off: nat, data: Bytes)
    requires |a| == |b| && off + |data| <= |b| && b[off..off + |data|] == data
    requires forall i :: 0 <= i < |a| && !(off <= i < off + |data|) ==> a[i] == b[i]
    ensures b == Splice(a, off, data)
  {
    assert b == b[..off] + b[off..off + |data|] + b[off + |data|..];
  }

  method WriteMessage(block: array<byte>, off: nat, input: Bytes, salt: Bytes)
    requires off + PAD_SZ + |input| + |salt| <= block.Length
    modifies block
    ensures block[..] == Splice(old(block[..]), off, Zeros(PAD_SZ) + input + salt)
  {
    hide Splice;
    ghost var before := block[..];
    CopyInto(block, off, Zeros(PAD_SZ));
    CopyInto(block, off + PAD_SZ, input);
    SpliceSplice(before, off, Zeros(PAD_SZ), input);
    CopyInto(block, off + PAD_SZ + |input|, salt);
    SpliceSplice(before, off, Zeros(PAD_SZ) + input, salt);
  }

  function Max(a: int, b: int): (r: int) { if a >= b then a else b }

  lemma TwoWrites(before: Bytes, off: nat, m: Bytes, p: nat, x: Bytes)
    requires off <= p && off + |m| <= |before| && p + |x| <= |before|
    ensures var r := Splice(Splice(before, off, m), p, x);
      r[..off] == before[..off] && r[Max(p + |x|, off + |m|)..] == before[Max(p + |x|, off + |m|)..]
  {
    var l1 := Splice(before, off, m);
    var end := Max(p + |x|, off + |m|);
    SpliceFrame(l1, p, x, end, |before|);
    SpliceFrame(before, off, m, end, |before|);
    SpliceFrame(l1, p, x, 0, off);
    SpliceFrame(before, off, m, 0, off);
  }

  /** The digest and the salt are hashed from the front of the block itself; the hash and the trailer go to its end. */
  method HashBlock(c: Suite, alg: u16, input: Bytes, salt: Bytes, block: array<byte>, off: nat, maskLen: nat)
    requires DigestSize(alg) > 0 && off + maskLen + DigestSize(alg) + 1 <= block.Length
    requires off + PAD_SZ + |input| + |salt| <= block.Length
    modifies block
    ensures block[off + maskLen..off + maskLen + DigestSize(alg)] == SaltedHash(c, alg, input, salt)
    ensures block[off + maskLen..off + maskLen + DigestSize(alg) + 1] == SaltedHash(c, alg, input, salt) + [PAD_TERM]
    ensures block[..off] == old(block[..off])
    ensures var end := Max(off + maskLen + DigestSize(alg) + 1, off + PAD_SZ + |input| + |salt|);
      block[end..] == old(block[end..])
  {
    hide Splice, DigestSize;
    ghost var before := block[..];
    ghost var m := Zeros(PAD_SZ) + input + salt;
    var hLen := DigestSize(alg);
    WriteMessage(block, off, input, salt);
    var h := c.hash(alg, block[off..off + PAD_SZ + |input| + |salt|]);
    CopyInto(block, off + maskLen, h + [PAD_TERM]);
    SliceSlice(block[..], off + maskLen, off + maskLen + hLen + 1, 0, hLen);
    assert (h + [PAD_TERM])[0..hLen] == h;
    TwoWrites(before, off, m, off + maskLen, h + [PAD_TERM]);
    assert block[..off] == block[..][..off] && before[..off] == block[..off];
  }

  predicate Supported(alg: u16) { alg == ALG_SHA256 || alg == ALG_SHA384 || alg == ALG_SHA512 }

  /** The default salt is as long as the digest, but for SHA-512 under a 1024-bit key. */
  function SaltLen(alg: u16, asked: int, bits: nat): (r: int) {
    if asked != SALT_LEN_DEFAULT then asked
    else if bits == 1024 && DigestSize(alg) == 64 then SALT_MAX_SZ
    else DigestSize(alg)
  }

  /** The ways padding fails before a salt is drawn. */
  function PadError(alg: u16, inputLen: nat, asked: int, bits: nat): (r: Option<int>)
    requires bits > 0
  {
    if !Supported(alg) then Some(NOT_COMPILED_IN)
    else if inputLen != DigestSize(alg) then Some(BAD_FUNC_ARG)
    else if EmLen(bits - 1) - DigestSize(alg) < SaltLen(alg, asked, bits) + 2 then Some(PSS_SALTLEN_E)
    else None
  }

  /** The default salt fits every key of 1024 bits and more, but for SHA-512 under the keys just above 1024 bits, where
      the exception made for 1024 bits no longer holds and the encoding is still too short. */
  lemma DefaultSaltFits(alg: u16, bits: nat)
    requires Supported(alg) && bits >= 1024
    ensures PadError(alg, DigestSize(alg), SALT_LEN_DEFAULT, bits) == None
            <==> alg != ALG_SHA512 || bits == 1024 || bits >= 1034
  {
  }

  /** The salt as the generator gives it; it is not asked for an empty one. */
  function Drawn(rng: SaltSource, n: nat): (r: RngReply)
    ensures r.Answers(n)
  {
    if n == 0 then Nonce([]) else rng(n)
  }

  method DrawSalt(rng: SaltSource, n: nat) returns (reply: RngReply)
    ensures reply == Drawn(rng, n)
  {
    reply := Nonce([]);
    if n > 0 { reply := rng(n); }
  }

  /** The encoding behind the octet, if any, that the modulus is longer than the encoding. */
  function Padded(c: Suite, alg: u16, input: Bytes, salt: Bytes, bits: nat): (r: Bytes)
    requires bits > 0 && DigestSize(alg) > 0 && EmLen(bits - 1) >= DigestSize(alg) + |salt| + 2
    ensures |r| == (bits + 7) / 8
  {
    (if (bits - 1) % 8 == 0 then [0] else []) + Encode(c, alg, input, salt, bits - 1)
  }

  function MaskedBlock(c: Suite, alg: u16, h: Bytes, n: nat, salt: Bytes, emBits: nat): (r: Bytes)
    requires DigestSize(alg) > 0 && |salt| < n
    ensures |r| == n
  {
    ClearTop(XorBytes(DataBlock(n, salt), Mgf1(c, alg, h, n)), emBits)
  }

  method MaskFront(c: Suite, alg: u16, h: Bytes, block: array<byte>, off: nat, n: nat, salt: Bytes,
      bits: nat) returns (rc: int)
    requires DigestSize(alg) > 0 && bits > 0 && |salt| < n < 0x1_0000_0000 && |salt| <= MAX_DIGEST && |h| <= MAX_DIGEST
    requires off + n <= block.Length
    modifies block
    ensures rc == RC_SUCCESS && block[..] == Splice(old(block[..]), off, MaskedBlock(c, alg, h, n, salt, bits - 1))
  {
    hide Splice, DigestSize, DataBlock, ClearTop, XorBytes, Mgf1;
    ghost var before := block[..];
    rc := RsaMGF1(c, alg, h, block, off, n);
    ghost var mask := Mgf1(c, alg, h, n);
    assert block[off..off + n] == mask;
    var saltBuf := new byte[MAX_DIGEST](_ => 0);
    CopyInto(saltBuf, 0, salt);
    assert saltBuf[..|salt|] == salt;
    CombineBlock(block, off, n, saltBuf, |salt|, bits);
    SpliceOver(before, off, mask, MaskedBlock(c, alg, h, n, salt, bits - 1));
  }

  method EncodeBlock(c: Suite, alg: u16, input: Bytes, block: array<byte>, off: nat, salt: Bytes,
      bits: nat) returns (rc: int)
    requires DigestSize(alg) > 0 && bits > 0 && EmLen(bits - 1) >= DigestSize(alg) + |salt| + 2 && |salt| <= MAX_DIGEST
    requires EmLen(bits - 1) < 0x1_0000_0000
    requires off + EmLen(bits - 1) <= block.Length && off + PAD_SZ + |input| + |salt| <= block.Length
    modifies block
    ensures rc == RC_SUCCESS
    ensures block[off..off + EmLen(bits - 1)] == Encode(c, alg, input, salt, bits - 1)
    ensures block[..off] == old(block[..off])
    ensures var end := Max(off + EmLen(bits - 1), off + PAD_SZ + |input| + |salt|); block[end..] == old(block[end..])
  {
    hide Splice, DigestSize, EmLen, MaskedBlock, SaltedHash, Encode;
    var emLen, hLen := EmLen(bits - 1), DigestSize(alg);
    var maskLen := emLen - 1 - hLen;
    HashBlock(c, alg, input, salt, block, off, maskLen);
    ghost var h := SaltedHash(c, alg, input, salt);
    var seed := block[off + maskLen..off + maskLen + hLen];
    ghost var l1 := block[..];
    rc := MaskFront(c, alg, seed, block, off, maskLen, salt, bits);
    EncodeIs(c, alg, input, salt, bits - 1);
    FrontReplaced(l1, off, MaskedBlock(c, alg, h, maskLen, salt, bits - 1), h + [PAD_TERM],
                  Max(off + emLen, off + PAD_SZ + |input| + |salt|));
  }

  lemma EncodeIs(c: Suite, alg: u16, mHash: Bytes, salt: Bytes, emBits: nat)
    requires DigestSize(alg) > 0 && EmLen(emBits) >= DigestSize(alg) + |salt| + 2
    ensures var h := SaltedHash(c, alg, mHash, salt);
      var n := EmLen(emBits) - DigestSize(alg) - 1;
      Encode(c, alg, mHash, salt, emBits) == MaskedBlock(c, alg, h, n, salt, emBits) + (h + [PAD_TERM])
  {
    hide ClearTop, XorBytes, DataBlock, Mgf1, SaltedHash, DigestSize, EmLen;
  }

  /** Overwriting the front of a block leaves the rest of it alone. */
  lemma FrontReplaced(l1: Bytes, off: nat, y: Bytes, tail: Bytes, end: nat)
    requires off + |y| + |tail| <= end <= |l1| && l1[off + |y|..off + |y| + |tail|] == tail
    ensures var l2 := Splice(l1, off, y);
      l2[off..off + |y| + |tail|] == y + tail && l2[..off] == l1[..off] && l2[end..] == l1[end..]
  {
    var l2 := Splice(l1, off, y);
    SpliceFrame(l1, off, y, off + |y|, off + |y| + |tail|);
    SpliceFrame(l1, off, y, end, |l1|);
    SpliceFrame(l1, off, y, 0, off);
    assert l2[off..off + |y| + |tail|] == l2[off..off + |y|] + l2[off + |y|..off + |y| + |tail|];
  }

  /** The block is the PSS encoding of the digest for a key of the given number of bits. The message is assembled in
      the block before it is hashed, so the buffer has room for 8 octets, digest and salt even where the encoding is
      shorter. */
  method RsaPadPss(c: Suite, alg: u16, input: Bytes, block: array<byte>, blockLen: nat, rng: SaltSource,
      saltLen: int, bits: nat)
    returns (rc: int)
    requires 0 < bits < 0x8000_0000 && blockLen == (bits + 7) / 8 <= block.Length
    requires SALT_LEN_DEFAULT <= saltLen <= MAX_DIGEST
    requires 1 + PAD_SZ + |input| + SaltLen(alg, saltLen, bits) <= block.Length
    modifies block
    ensures PadError(alg, |input|, saltLen, bits).Some? ==> rc == PadError(alg, |input|, saltLen, bits).value
    ensures PadError(alg, |input|, saltLen, bits) == None ==>
      match Drawn(rng, SaltLen(alg, saltLen, bits))
      case RngError(e, _) => rc == e
      case Nonce(salt) =>
        && rc == RC_SUCCESS && block[..blockLen] == Padded(c, alg, input, salt, bits)
        && block[blockLen - 1] == 0xBC
        && block[blockLen - 1 - DigestSize(alg)..blockLen - 1] == c.hash(alg, Zeros(8) + input + salt)
    ensures var end := Max(blockLen, 1 + PAD_SZ + |input| + SaltLen(alg, saltLen, bits));
      block[end..] == old(block[end..])
  {
    hide Splice, Encode, DigestSize, Padded, EmLen;
    BlockLength(bits);
    if !Supported(alg) { return NOT_COMPILED_IN; }
    var hLen := DigestSize(alg);
    if |input| != hLen { return BAD_FUNC_ARG; }
    ghost var before := block[..];
    var off := SetLead(block, bits);
    ghost var end := Max(blockLen, 1 + PAD_SZ + |input| + SaltLen(alg, saltLen, bits));
    SameTail(before, block[..], 1, end);
    var emLen := blockLen - off;
    var n := saltLen;
    if n == SALT_LEN_DEFAULT {
      n := hLen;
      if bits == 1024 && hLen == 64 { n := SALT_MAX_SZ; }
    }
    if emLen - hLen < n + 2 { return PSS_SALTLEN_E; }
    var reply := DrawSalt(rng, n);
    if reply.RngError? { return reply.rc; }
    PadBlock(c, alg, input, block, off, reply.bytes, bits);
    PaddedEnd(c, alg, input, reply.bytes, bits);
    SliceSlice(block[..], 0, blockLen, blockLen - 1 - hLen, blockLen - 1);
    assert block[blockLen - 1] == block[..blockLen][blockLen - 1];
    rc := RC_SUCCESS;
  }

  /** The block ends with the hash over eight zero octets, digest and salt, and the trailer. */
  lemma PaddedEnd(c: Suite, alg: u16, input: Bytes, salt: Bytes, bits: nat)
    requires bits > 0 && DigestSize(alg) > 0 && EmLen(bits - 1) >= DigestSize(alg) + |salt| + 2
    ensures var p := Padded(c, alg, input, salt, bits);
      p[|p| - 1] == 0xBC && p[|p| - 1 - DigestSize(alg)..|p| - 1] == c.hash(alg, Zeros(8) + input + salt)
  {
    hide Mgf1, DigestSize, EmLen, ClearTop, XorBytes, DataBlock;
  }

  lemma BlockLength(bits: nat)
    requires bits > 0
    ensures (bits + 7) / 8 == EmLen(bits - 1) + if (bits - 1) % 8 == 0 then 1 else 0
  {
  }

  method SetLead(block: array<byte>, bits: nat) returns (off: nat)
    requires bits > 0 && block.Length > 0
    modifies block
    ensures off == if (bits - 1) % 8 == 0 then 1 else 0
    ensures block[..off] == (if off == 1 then [0] else []) && block[1..] == old(block[1..])
  {
    off := 0;
    if (bits - 1) % 8 == 0 {
      block[0] := 0;
      off := 1;
    }
  }

  lemma SameTail(a: Bytes, b: Bytes, lo: nat, hi: nat)
    requires lo <= hi <= |a| == |b| && a[lo..] == b[lo..]
    ensures a[hi..] == b[hi..]
  {
    assert a[hi..] == a[lo..][hi - lo..] && b[hi..] == b[lo..][hi - lo..];
  }

  lemma TwoSlices(b: Bytes, p: nat, q: nat)
    requires p <= q <= |b|
    ensures b[..q] == b[..p] + b[p..q]
  {
  }

  method PadBlock(c: Suite, alg: u16, input: Bytes, block: array<byte>, off: nat, salt: Bytes, bits: nat)
    requires Supported(alg) && 0 < bits < 0x8000_0000 && EmLen(bits - 1) >= DigestSize(alg) + |salt| + 2
    requires |salt| <= MAX_DIGEST
    requires off == (if (bits - 1) % 8 == 0 then 1 else 0) && off <= block.Length
    requires block[..off] == (if off == 1 then [0] else [])
    requires (bits + 7) / 8 <= block.Length && 1 + PAD_SZ + |input| + |salt| <= block.Length
    modifies block
    ensures block[..(bits + 7) / 8] == Padded(c, alg, input, salt, bits)
    ensures var end := Max((bits + 7) / 8, 1 + PAD_SZ + |input| + |salt|); block[end..] == old(block[end..])
  {
    hide Splice, Encode, DigestSize, EmLen;
    BlockLength(bits);
    EmLenSmall(bits);
    var emLen := EmLen(bits - 1);
    ghost var l1 := block[..];
    assert l1[..off] == block[..off];
    var _ := EncodeBlock(c, alg, input, block, off, salt, bits);
    ghost var end := Max(off + emLen, 1 + PAD_SZ + |input| + |salt|);
    ghost var e := Max(off + emLen, off + PAD_SZ + |input| + |salt|);
    SameTail(l1, block[..], e, end);
    TwoSlices(block[..], off, off + emLen);
  }

  lemma EmLenSmall(bits: nat)
    requires 0 < bits < 0x8000_0000
    ensures EmLen(bits - 1) < 0x1_0000_0000
  {
  }

  /** The padded block is accepted by the verification operation, whether or not the encoding fills the modulus. */
  lemma PaddedVerifies(c: Suite, alg: u16, input: Bytes, salt: Bytes, bits: nat)
    requires bits > 0 && DigestSize(alg) > 0 && EmLen(bits - 1) >= DigestSize(alg) + |salt| + 2
    ensures var p := Padded(c, alg, input, salt, bits);
      var lead := if (bits - 1) % 8 == 0 then 1 else 0;
      && (lead == 1 ==> p[0] == 0) && Verify(c, alg, input, p[lead..], bits - 1, |salt|)
  {
    hide Encode, Verify, DigestSize;
    EncodeVerifies(c, alg, input, salt, bits - 1);
    var p := Padded(c, alg, input, salt, bits);
    var lead := if (bits - 1) % 8 == 0 then 1 else 0;
    assert p[lead..] == Encode(c, alg, input, salt, bits - 1);
  }
}
