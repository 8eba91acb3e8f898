/** Key derivation, parameter encryption and the authorisation digests (tpm2_param_enc.c). */
module ParamEnc {
  import opened Octets
  import opened Tpm
  import opened PublicArea
  import opened Sessions

  // ---- KDFa: the counter-mode construction of section 5.1 of NIST SP 800-108 ----

  datatype KdfInput = KdfInput(alg: u16, key: Bytes, lbl: Option<Bytes>, contextU: Bytes, contextV: Bytes, bits: u32) {
    /** What follows the counter: a label is closed by a zero byte. */
    function Fixed(): (r: Bytes) {
      (if lbl.Some? then lbl.value + [0] else []) + contextU + contextV + U32(bits)
    }
  }

  function KdfBlock(c: Suite, k: KdfInput, i: nat): (r: Bytes)
    ensures |r| == DigestSize(k.alg)
  {
    c.hmac(k.alg, k.key, BE(4, i) + k.Fixed())
  }

  /** Blocks 1 to n of the key stream. */
  function KdfStream(c: Suite, k: KdfInput, n: nat): (r: Bytes)
    ensures DigestSize(k.alg) > 0 ==> |r| >= n
  {
    if n == 0 then [] else KdfStream(c, k, n - 1) + KdfBlock(c, k, n)
  }

  /** The first size bytes of the key stream. */
  function Kdf(c: Suite, k: KdfInput, size: nat): (r: Bytes)
    requires DigestSize(k.alg) > 0
    ensures |r| == size
  {
    KdfStream(c, k, size)[..size]
  }

  lemma {:induction false} StreamPrefix(c: Suite, k: KdfInput, m: nat, n: nat)
    requires m <= n
    ensures KdfStream(c, k, m) <= KdfStream(c, k, n)
    decreases n
  {
    if m < n { StreamPrefix(c, k, m, n - 1); }
  }

  /** However many blocks were produced, the bytes asked for are the same. */
  lemma StreamSettled(c: Suite, k: KdfInput, n: nat, size: nat)
    requires DigestSize(k.alg) > 0 && size <= |KdfStream(c, k, n)|
    ensures KdfStream(c, k, n)[..size] == Kdf(c, k, size)
  {
    if n <= size { StreamPrefix(c, k, n, size); } else { StreamPrefix(c, k, size, n); }
  }

  /** Octet j of the stream lies in block j / h + 1, at j % h, where h is the digest size. */
  lemma {:induction false} StreamOctet(c: Suite, k: KdfInput, n: nat, j: nat)
    requires DigestSize(k.alg) > 0
    ensures |KdfStream(c, k, n)| == n * DigestSize(k.alg)
    ensures j < n * DigestSize(k.alg) ==>
      KdfStream(c, k, n)[j] == KdfBlock(c, k, j / DigestSize(k.alg) + 1)[j % DigestSize(k.alg)]
  {
    hide KdfBlock, DigestSize;
    var h := DigestSize(k.alg);
    if n > 0 {
      StreamOctet(c, k, n - 1, j);
      assert n * h == (n - 1) * h + h;
      if (n - 1) * h <= j < n * h {
        Quotient(j, h, n - 1);
        assert KdfStream(c, k, n)[j] == KdfBlock(c, k, n)[j - (n - 1) * h];
      }
    }
  }

  lemma Quotient(j: nat, h: nat, q: nat)
    requires h > 0 && q * h <= j < q * h + h
    ensures j / h == q && j % h == j - q * h
  {
    DivisionIs(j, h, q, j - q * h);
  }

  /** The key as the standard writes it: octet j comes from the HMAC over counter, label with its zero octet, both
      contexts and the number of bits. */
  lemma KdfOctet(c: Suite, k: KdfInput, size: nat, j: nat)
    requires DigestSize(k.alg) > 0 && j < size
    ensures Kdf(c, k, size)[j] ==
      c.hmac(k.alg, k.key, BE(4, j / DigestSize(k.alg) + 1) + (if k.lbl.Some? then k.lbl.value + [0] else [])
                           + k.contextU + k.contextV + BE(4, k.bits))[j % DigestSize(k.alg)]
  {
    hide BE;
    var h := DigestSize(k.alg);
    StreamOctet(c, k, size, j);
    var m := BE(4, j / h + 1);
    var l := if k.lbl.Some? then k.lbl.value + [0] else [];
    assert m + k.Fixed() == m + l + k.contextU + k.contextV + BE(4, k.bits);
  }

  /** One HMAC over counter, label, contexts and size, fed piece by piece. */
  method KdfRound(c: Suite, k: KdfInput, counter: nat) returns (hash: Bytes)
    requires counter < 0x1_0000_0000
    ensures hash == KdfBlock(c, k, counter)
  {
    hide U32;
    var msg := U32(counter);
    if k.lbl.Some? { msg := msg + k.lbl.value + [0]; }
    if |k.contextU| > 0 { msg := msg + k.contextU; }
    if |k.contextV| > 0 { msg := msg + k.contextV; }
    msg := msg + U32(k.bits);
    assert msg == U32(counter) + k.Fixed();
    assert U32(counter) == BE(4, counter) by { CounterOctets(counter); }
    hash := c.hmac(k.alg, k.key, msg);
  }

  lemma CounterOctets(v: u32)
    ensures U32(v) == BE(4, v)
  {
  }

  /** An absent key or context is an empty one. */
  method KDFa(c: Suite, alg: u16, keyIn: Bytes, labelIn: Option<Bytes>, contextU: Bytes, contextV: Bytes,
              key: array<byte>, keySz: nat) returns (rc: int)
    requires keySz <= key.Length && keySz < 0x2000_0000
    modifies key
    ensures DigestSize(alg) == 0 ==> rc == NOT_COMPILED_IN && key[..] == old(key[..])
    ensures DigestSize(alg) > 0 ==> rc == keySz && key[keySz..] == old(key[keySz..])
    ensures DigestSize(alg) > 0 ==> forall j :: 0 <= j < keySz ==>
      key[j] == c.hmac(alg, keyIn, BE(4, j / DigestSize(alg) + 1)
                                   + (if labelIn.Some? then labelIn.value + [0] else [])
                                   + contextU + contextV + BE(4, 8 * keySz))[j % DigestSize(alg)]
    ensures DigestSize(alg) > 0 ==>
      key[..] == Splice(old(key[..]), 0, Kdf(c, KdfInput(alg, keyIn, labelIn, contextU, contextV, 8 * keySz), keySz))
  {
    hide U32, KdfBlock, Splice;
    var hLen := DigestSize(alg);
    if hLen == 0 { return NOT_COMPILED_IN; }
    var k := KdfInput(alg, keyIn, labelIn, contextU, contextV, 8 * keySz);
    ghost var before := key[..];
    var counter, pos := 0, 0;
    SpliceSelf(before, 0, 0);
    while pos < keySz
      invariant pos == |KdfStream(c, k, counter)| && counter <= pos
      invariant key[..] == Splice(before, 0, KdfStream(c, k, counter)[..Min(pos, keySz)])
    {
      ghost var made := KdfStream(c, k, counter);
      assert made[..pos] == made;
      counter := counter + 1;
      var copyLen := hLen;
      var hash := KdfRound(c, k, counter);
      if hLen > keySz - pos { copyLen := keySz - pos; }
      assert (made + hash)[..Min(pos + hLen, keySz)] == made + hash[..copyLen];
      CopyInto(key, pos, hash[..copyLen]);
      SpliceSplice(before, 0, made, hash[..copyLen]);
      pos := pos + hLen;
    }
    StreamSettled(c, k, counter, keySz);
    KeyWritten(c, k, before, key[..], keySz);
    return keySz;
  }

  lemma KeyWritten(c: Suite, k: KdfInput, before: Bytes, after: Bytes, keySz: nat)
    requires DigestSize(k.alg) > 0 && keySz <= |before|
    requires after == Splice(before, 0, Kdf(c, k, keySz))
    ensures after[keySz..] == before[keySz..]
    ensures forall j :: 0 <= j < keySz ==>
      after[j] == c.hmac(k.alg, k.key, BE(4, j / DigestSize(k.alg) + 1)
                                       + (if k.lbl.Some? then k.lbl.value + [0] else [])
                                       + k.contextU + k.contextV + BE(4, k.bits))[j % DigestSize(k.alg)]
  {
    hide Kdf, BE, DigestSize;
    forall j | 0 <= j < keySz
      ensures after[j] == c.hmac(k.alg, k.key, BE(4, j / DigestSize(k.alg) + 1)
                                               + (if k.lbl.Some? then k.lbl.value + [0] else [])
                                               + k.contextU + k.contextV + BE(4, k.bits))[j % DigestSize(k.alg)]
    {
      KdfOctet(c, k, keySz, j);
      assert after[j] == after[0..keySz][j];
    }
  }

  /** XMEMCPY. */
  method CopyInto(a: array<byte>, off: nat, data: Bytes)
    requires off + |data| <= a.Length
    modifies a
    ensures a[..] == Splice(old(a[..]), off, data)
  {
    forall i | 0 <= i < |data| { a[off + i] := data[i]; }
  }

  // ---- encryption of one parameter ----

  datatype Cipher = Cipher(sym: SymDef, alg: u16, sessKey: Bytes, bind: Option<Bytes>) {
    function Key(): (r: Bytes) { sessKey + if bind.Some? then bind.value else [] }

    function AesKeySize(): (r: nat) { sym.keyBits / 8 }

    predicate KeysTooBig() {
      |sessKey| > MAX_DIGEST || (bind.Some? && |bind.value| > MAX_DIGEST) || |Key()| > MAX_DATA
    }

    /** The ways a call fails, in the order the source tests them. */
    function Error(n: nat): (r: Option<int>) {
      if sym.algorithm == ALG_XOR then
        if n > MAX_MASK || KeysTooBig() then Some(BUFFER_E)
        else if DigestSize(alg) == 0 then Some(RC_FAILURE)
        else None
      else if sym.algorithm == ALG_AES && sym.mode == ALG_CFB then
        if AesKeySize() > 32 || KeysTooBig() then Some(BUFFER_E)
        else if DigestSize(alg) == 0 then Some(RC_FAILURE)
        else if AesKeySize() !in {16, 24, 32} then Some(BAD_FUNC_ARG)
        else None
      else Some(RC_FAILURE)
    }

    function KdfFor(name: Bytes, newer: Bytes, older: Bytes, n: u16): (r: KdfInput) {
      KdfInput(alg, Key(), Some(name), newer, older, 8 * n)
    }
  }

  const XOR_LABEL: Bytes := [0x58, 0x4F, 0x52]
  const CFB_LABEL: Bytes := [0x43, 0x46, 0x42]

  /** TPM 2.0 Part 1, session-based encryption: the key stream or key comes from the newer nonce, then the older one. */
  function Mask(c: Suite, x: Cipher, newer: Bytes, older: Bytes, n: nat): (r: Bytes)
    requires DigestSize(x.alg) > 0 && n <= MAX_MASK
    ensures |r| == n
  {
    Kdf(c, x.KdfFor(XOR_LABEL, newer, older, n), n)
  }

  function AesKeyIv(c: Suite, x: Cipher, newer: Bytes, older: Bytes): (r: Bytes)
    requires DigestSize(x.alg) > 0
    ensures |r| == x.AesKeySize() + 16
  {
    var n := x.AesKeySize() + 16;
    Kdf(c, x.KdfFor(CFB_LABEL, newer, older, n), n)
  }

  function Encrypt(c: Suite, x: Cipher, newer: Bytes, older: Bytes, data: Bytes): (r: Bytes)
    requires x.Error(|data|) == None
    ensures |r| == |data|
  {
    if x.sym.algorithm == ALG_XOR then XorBytes(data, Mask(c, x, newer, older, |data|))
    else
      var k := AesKeyIv(c, x, newer, older);
      c.cfb.Enc(k[..x.AesKeySize()], k[x.AesKeySize()..], data)
  }

  function Decrypt(c: Suite, x: Cipher, newer: Bytes, older: Bytes, data: Bytes): (r: Bytes)
    requires x.Error(|data|) == None
    ensures |r| == |data|
  {
    if x.sym.algorithm == ALG_XOR then XorBytes(data, Mask(c, x, newer, older, |data|))
    else
      var k := AesKeyIv(c, x, newer, older);
      c.cfb.Dec(k[..x.AesKeySize()], k[x.AesKeySize()..], data)
  }

  /** Whoever holds the same key and the same two nonces in the same order of age undoes the encryption. */
  lemma DecryptEncrypt(c: Suite, x: Cipher, newer: Bytes, older: Bytes, data: Bytes)
    requires x.Error(|data|) == None
    ensures Decrypt(c, x, newer, older, Encrypt(c, x, newer, older, data)) == data
  {
    hide Mask, AesKeyIv;
    if x.sym.algorithm == ALG_XOR {
      XorBytesCancels(data, Mask(c, x, newer, older, |data|));
    }
  }

  method XorInto(a: array<byte>, off: nat, mask: array<byte>, n: nat)
    requires off + n <= a.Length && n <= mask.Length && a != mask
    modifies a
    ensures a[..] == Splice(old(a[..]), off, XorBytes(old(a[off..off + n]), mask[..n]))
  {
    ghost var before := a[..];
    var i := 0;
    while i < n
      invariant 0 <= i <= n
      invariant forall j :: 0 <= j < i ==> a[off + j] == Xor(before[off + j], mask[j])
      invariant forall j :: 0 <= j < a.Length && !(off <= j < off + i) ==> a[j] == before[j]
    {
      a[off + i] := Xor(a[off + i], mask[i]);
      i := i + 1;
    }
    ghost var want := XorBytes(before[off..off + n], mask[..n]);
    forall j | 0 <= j < a.Length ensures a[j] == Splice(before, off, want)[j] {
      if off <= j < off + n { assert Splice(before, off, want)[off..off + n][j - off] == want[j - off]; }
    }
  }

  /** TPM2_ParamEnc_XOR with (nonceCaller, nonceTPM) and TPM2_ParamDec_XOR with (nonceTPM, nonceCaller) are this one
      loop. */
  method ParamXor(c: Suite, x: Cipher, contextU: Bytes, contextV: Bytes, a: array<byte>, off: nat,
      n: nat) returns (rc: int)
    requires x.sym.algorithm == ALG_XOR && off + n <= a.Length
    modifies a
    ensures x.Error(n).Some? ==> rc == x.Error(n).value && a[..] == old(a[..])
    ensures x.Error(n) == None ==>
      rc == RC_SUCCESS && a[..] == Splice(old(a[..]), off, Encrypt(c, x, contextU, contextV, old(a[off..off + n])))
  {
    hide KdfStream, Kdf, Splice;
    if n > MAX_MASK { return BUFFER_E; }
    if |x.sessKey| > MAX_DIGEST { return BUFFER_E; }
    if x.bind.Some? && |x.bind.value| > MAX_DIGEST { return BUFFER_E; }
    var keyIn := x.Key();
    if |keyIn| > MAX_DATA { return BUFFER_E; }
    var mask := new byte[MAX_MASK](_ => 0);
    rc := KDFa(c, x.alg, keyIn, Some(XOR_LABEL), contextU, contextV, mask, n);
    if rc != n {
      rc := RC_FAILURE;
    } else {
      FirstOfSplice(Zeros(MAX_MASK), Mask(c, x, contextU, contextV, n));
      assert mask[..n] == mask[..][..n];
      XorInto(a, off, mask, n);
      rc := RC_SUCCESS;
    }
  }

  lemma FirstOfSplice(buf: Bytes, data: Bytes)
    requires |data| <= |buf|
    ensures Splice(buf, 0, data)[..|data|] == data
  {
  }

  /** TPM2_ParamEnc_AESCFB and TPM2_ParamDec_AESCFB; wc_AesSetKey refuses a key that is not 16, 24 or 32 bytes. */
  method ParamAesCfb(c: Suite, x: Cipher, encrypting: bool, contextU: Bytes, contextV: Bytes, a: array<byte>,
      off: nat, n: nat)
    returns (rc: int)
    requires x.sym.algorithm == ALG_AES && x.sym.mode == ALG_CFB && off + n <= a.Length
    modifies a
    ensures x.Error(n).Some? ==> rc == x.Error(n).value && a[..] == old(a[..])
    ensures x.Error(n) == None && encrypting ==>
      rc == RC_SUCCESS && a[..] == Splice(old(a[..]), off, Encrypt(c, x, contextU, contextV, old(a[off..off + n])))
    ensures x.Error(n) == None && !encrypting ==>
      rc == RC_SUCCESS && a[..] == Splice(old(a[..]), off, Decrypt(c, x, contextU, contextV, old(a[off..off + n])))
  {
    hide KdfStream, Kdf, Splice;
    var symKeySz := x.AesKeySize();
    if symKeySz > 32 { return BUFFER_E; }
    if |x.sessKey| > MAX_DIGEST { return BUFFER_E; }
    if x.bind.Some? && |x.bind.value| > MAX_DIGEST { return BUFFER_E; }
    var keyIn := x.Key();
    if |keyIn| > MAX_DATA { return BUFFER_E; }
    var symKey := new byte[48](_ => 0);
    rc := KDFa(c, x.alg, keyIn, Some(CFB_LABEL), contextU, contextV, symKey, symKeySz + 16);
    if rc != symKeySz + 16 { return RC_FAILURE; }
    FirstOfSplice(Zeros(48), AesKeyIv(c, x, contextU, contextV));
    var keyIv := symKey[..symKeySz + 16];
    assert keyIv == symKey[..][..symKeySz + 16] == AesKeyIv(c, x, contextU, contextV);
    if symKeySz !in {16, 24, 32} { return BAD_FUNC_ARG; }
    var data := a[off..off + n];
    if encrypting {
      data := c.cfb.Enc(keyIv[..symKeySz], keyIv[symKeySz..], data);
    } else {
      data := c.cfb.Dec(keyIv[..symKeySz], keyIv[symKeySz..], data);
    }
    CopyInto(a, off, data);
    rc := RC_SUCCESS;
  }

  function CipherOf(s: AuthSession): (r: Cipher) { Cipher(s.symmetric, s.authHash, s.auth, s.bind) }

  /** The host's nonce is the newer one in a command. An error leaves the parameter as it was. */
  method ParamEncCmdRequest(c: Suite, s: AuthSession, a: array<byte>, off: nat, n: nat) returns (rc: int)
    requires off + n <= a.Length
    modifies a
    ensures CipherOf(s).Error(n).Some? ==> rc == CipherOf(s).Error(n).value && a[..] == old(a[..])
    ensures CipherOf(s).Error(n) == None ==> rc == RC_SUCCESS
    ensures CipherOf(s).Error(n) == None ==>
      a[..] == Splice(old(a[..]), off, Encrypt(c, CipherOf(s), s.nonceCaller, s.nonceTPM, old(a[off..off + n])))
  {
    hide Encrypt, Splice;
    rc := RC_FAILURE;
    if s.symmetric.algorithm == ALG_XOR {
      rc := ParamXor(c, CipherOf(s), s.nonceCaller, s.nonceTPM, a, off, n);
    } else if s.symmetric.algorithm == ALG_AES && s.symmetric.mode == ALG_CFB {
      rc := ParamAesCfb(c, CipherOf(s), true, s.nonceCaller, s.nonceTPM, a, off, n);
    }
  }

  /** The TPM's nonce is the newer one in a response. An error leaves the parameter as it was. */
  method ParamDecCmdResponse(c: Suite, s: AuthSession, a: array<byte>, off: nat, n: nat) returns (rc: int)
    requires off + n <= a.Length
    modifies a
    ensures CipherOf(s).Error(n).Some? ==> rc == CipherOf(s).Error(n).value && a[..] == old(a[..])
    ensures CipherOf(s).Error(n) == None ==> rc == RC_SUCCESS
    ensures CipherOf(s).Error(n) == None ==>
      a[..] == Splice(old(a[..]), off, Decrypt(c, CipherOf(s), s.nonceTPM, s.nonceCaller, old(a[off..off + n])))
  {
    hide Splice, Mask;
    rc := RC_FAILURE;
    if s.symmetric.algorithm == ALG_XOR {
      rc := ParamXor(c, CipherOf(s), s.nonceTPM, s.nonceCaller, a, off, n);
    } else if s.symmetric.algorithm == ALG_AES && s.symmetric.mode == ALG_CFB {
      rc := ParamAesCfb(c, CipherOf(s), false, s.nonceTPM, s.nonceCaller, a, off, n);
    }
  }

  // ---- cpHash, rpHash and the authorisation HMAC (sections 18.7, 18.8 and 19.6.5 of TPM 2.0 Part 1) ----

  function CpHash(c: Suite, alg: u16, cc: u32, names: Bytes, params: Bytes): (r: Bytes)
    ensures |r| == DigestSize(alg)
  {
    c.hash(alg, U32(cc) + names + params)
  }

  /** What an rpHash is the hash of; a response is only authorised with response code 0. */
  function RpMessage(cc: u32, params: Bytes): (r: Bytes) { U32(0) + U32(cc) + params }

  function RpHash(c: Suite, alg: u16, cc: u32, params: Bytes): (r: Bytes)
    ensures |r| == DigestSize(alg)
  {
    c.hash(alg, RpMessage(cc, params))
  }

  /** What an authorisation HMAC is computed over. */
  function AuthMessage(pHash: Bytes, newer: Bytes, older: Bytes, attrs: byte): (r: Bytes) {
    pHash + newer + older + [attrs]
  }

  function AuthHmac(c: Suite, alg: u16, key: Bytes, pHash: Bytes, newer: Bytes, older: Bytes, attrs: byte): (r: Bytes)
    ensures |r| == DigestSize(alg)
  {
    c.hmac(alg, key, AuthMessage(pHash, newer, older, attrs))
  }

  lemma SplitEqual(a: Bytes, b: Bytes, x: Bytes, y: Bytes)
    requires |a| == |x|
    ensures a + b == x + y <==> a == x && b == y
  {
    if a + b == x + y {
      assert a == (a + b)[..|a|] && b == (a + b)[|a|..];
      assert x == (x + y)[..|x|] && y == (x + y)[|x|..];
    }
  }

  /** Two responses hash the same bytes only if they are to the same command and have the same parameters. */
  lemma RpMessageDetermines(cc: u32, params: Bytes, cc': u32, params': Bytes)
    ensures RpMessage(cc, params) == RpMessage(cc', params') <==> cc == cc' && params == params'
  {
    hide U32;
    SplitEqual(U32(0) + U32(cc), params, U32(0) + U32(cc'), params');
    SplitEqual(U32(0), U32(cc), U32(0), U32(cc'));
    assert U32(cc) == U32(cc') ==> Nat(U32(cc)) == Nat(U32(cc'));
  }

  /** Between two sides whose digests and nonces have the same lengths, two HMACs are over the same bytes only if
      parameter hash, newer nonce, older nonce and attributes all agree: none of them, and not their order, is left
      unauthenticated. */
  lemma AuthMessageDetermines(
    pHash: Bytes, newer: Bytes, older: Bytes, attrs: byte, pHash': Bytes, newer': Bytes, older': Bytes, attrs': byte)
    requires |pHash| == |pHash'| && |newer| == |newer'| && |older| == |older'|
    ensures AuthMessage(pHash, newer, older, attrs) == AuthMessage(pHash', newer', older', attrs') <==>
      pHash == pHash' && newer == newer' && older == older' && attrs == attrs'
  {
    SplitEqual(pHash + newer + older, [attrs], pHash' + newer' + older', [attrs']);
    SplitEqual(pHash + newer, older, pHash' + newer', older');
    SplitEqual(pHash, newer, pHash', newer');
    assert [attrs] == [attrs'] <==> attrs == attrs';
  }

  method CalcCpHash(c: Suite, alg: u16, cc: u32, name1: Bytes, name2: Bytes, name3: Bytes, params: Bytes)
    returns (rc: int, hash: Bytes)
    ensures rc == if DigestSize(alg) == 0 then BAD_FUNC_ARG else RC_SUCCESS
    ensures rc == RC_SUCCESS ==> hash == c.hash(alg, BE(4, cc) + name1 + name2 + name3 + params)
    ensures rc == RC_SUCCESS ==> hash == CpHash(c, alg, cc, name1 + name2 + name3, params)
  {
    hide U32;
    hash := [];
    if DigestSize(alg) == 0 { return BAD_FUNC_ARG, []; }
    var msg := U32(cc);
    if |name1| > 0 { msg := msg + name1; }
    if |name2| > 0 { msg := msg + name2; }
    if |name3| > 0 { msg := msg + name3; }
    msg := msg + params;
    assert msg == U32(cc) + (name1 + name2 + name3) + params;
    assert msg == BE(4, cc) + name1 + name2 + name3 + params by { CounterOctets(cc); }
    return RC_SUCCESS, c.hash(alg, msg);
  }

  /** The pieces are fed to the hash one after another. */
  method CalcRpHash(c: Suite, alg: u16, cc: u32, params: Bytes) returns (rc: int, hash: Bytes)
    ensures rc == if DigestSize(alg) == 0 then BAD_FUNC_ARG else RC_SUCCESS
    ensures rc == RC_SUCCESS ==> hash == c.hash(alg, BE(4, 0) + BE(4, cc) + params)
    ensures rc == RC_SUCCESS ==> hash == RpHash(c, alg, cc, params)
  {
    hide U32;
    hash := [];
    if DigestSize(alg) == 0 { return BAD_FUNC_ARG, []; }
    var ccSwap := U32(0);
    var msg := ccSwap;
    ccSwap := U32(cc);
    msg := msg + ccSwap;
    msg := msg + params;
    assert msg == BE(4, 0) + BE(4, cc) + params by { CounterOctets(0); CounterOctets(cc); }
    return RC_SUCCESS, c.hash(alg, msg);
  }

  /** The pieces are fed to the HMAC one after another. */
  method CalcHmac(c: Suite, alg: u16, auth: Bytes, hash: Bytes, nonceNew: Bytes, nonceOld: Bytes, attrs: byte)
    returns (rc: int, hmac: Bytes)
    ensures rc == if DigestSize(alg) == 0 then BAD_FUNC_ARG else RC_SUCCESS
    ensures rc == RC_SUCCESS ==> hmac == c.hmac(alg, auth, hash + nonceNew + nonceOld + [attrs])
    ensures rc == RC_SUCCESS ==> hmac == AuthHmac(c, alg, auth, hash, nonceNew, nonceOld, attrs)
  {
    hmac := [];
    if DigestSize(alg) == 0 { return BAD_FUNC_ARG, []; }
    var msg := hash;
    msg := msg + nonceNew;
    msg := msg + nonceOld;
    msg := msg + [attrs];
    return RC_SUCCESS, c.hmac(alg, auth, msg);
  }
}
