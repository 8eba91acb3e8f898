/** Exactly which sessions have their response parameter verified before it is decrypted. */
module ResponseGuard {
  import opened Octets
  import opened Tpm
  import opened Packets
  import opened PublicArea
  import opened Structures
  import opened Sessions
  import opened ParamEnc
  import opened Commands
  import opened Responses
  import opened ResponseTheorems
  import opened Exchange
  import opened Peer
  import opened PeerTheorems

  /** The session counts of a command are single bytes. */
  const MAX_HANDLES := 0x100

  /** Did this response change bytes though the HMAC over it differs, or is missing? */
  predicate ChangedUnverified(c: Suite, sess: seq<AuthSession>, st: PState, info: CmdInfo, cc: u32,
      respSz: nat, k: nat) {
    && Readable(st, info, sess) && k < |sess|
    && var l := ReplyOf(st, info, cc, respSz);
    var a := AuthFor(st.buf, st.size, l.paramOff + l.paramSz, respSz, k);
    && !Genuine(c, l, Roll(sess[k], a), a, st.buf[l.paramOff..l.paramOff + l.paramSz])
    && ProcessResponse(c, sess, st, info, cc, respSz).buf != st.buf
  }

  /** For every suite, response and buffer, response bytes change only if the response is genuine. */
  ghost predicate AlwaysVerified(sess: seq<AuthSession>, info: CmdInfo, k: nat) {
    forall c: Suite, st: PState, cc: u32, respSz: nat :: !ChangedUnverified(c, sess, st, info, cc, respSz, k)
  }

  // ---- a suite under which decryption shows ----

  function Flip(d: Bytes): (r: Bytes)
    ensures |r| == |d|
  {
    XorBytes(d, Trues(|d|))
  }

  function Trues(n: nat): (r: Bytes)
    ensures |r| == n && forall i :: 0 <= i < n ==> r[i] == 1
  {
    seq(n, i => 1)
  }

  lemma ZeroFlips()
    ensures Xor(0, 1) == 1
  {
    XorCommutes(0, 1);
    XorCancels(1, 0);
  }

  /** Every HMAC byte is 1, and the block cipher flips the lowest bit of every byte. */
  ghost predicate Flips(c: Suite) {
    && (forall a: u16, key: Bytes, m: Bytes :: c.hmac(a, key, m) == Trues(DigestSize(a)))
    && (forall key: Bytes, iv: Bytes, d: Bytes :: c.cfb.Dec(key, iv, d) == Flip(d))
  }

  lemma FlipSuite() returns (c: Suite)
    ensures Flips(c)
  {
    var f: CfbFn := (k: Bytes, iv: Bytes, d: Bytes) => Flip(d);
    var pair := CfbPair(f, f);
    forall k: Bytes, iv: Bytes, d: Bytes ensures pair.Dec(k, iv, pair.Enc(k, iv, d)) == d {
      XorBytesCancels(d, Trues(|d|));
    }
    c := Suite((a: u16, m: Bytes) => Zeros(DigestSize(a)), (a: u16, k: Bytes, m: Bytes) => Trues(DigestSize(a)), pair);
  }

  /** Under that suite every usable cipher decrypts a zero byte to 1. */
  lemma ZeroDecrypts(c: Suite, s: AuthSession, newer: Bytes, older: Bytes)
    requires Flips(c)
    requires CipherOf(s).Error(1) == None
    ensures Decrypt(c, CipherOf(s), newer, older, [0]) == [1]
  {
    hide U32;
    ZeroFlips();
    var x := CipherOf(s);
    if x.sym.algorithm == ALG_XOR {
      var k := x.KdfFor(XOR_LABEL, newer, older, 1);
      assert KdfStream(c, k, 0) == [];
      assert KdfStream(c, k, 1) == [] + KdfBlock(c, k, 1);
      assert Mask(c, x, newer, older, 1)[0] == 1;
    }
  }

  // ---- a response without HMACs that asks for decryption ----

  function Bare(): (r: AuthResponse)
    ensures r.OnWire() && r.Clamp() == r
  {
    AuthResponse([], SESSION_ENCRYPT, [])
  }

  function Repeated(n: nat): (r: Bytes)
    ensures |r| == 5 * n
  {
    if n == 0 then [] else EncAuthResponse(Bare()) + Repeated(n - 1)
  }

  lemma {:induction false} RepeatedFound(buf: Bytes, size: nat, authPos: nat, n: nat, k: nat)
    requires k < n && PState(buf, authPos, size).At(Repeated(n)) && authPos + 5 * n == size
    ensures AuthFor(buf, size, authPos, size, k) == Bare()
    decreases k
  {
    hide EncAuthResponse, PState.At, GetAuth, Bare;
    var st := PState(buf, authPos, size);
    AtInside(st, Repeated(n));
    AtSplit(st, EncAuthResponse(Bare()), Repeated(n - 1));
    BareSize();
    GetAuthAt(st, Bare());
    assert NextAuth(buf, size, authPos, size) == (Bare(), authPos + 5);
    if k > 0 { RepeatedFound(buf, size, authPos + 5, n - 1, k - 1); }
  }

  lemma BareSize()
    ensures |EncAuthResponse(Bare())| == 5
  {
  }

  /** The buffer holding that response: no handle matters, the first parameter is one zero byte. */
  function BareReply(info: CmdInfo): (r: PState)
    requires info.outHandleCnt < MAX_HANDLES && info.authCnt <= MAX_SESSION_NUM
    ensures r.Valid()
  {
    var hs := seq(info.outHandleCnt, i => 0);
    var b := Respond(hs, BE(info.flags.DecWidth(), 1) + [0] + [], Repeated(info.authCnt));
    BareRead(info, hs);
    Received(Zeros(MAX_RESPONSE), b)
  }

  lemma BareRead(info: CmdInfo, hs: seq<u32>)
    requires |hs| == info.outHandleCnt < MAX_HANDLES && info.authCnt <= MAX_SESSION_NUM
    ensures HEADER_SIZE + |HandleBytes(hs)| + 4 + |BE(info.flags.DecWidth(), 1) + [0] + []| + |Repeated(info.authCnt)|
            < MAX_RESPONSE
    ensures var b := Respond(hs, BE(info.flags.DecWidth(), 1) + [0] + [], Repeated(info.authCnt));
      HEADER_SIZE <= |b| <= MAX_RESPONSE && Announced(b) == |b|
  {
    hide BE, Header, HandleBytes, Nat, U32, Repeated;
    var out := BE(info.flags.DecWidth(), 1) + [0] + [];
    var b := Respond(hs, out, Repeated(info.authCnt));
    FourParts(Header(ST_SESSIONS, |b|, RC_SUCCESS), HandleBytes(hs), U32(|out|), out, Repeated(info.authCnt));
    HeaderParts(ST_SESSIONS, |b|, RC_SUCCESS, b);
  }

  /** Where the host finds things in it, the authorisation of slot k among them. */
  lemma BareLaidOut(info: CmdInfo, k: nat)
    requires info.outHandleCnt < MAX_HANDLES && k < info.authCnt <= MAX_SESSION_NUM && info.flags.DecWidth() > 0
    ensures var st := BareReply(info);
      var l := ReplyOf(st, info, 0, st.size);
      && |st.buf| == MAX_RESPONSE && l.Inside(|st.buf|) && l.decSz == Some(1) && st.buf[l.DecOff()] == 0
      && AuthFor(st.buf, st.size, l.paramOff + l.paramSz, st.size, k) == Bare()
  {
    hide BE, Pow256, Respond, Received, Repeated, HandleBytes, WantsCheck, Nat, ReplyOf, AuthFor, PState.At, Bare;
    var w := info.flags.DecWidth();
    var hs := seq(info.outHandleCnt, i => 0);
    var st := BareReply(info);
    BareRead(info, hs);
    WidthHoldsOne(w);
    ResponseLaidOut(Zeros(MAX_RESPONSE), info, 0, hs, [0], [0], [], Repeated(info.authCnt));
    var l := ReplyOf(st, info, 0, st.size);
    var out := BE(w, 1) + [0] + [];
    assert st.buf[l.paramOff..l.paramOff + |out|][w] == out[w] == 0;
    RepeatedFound(st.buf, st.size, l.paramOff + l.paramSz, info.authCnt, k);
  }

  /** An unkeyed session with a usable cipher accepts that response and decrypts its parameter. */
  lemma Exposed(c: Suite, sess: seq<AuthSession>, info: CmdInfo, k: nat)
    requires Flips(c)
    requires |sess| == MAX_SESSION_NUM && OneOther(sess, info.authCnt, k) && info.outHandleCnt < MAX_HANDLES
    requires !sess[k].IsKeyed() && info.flags.DecWidth() > 0 && Usable(sess[k])
    ensures var st := BareReply(info);
      && ChangedUnverified(c, sess, st, info, 0, st.size, k)
      && ProcessResponse(c, sess, st, info, 0, st.size).rc == RC_SUCCESS
  {
    hide Flips, BareReply, Bare, ReplyOf, AuthFor, CheckSlot, CheckSlots, Usable, Genuine, Roll;
    var st := BareReply(info);
    BareLaidOut(info, k);
    var l := ReplyOf(st, info, 0, st.size);
    ReadableAny(st, info, sess, l);
    OneSlotDecides(c, l, k, 0, sess, st.buf, st.size, l.paramOff + l.paramSz);
    BareAccepted(c, l, sess[k], st.buf);
  }

  lemma WidthHoldsOne(w: nat)
    requires w > 0
    ensures 1 < Pow256(w)
  {
  }

  lemma ReadableAny(st: PState, info: CmdInfo, sess: seq<AuthSession>, l: Reply)
    requires st.Valid() && |st.buf| < 0x8000_0000 && info.authCnt <= |sess| == MAX_SESSION_NUM
    requires l == ReplyOf(st, info, l.cc, l.respSz) && l.Inside(|st.buf|)
    ensures Readable(st, info, sess)
  {
    hide GetU;
  }

  lemma BareAccepted(c: Suite, l: Reply, s: AuthSession, buf: Bytes)
    requires Flips(c)
    requires !s.IsPassword() && !s.IsKeyed() && Usable(s) && l.info.flags.DecWidth() > 0
    requires l.Inside(|buf|) && l.decSz == Some(1) && buf[l.DecOff()] == 0
    ensures var x := CheckSlot(c, l, s, Bare(), buf);
      && x.rc == RC_SUCCESS && x.buf != buf
      && !Genuine(c, l, Roll(s, Bare()), Bare(), buf[l.paramOff..l.paramOff + l.paramSz])
  {
    hide Flips, DigestSize, Cipher.Error, Decrypt, Splice;
    UsableMeansNoError(s);
    var t := s.(hmac := []);
    assert CipherOf(t) == CipherOf(s);
    ZeroDecrypts(c, t, t.nonceTPM, t.nonceCaller);
    var secret := buf[l.DecOff()..l.DecOff() + 1];
    assert secret == [0];
    var x := Splice(buf, l.DecOff(), [1]);
    assert x[l.DecOff()] == x[l.DecOff()..l.DecOff() + 1][0] == 1;
  }

  // ---- the exact condition ----

  /** With one session that is not a password, response bytes change only under a genuine response, whatever the
      suite, the response and the buffer, if and only if that session is keyed or decrypts nothing: the command has no
      response parameter that may be encrypted, or the session has no usable cipher. */
  lemma VerifiedIffGuarded(sess: seq<AuthSession>, info: CmdInfo, k: nat)
    requires |sess| == MAX_SESSION_NUM && OneOther(sess, info.authCnt, k) && info.outHandleCnt < MAX_HANDLES
    ensures AlwaysVerified(sess, info, k) <==> Guarded(sess[k], info.flags)
  {
    hide ProcessResponse, Genuine, AuthFor, Usable, BareReply, ReplyOf, Readable;
    if Guarded(sess[k], info.flags) {
      forall c: Suite, st: PState, cc: u32, respSz: nat ensures !ChangedUnverified(c, sess, st, info, cc, respSz, k) {
        if Readable(st, info, sess) { VerifyBeforeDecrypt(c, sess, st, info, cc, respSz, k); }
      }
    } else {
      var c := FlipSuite();
      Exposed(c, sess, info, k);
    }
  }

  /** A session of neither kind in slot 0, passwords behind it. */
  function UnkeyedSlots(): (r: seq<AuthSession>) {
    var none := AuthSession(0x4000_0007, [], 0, [], [], SymDef(ALG_XOR, ALG_SHA256, 0), ALG_SHA256, [], [], None,
                            false);
    [none, none.(handle := RS_PW), none.(handle := RS_PW)]
  }

  /** A command with two user authorisations and a first parameter each way. */
  function UnkeyedInfo(): (r: CmdInfo) { CmdInfo(1, 2, 0, Flags(false, false, true, false, true, true, false, false)) }

  /** Such a session is reached: the password in slot 1 is the one authorisation counted, so slot 0 is the one that is
      checked; its parameter is decrypted and the call succeeds without any HMAC. */
  lemma UnkeyedIsUnverified() returns (c: Suite)
    ensures var sess, info := UnkeyedSlots(), UnkeyedInfo();
      var st := BareReply(info);
      && !sess[0].IsPassword() && !sess[0].IsKeyed()
      && CountFrom(sess, Some(info.flags), 0, 0) == 1 == info.authCnt
      && ChangedUnverified(c, sess, st, info, 0, st.size, 0)
      && ProcessResponse(c, sess, st, info, 0, st.size).rc == RC_SUCCESS
  {
    hide ChangedUnverified, ProcessResponse, BareReply;
    var sess, info := UnkeyedSlots(), UnkeyedInfo();
    assert CountFrom(sess, Some(info.flags), 2, 1) == 1;
    assert CountFrom(sess, Some(info.flags), 1, 0) == CountFrom(sess, Some(info.flags), 2, 1);
    c := FlipSuite();
    Exposed(c, sess, info, 0);
  }
}
