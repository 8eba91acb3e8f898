/** What the result of a whole call says about the answer, the command and the generator. */
module AnswerTheorems {
  import opened Octets
  import opened Tpm
  import opened Packets
  import opened Structures
  import opened Sessions
  import opened ParamEnc
  import opened Commands
  import opened Wire
  import opened Responses
  import opened ResponseTheorems
  import opened Exchange
  import opened Peer
  import opened PeerTheorems
  import opened PeerCrypto

  // ---- a command the TPM refuses ----

  /** The TPM's refusal reaches the caller as its response code, and the sessions are as the command pass left them. */
  lemma RefusalReturned(c: Suite, rng: Rng, t: Held, e: Entities, task: Task, sess: seq<AuthSession>, st: PState,
      info: CmdInfo)
    requires Sendable(sess, st, info) && |task.nonce| <= MAX_DIGEST
    requires var p := Authorised(c, rng, sess, st, info);
      p.rc == RC_SUCCESS && Serve(c, t, e, info, task, p.st.buf[..st.pos]) == None
    ensures var p := Authorised(c, rng, sess, st, info);
      var device := Device(c, t, e, info, task);
      && Sound(device, p, st.pos, info)
      && var r := SendAuth(c, rng, device, sess, st, info);
      r.rc == RC_FAILURE && r.sess == p.sess
  {
    hide Authorised, Serve, U16, U32, Header, Accept, Readable, Nat, WantsCheck, HasSessions;
    var p := Authorised(c, rng, sess, st, info);
    var device := Device(c, t, e, info, task);
    var b := Header(ST_NO_SESSIONS, HEADER_SIZE, RC_FAILURE);
    assert device(p.st.buf[..st.pos]) == Answer(b) by { Refused(c, t, e, info, task, p.st.buf[..st.pos]); }
    HeaderParts(ST_NO_SESSIONS, HEADER_SIZE, RC_FAILURE, b);
    WantsCheckIff(p.st.buf, b);
    AnswerDecides(c, rng, device, sess, st, info);
  }

  lemma Refused(c: Suite, t: Held, e: Entities, info: CmdInfo, task: Task, m: Bytes)
    requires |task.nonce| <= MAX_DIGEST && Serve(c, t, e, info, task, m) == None
    ensures Device(c, t, e, info, task)(m) == Answer(Header(ST_NO_SESSIONS, HEADER_SIZE, RC_FAILURE))
  {
    hide Serve;
  }

  // ---- what success of an authenticated exchange proves ----

  /** When a call with one HMAC or policy session succeeds on a response with sessions, that response carries the HMAC
      over response code 0, command code and parameters under the session's key and both nonces. */
  lemma SuccessIsAuthentic(c: Suite, rng: Rng, device: Bytes -> Answer, sess: seq<AuthSession>, st: PState,
      info: CmdInfo, k: nat)
    requires Sendable(sess, st, info) && Sound(device, Authorised(c, rng, sess, st, info), st.pos, info)
    requires OneKeyed(Authorised(c, rng, sess, st, info).sess, info.authCnt, k)
    requires var r := SendAuth(c, rng, device, sess, st, info); r.rc == RC_SUCCESS
    ensures var p := Authorised(c, rng, sess, st, info);
      var a := device(p.st.buf[..st.pos]);
      && p.rc == RC_SUCCESS && a.Answer? && Nat(a.bytes[6..10]) == 0
      && (HasSessions(a.bytes) ==>
            var rsp := Received(p.st.buf, a.bytes);
            var l := ReplyOf(rsp, info, CodeOf(st), rsp.size);
            var auth := AuthFor(rsp.buf, rsp.size, l.paramOff + l.paramSz, rsp.size, k);
            var s := p.sess[k];
            var newer := if auth.nonce == [] then s.nonceTPM else auth.nonce;
            && l.paramOff + l.paramSz <= |rsp.buf|
            && auth.hmac == c.hmac(s.authHash, s.auth,
                                   c.hash(s.authHash, BE(4, 0) + BE(4, CodeOf(st))
                                                      + rsp.buf[l.paramOff..l.paramOff + l.paramSz])
                                   + newer + s.nonceCaller + [auth.attrs]))
  {
    hide Authorised, ProcessResponse, WantsCheck, HasSessions, Nat, ReplyOf, AuthFor, GetU, BE, CodeOf, RpHash,
         AuthHmac;
    AnswerDecides(c, rng, device, sess, st, info);
    var p := Authorised(c, rng, sess, st, info);
    var a := device(p.st.buf[..st.pos]);
    WantsCheckIff(p.st.buf, a.bytes);
    if HasSessions(a.bytes) {
      var rsp := Received(p.st.buf, a.bytes);
      var l := ReplyOf(rsp, info, CodeOf(st), rsp.size);
      VerifyBeforeDecrypt(c, p.sess, rsp, info, CodeOf(st), rsp.size, k);
      ReplyPlaced(rsp, info, CodeOf(st), rsp.size);
      var auth := AuthFor(rsp.buf, rsp.size, l.paramOff + l.paramSz, rsp.size, k);
      var s := Roll(p.sess[k], auth);
      var params := rsp.buf[l.paramOff..l.paramOff + l.paramSz];
      ResponseHmacIs(c, s.authHash, s.auth, CodeOf(st), params, s.nonceTPM, s.nonceCaller, auth.attrs);
    }
  }

  lemma ReplyPlaced(st: PState, info: CmdInfo, cc: u32, n: nat)
    requires st.Valid() && ReplyOf(st, info, 0, 0).Inside(|st.buf|)
    ensures ReplyOf(st, info, cc, n).Inside(|st.buf|)
  {
    hide GetU;
  }

  // ---- missing authorisations ----

  /** The codes the two passes give of themselves. */
  predicate OwnCode(rc: int) { rc in {RC_SUCCESS, RC_HMAC, BUFFER_E, RC_FAILURE, BAD_FUNC_ARG} }

  ghost predicate NeverFailsWith(rng: Rng, rc: int) {
    forall i: nat, n: nat :: rng(i, n).RngError? ==> rng(i, n).rc != rc
  }

  lemma CipherCodes(x: Cipher, n: nat)
    ensures x.Error(n).Some? ==> OwnCode(x.Error(n).value)
  {
  }

  lemma {:induction false} FillCodes(c: Suite, l: Layout, rng: Rng, i: nat, sess: seq<AuthSession>, st: PState, rc: int)
    requires i <= l.info.authCnt <= |sess| && AllFit(sess) && st.Valid() && l.Inside(st.size)
    requires NeverFailsWith(rng, rc) && !OwnCode(rc)
    ensures FillSlots(c, l, rng, i, sess, st).rc != rc
    decreases l.info.authCnt - i
  {
    hide Cipher.Error, AppAuthCommand, Authorise, Encrypt, Encrypts, OwnCode, Splice, DigestSize;
    assert OwnCode(RC_SUCCESS) && OwnCode(BAD_FUNC_ARG) by { OwnCodes(); }
    if i < l.info.authCnt {
      var s := sess[i];
      var reply := rng(i, |s.nonceCaller|);
      assert reply.RngError? ==> reply.rc != rc;
      FillSlotCode(c, l, reply, s, st, rc);
      var f := FillSlot(c, l, reply, s, st);
      if f.rc == RC_SUCCESS { FillCodes(c, l, rng, i + 1, sess[i := f.session], f.st, rc); }
    }
  }

  lemma FillSlotCode(c: Suite, l: Layout, reply: RngReply, s: AuthSession, st: PState, rc: int)
    requires st.Valid() && l.Inside(st.size) && s.Fits() && reply.Answers(|s.nonceCaller|)
    requires (reply.RngError? ==> reply.rc != rc) && !OwnCode(rc)
    ensures FillSlot(c, l, reply, s, st).rc != rc
  {
    hide Cipher.Error, AppAuthCommand, Authorise, Encrypt, Encrypts, Splice, DigestSize;
    if s.IsPassword() || reply.Nonce? {
      var s' := if s.IsPassword() then s else Refresh(s, reply.bytes);
      CipherCodes(CipherOf(s'), if l.encSz.Some? then l.encSz.value else 0);
      assert Encrypts(l, s') ==> l.encSz.Some? by { EncryptsSome(l, s'); }
    }
  }

  lemma EncryptsSome(l: Layout, s: AuthSession)
    ensures Encrypts(l, s) ==> l.encSz.Some?
  {
    hide HasBit;
  }

  lemma OwnCodes()
    ensures OwnCode(RC_SUCCESS) && OwnCode(BAD_FUNC_ARG) && OwnCode(RC_HMAC) && OwnCode(BUFFER_E)
    ensures !OwnCode(RC_AUTH_MISSING)
  {
  }

  lemma {:induction false} CheckCodes(c: Suite, l: Reply, i: nat, sess: seq<AuthSession>, buf: Bytes, size: nat,
      authPos: nat)
    requires i <= l.info.authCnt <= |sess| && size <= |buf| && l.Inside(|buf|)
    ensures OwnCode(CheckSlots(c, l, i, sess, buf, size, authPos).rc)
    decreases l.info.authCnt - i
  {
    hide CheckSlot, NextAuth, OwnCode;
    OwnCodes();
    if i < l.info.authCnt {
      var (a, authPos') := NextAuth(buf, size, authPos, l.respSz);
      var k := CheckSlot(c, l, sess[i], a, buf);
      CheckSlotCode(c, l, sess[i], a, buf);
      if k.rc == RC_SUCCESS { CheckCodes(c, l, i + 1, sess[i := k.session], k.buf, size, authPos'); }
    }
  }

  lemma CheckSlotCode(c: Suite, l: Reply, s: AuthSession, a: AuthResponse, buf: Bytes)
    requires l.Inside(|buf|)
    ensures OwnCode(CheckSlot(c, l, s, a, buf).rc)
  {
    hide Cipher.Error, Decrypt, Genuine, Splice, HasBit;
    CipherCodes(CipherOf(Roll(s, a).(hmac := a.hmac)), if l.decSz.Some? then l.decSz.value else 0);
  }

  /** Unless the generator, the transport or the TPM reports that very code, a call ends with TPM_RC_AUTH_MISSING if
      and only if the command has the tag of a command with sessions and no authorisation; nothing is sent then. */
  lemma AuthMissingIff(c: Suite, rng: Rng, device: Bytes -> Answer, sess: seq<AuthSession>, st: PState, info: CmdInfo)
    requires Sendable(sess, st, info) && Sound(device, Authorised(c, rng, sess, st, info), st.pos, info)
    requires NeverFailsWith(rng, RC_AUTH_MISSING)
    requires var a := device(Authorised(c, rng, sess, st, info).st.buf[..st.pos]);
      && (a.Lost? ==> a.rc != RC_AUTH_MISSING)
      && (a.Answer? && HEADER_SIZE <= |a.bytes| ==> Nat(a.bytes[6..10]) != RC_AUTH_MISSING)
    ensures var r := SendAuth(c, rng, device, sess, st, info);
      && (r.rc == RC_AUTH_MISSING <==> Nat(st.buf[..2]) == 0x8002 && info.authCnt == 0)
      && (r.rc == RC_AUTH_MISSING ==> r.sess == sess && r.st == st)
  {
    hide WellFormed, Nat, LayoutOf, FillSlots, ProcessResponse, Readable, WantsCheck, HasSessions, CodeOf, Received,
         OwnCode, AuthSzOf;
    OwnCodes();
    TagIs(st);
    AnswerDecides(c, rng, device, sess, st, info);
    var p := Authorised(c, rng, sess, st, info);
    if TagOf(st) == ST_SESSIONS && info.authCnt > 0 { CommandCode(c, rng, sess, st, info, CodeOf(st), st.pos); }
    if p.rc == RC_SUCCESS {
      var a := device(p.st.buf[..st.pos]);
      if a.Answer? { AcceptCode(c, p.sess, p.st.buf, a.bytes, info, CodeOf(st)); }
    }
  }

  lemma TagIs(st: PState)
    requires st.Valid() && 2 <= st.size
    ensures TagOf(st) == Nat(st.buf[..2])
  {
    hide Nat;
    assert st.buf[0..2] == st.buf[..2];
  }

  lemma CommandCode(c: Suite, rng: Rng, sess: seq<AuthSession>, st: PState, info: CmdInfo, cc: u32, cmdSz: nat)
    requires WellFormed(st, info, sess, cmdSz) && NeverFailsWith(rng, RC_AUTH_MISSING)
    ensures ProcessCommand(c, rng, sess, st, info, cc, cmdSz).rc != RC_AUTH_MISSING
  {
    hide LayoutOf, FillSlots, App, EncSzOf, AuthSzOf, OwnCode;
    OwnCodes();
    FillCodes(c, LayoutOf(st, info, sess, cc, cmdSz), rng, 0, sess, App(st.(pos := AuthSzPos(info)), Zeros(4)),
              RC_AUTH_MISSING);
  }

  /** An accepted answer ends with its own code or with one of the check's. */
  lemma AcceptCode(c: Suite, sess: seq<AuthSession>, buf: Bytes, b: Bytes, info: CmdInfo, cc: u32)
    requires HEADER_SIZE <= |b| <= |buf| && Announced(b) <= |buf|
    requires WantsCheck(Received(buf, b), b) ==> Readable(Received(buf, b), info, sess)
    ensures var rc := Accept(c, sess, buf, b, info, cc).rc; rc == Nat(b[6..10]) || OwnCode(rc)
  {
    hide Nat, Received, GetU, CheckSlots, OwnCode;
    var rsp := Received(buf, b);
    if WantsCheck(rsp, b) {
      var l := ReplyOf(rsp, info, cc, rsp.size);
      CheckCodes(c, l, 0, sess, rsp.buf, rsp.size, l.paramOff + l.paramSz);
    }
  }
}
