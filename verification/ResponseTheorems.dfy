/** What checking a response guarantees when one session is keyed and the others are passwords. */
module ResponseTheorems {
  import opened Octets
  import opened Tpm
  import opened Packets
  import opened Structures
  import opened Sessions
  import opened ParamEnc
  import opened Commands
  import opened CommandTheorems
  import opened Responses

  /** The authorisation meant for slot k: each slot before it takes one, as long as the response goes on. */
  function AuthFor(buf: Bytes, size: nat, authPos: nat, respSz: nat, k: nat): (r: AuthResponse)
    requires size <= |buf|
    ensures |r.nonce| <= MAX_DIGEST && |r.hmac| <= MAX_DIGEST
    decreases k
  {
    var (a, next) := NextAuth(buf, size, authPos, respSz);
    if k == 0 then a else AuthFor(buf, size, next, respSz, k - 1)
  }

  lemma {:induction false} PasswordsPass(c: Suite, l: Reply, i: nat, sess: seq<AuthSession>, buf: Bytes,
      size: nat, authPos: nat)
    requires i <= l.info.authCnt <= |sess| && size <= |buf| && l.Inside(|buf|)
    requires forall j :: i <= j < l.info.authCnt ==> sess[j].IsPassword()
    ensures CheckSlots(c, l, i, sess, buf, size, authPos) == Outcome(RC_SUCCESS, sess, buf)
    decreases l.info.authCnt - i
  {
    hide NextAuth;
    if i < l.info.authCnt {
      assert sess[i := sess[i]] == sess;
      PasswordsPass(c, l, i + 1, sess, buf, size, NextAuth(buf, size, authPos, l.respSz).1);
    }
  }

  /** Only the slot that is not a password matters, and it is given its own authorisation. */
  lemma {:induction false} OneSlotDecides(
    c: Suite, l: Reply, k: nat, i: nat, sess: seq<AuthSession>, buf: Bytes, size: nat, authPos: nat)
    requires i <= k < l.info.authCnt <= |sess| && size <= |buf| && l.Inside(|buf|)
    requires forall j :: i <= j < l.info.authCnt && j != k ==> sess[j].IsPassword()
    ensures var x := CheckSlot(c, l, sess[k], AuthFor(buf, size, authPos, l.respSz, k - i), buf);
      CheckSlots(c, l, i, sess, buf, size, authPos) == Outcome(x.rc, sess[k := x.session], x.buf)
    decreases k - i
  {
    hide NextAuth, Genuine, Decrypted, Roll;
    var (a, next) := NextAuth(buf, size, authPos, l.respSz);
    if i < k {
      assert sess[i := sess[i]] == sess;
      OneSlotDecides(c, l, k, i + 1, sess, buf, size, next);
    } else {
      var x := CheckSlot(c, l, sess[k], a, buf);
      if x.rc == RC_SUCCESS { PasswordsPass(c, l, i + 1, sess[k := x.session], x.buf, size, next); }
    }
  }

  /** The end of the first response parameter. */
  function DecEnd(l: Reply): (r: nat) { l.DecOff() + if l.decSz.Some? then l.decSz.value else 0 }

  /** Can the session's cipher decrypt anything at all? Every part of this can be tested before a command is sent. */
  predicate Usable(s: AuthSession) {
    && (s.symmetric.algorithm == ALG_XOR
        || (s.symmetric.algorithm == ALG_AES && s.symmetric.mode == ALG_CFB && s.symmetric.keyBits / 8 in {16, 24, 32}))
    && DigestSize(s.authHash) > 0 && !CipherOf(s).KeysTooBig()
  }

  lemma UsableMeansNoError(s: AuthSession)
    ensures !Usable(s) ==> forall n: nat :: CipherOf(s).Error(n).Some?
    ensures Usable(s) ==> CipherOf(s).Error(1) == None
  {
    hide DigestSize, Cipher.KeysTooBig;
  }

  /** A session whose response parameter is never decrypted unverified: an HMAC or policy session, or one that
      decrypts nothing. */
  predicate Guarded(s: AuthSession, flags: Flags) { s.IsKeyed() || flags.DecWidth() == 0 || !Usable(s) }

  /** What one check of a session that is not a password comes to. */
  lemma CheckedSlot(c: Suite, l: Reply, s: AuthSession, a: AuthResponse, buf: Bytes)
    requires l.Inside(|buf|) && !s.IsPassword() && (l.decSz.Some? ==> l.info.flags.DecWidth() > 0)
    ensures var genuine := Genuine(c, l, Roll(s, a), a, buf[l.paramOff..l.paramOff + l.paramSz]);
      var x := CheckSlot(c, l, s, a, buf);
      && (x.rc == RC_HMAC <==> s.IsKeyed() && !genuine)
      && (x.rc != RC_SUCCESS ==> x.buf == buf)
      && SameBut(buf, x.buf, l.DecOff(), DecEnd(l), 0, 0)
      && (Guarded(s, l.info.flags) && !genuine ==> x.buf == buf)
      && x.session.nonceTPM == (if a.nonce == [] then s.nonceTPM else a.nonce)
  {
    hide Genuine, Decrypt, DigestSize, HasBit, Cipher.Error, Usable;
    var t := Roll(s, a).(hmac := a.hmac);
    UsableMeansNoError(s);
    assert CipherOf(t) == CipherOf(s);
    CipherErrors(t, if l.decSz.Some? then l.decSz.value else 0);
  }

  lemma CipherErrors(s: AuthSession, n: nat)
    ensures CipherOf(s).Error(n).Some? ==> CipherOf(s).Error(n).value in {BUFFER_E, RC_FAILURE, BAD_FUNC_ARG}
  {
  }

  /** With one session that is not a password: RC_HMAC if and only if that session is keyed and the HMAC differs; on
      every error the buffer is as it was; nothing but the first parameter ever changes; and for a guarded session
      nothing is decrypted that was not verified first. */
  lemma VerifyBeforeDecrypt(c: Suite, sess: seq<AuthSession>, st: PState, info: CmdInfo, cc: u32, respSz: nat, k: nat)
    requires Readable(st, info, sess) && OneOther(sess, info.authCnt, k)
    ensures var l := ReplyOf(st, info, cc, respSz);
      var a := AuthFor(st.buf, st.size, l.paramOff + l.paramSz, respSz, k);
      var genuine := Genuine(c, l, Roll(sess[k], a), a, st.buf[l.paramOff..l.paramOff + l.paramSz]);
      var r := ProcessResponse(c, sess, st, info, cc, respSz);
      && (r.rc == RC_HMAC <==> sess[k].IsKeyed() && !genuine)
      && (r.rc != RC_SUCCESS ==> r.buf == st.buf)
      && SameBut(st.buf, r.buf, l.DecOff(), DecEnd(l), 0, 0)
      && (Guarded(sess[k], info.flags) && !genuine ==> r.buf == st.buf)
      && r.sess[k].nonceTPM == (if a.nonce == [] then sess[k].nonceTPM else a.nonce)
      && forall j :: 0 <= j < |sess| && j != k ==> r.sess[j] == sess[j]
  {
    hide Genuine, AuthFor, GetU, CheckSlot, CheckSlots, Roll, SameBut, DecEnd, Guarded;
    var l := ReplyOf(st, info, cc, respSz);
    OneSlotDecides(c, l, k, 0, sess, st.buf, st.size, l.paramOff + l.paramSz);
    CheckedSlot(c, l, sess[k], AuthFor(st.buf, st.size, l.paramOff + l.paramSz, respSz, k), st.buf);
  }

  /** Slot k of the n slots in use holds a session that is not a password, every other one a password. */
  predicate OneOther(sess: seq<AuthSession>, n: nat, k: nat) {
    && k < n <= |sess| && !sess[k].IsPassword()
    && forall i :: 0 <= i < n && i != k ==> sess[i].IsPassword()
  }
}
