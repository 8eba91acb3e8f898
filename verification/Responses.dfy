/** Checking an authorised response (TPM2_ResponseProcess). */
module Responses {
  import opened Octets
  import opened Tpm
  import opened Packets
  import opened Structures
  import opened Sessions
  import opened ParamEnc
  import opened Commands

  /** What is fixed before the sessions are checked: where the parameters lie and how large the first one is. */
  datatype Reply = Reply(info: CmdInfo, cc: u32, paramOff: nat, paramSz: nat, decSz: Option<nat>, respSz: nat) {
    function DecOff(): (r: nat) { paramOff + info.flags.DecWidth() }

    predicate Inside(room: nat) {
      paramOff + paramSz <= room && (decSz.Some? ==> DecOff() + decSz.value <= room)
    }
  }

  function ReplyOf(st: PState, info: CmdInfo, cc: u32, respSz: nat): (r: Reply)
    requires st.Valid()
    ensures r.info == info && r.cc == cc && r.respSz == respSz
  {
    var (paramSz, s1) := GetU(st.(pos := HEADER_SIZE + 4 * info.outHandleCnt), 4);
    var w := info.flags.DecWidth();
    Reply(info, cc, s1.pos, paramSz, if w == 0 then None else Some(GetU(s1, w).0), respSz)
  }

  /** Parses the next authorisation if the response goes on, else there is an empty one. */
  function NextAuth(buf: Bytes, size: nat, authPos: nat, respSz: nat): (r: (AuthResponse, nat))
    requires size <= |buf|
    ensures |r.0.nonce| <= MAX_DIGEST && |r.0.hmac| <= MAX_DIGEST
  {
    if respSz > authPos then
      var (a, s1) := GetAuth(PState(buf, authPos, size));
      (a, s1.pos)
    else (AuthResponse([], 0, []), authPos)
  }

  /** The TPM's new nonce is taken before anything is verified. */
  function Roll(s: AuthSession, a: AuthResponse): (r: AuthSession)
    ensures r == s.(nonceTPM := r.nonceTPM)
    ensures s.Fits() && |a.nonce| <= MAX_DIGEST ==> r.Fits()
  {
    if |a.nonce| > 0 then s.(nonceTPM := a.nonce) else s
  }

  /** Does the response carry the HMAC the host computes itself? s has rolled its nonce. */
  predicate Genuine(c: Suite, l: Reply, s: AuthSession, a: AuthResponse, params: Bytes) {
    && DigestSize(s.authHash) > 0
    && a.hmac ==
       AuthHmac(c, s.authHash, s.auth, RpHash(c, s.authHash, l.cc, params), s.nonceTPM, s.nonceCaller, a.attrs)
  }

  datatype Checked = Checked(rc: int, session: AuthSession, buf: Bytes)

  /** The first response parameter decrypted, if the response says it is encrypted. */
  function Decrypted(c: Suite, l: Reply, s: AuthSession, a: AuthResponse, buf: Bytes): (r: (int, Bytes))
    requires l.Inside(|buf|)
    ensures |r.1| == |buf|
  {
    if l.decSz == None || !HasBit(a.attrs, SESSION_ENCRYPT) then (RC_SUCCESS, buf)
    else if CipherOf(s).Error(l.decSz.value).Some? then (CipherOf(s).Error(l.decSz.value).value, buf)
    else
      var secret := buf[l.DecOff()..l.DecOff() + l.decSz.value];
      (RC_SUCCESS, Splice(buf, l.DecOff(), Decrypt(c, CipherOf(s), s.nonceTPM, s.nonceCaller, secret)))
  }

  function CheckSlot(c: Suite, l: Reply, s: AuthSession, a: AuthResponse, buf: Bytes): (r: Checked)
    requires l.Inside(|buf|)
    ensures |r.buf| == |buf|
  {
    if s.IsPassword() then Checked(RC_SUCCESS, s, buf)
    else
      var s1 := Roll(s, a);
      if s1.IsKeyed() && !Genuine(c, l, s1, a, buf[l.paramOff..l.paramOff + l.paramSz]) then Checked(RC_HMAC, s1, buf)
      else
        var s2 := s1.(hmac := a.hmac);
        var (rc, buf') := Decrypted(c, l, s2, a, buf);
        Checked(rc, s2, buf')
  }

  datatype Outcome = Outcome(rc: int, sess: seq<AuthSession>, buf: Bytes)

  function CheckSlots(c: Suite, l: Reply, i: nat, sess: seq<AuthSession>, buf: Bytes, size: nat,
      authPos: nat): (r: Outcome)
    requires i <= l.info.authCnt <= |sess| && size <= |buf| && l.Inside(|buf|)
    ensures |r.buf| == |buf| && |r.sess| == |sess|
    decreases l.info.authCnt - i
  {
    if i == l.info.authCnt then Outcome(RC_SUCCESS, sess, buf)
    else
      var (a, authPos') := NextAuth(buf, size, authPos, l.respSz);
      var k := CheckSlot(c, l, sess[i], a, buf);
      if k.rc != RC_SUCCESS then Outcome(k.rc, sess[i := k.session], k.buf)
      else CheckSlots(c, l, i + 1, sess[i := k.session], k.buf, size, authPos')
  }

  /** The declared parameter area, and the first parameter in it, lie inside the buffer. */
  predicate Readable(st: PState, info: CmdInfo, sess: seq<AuthSession>) {
    && st.Valid() && |st.buf| < 0x8000_0000 && info.authCnt <= |sess| == MAX_SESSION_NUM
    && ReplyOf(st, info, 0, 0).Inside(|st.buf|)
  }

  function ProcessResponse(c: Suite, sess: seq<AuthSession>, st: PState, info: CmdInfo, cc: u32,
      respSz: nat): (r: Outcome)
    requires Readable(st, info, sess)
    ensures |r.buf| == |st.buf| && |r.sess| == |sess|
  {
    var l := ReplyOf(st, info, cc, respSz);
    CheckSlots(c, l, 0, sess, st.buf, st.size, l.paramOff + l.paramSz)
  }

  // ---- the code ----

  method CheckSession(c: Suite, l: Reply, s: AuthSession, a: AuthResponse, buf: array<byte>)
    returns (rc: int, s': AuthSession)
    requires l.Inside(buf.Length)
    modifies buf
    ensures Checked(rc, s', buf[..]) == CheckSlot(c, l, s, a, old(buf[..]))
  {
    hide Splice, Decrypt, RpHash, AuthHmac, DigestSize, Cipher.Error, HasBit;
    s' := s;
    rc := RC_SUCCESS;
    if !s.IsPassword() {
      if |a.nonce| > 0 { s' := s'.(nonceTPM := a.nonce); }
      if s'.IsKeyed() {
        var expectedHmacSz := DigestSize(s'.authHash);
        if expectedHmacSz == 0 || |a.hmac| != expectedHmacSz { return RC_HMAC, s'; }
        var hash, hmac;
        rc, hash := CalcRpHash(c, s'.authHash, l.cc, buf[l.paramOff..l.paramOff + l.paramSz]);
        if rc != RC_SUCCESS { return; }
        rc, hmac := CalcHmac(c, s'.authHash, s'.auth, hash, s'.nonceTPM, s'.nonceCaller, a.attrs);
        if rc != RC_SUCCESS { return; }
        if hmac != a.hmac { return RC_HMAC, s'; }
      }
      s' := s'.(hmac := a.hmac);
      if l.decSz.Some? && HasBit(a.attrs, SESSION_ENCRYPT) {
        rc := ParamDecCmdResponse(c, s', buf, l.DecOff(), l.decSz.value);
      }
    }
  }

  method ResponseProcess(c: Suite, ctx: Context, p: Packet, info: CmdInfo, cc: u32, respSz: nat) returns (rc: int)
    requires p.Valid() && ctx.session.Length == MAX_SESSION_NUM && Readable(p.State(), info, ctx.session[..])
    modifies p`pos, p.buf, ctx.session
    ensures p.Valid()
    ensures Outcome(rc, ctx.session[..], p.buf[..]) ==
            ProcessResponse(c, old(ctx.session[..]), old(p.State()), info, cc, respSz)
  {
    hide GetU, GetAuth, CheckSlot, Pow256;
    p.pos := HEADER_SIZE + 4 * info.outHandleCnt;
    var paramSz := p.ParseU32();
    var paramOff := p.pos;
    var authPos: nat := paramOff + paramSz;
    var decSz := None;
    if info.flags.DecWidth() > 0 {
      var n := p.ParseU(info.flags.DecWidth());
      decSz := Some(n);
    }
    var l := Reply(info, cc, paramOff, paramSz, decSz, respSz);
    ghost var all := CheckSlots(c, l, 0, ctx.session[..], p.buf[..], p.size, authPos);
    rc := RC_SUCCESS;
    var i := 0;
    while i < info.authCnt
      invariant 0 <= i <= info.authCnt && p.Valid() && p.size == old(p.size) && p.buf == old(p.buf)
      invariant l.Inside(p.buf.Length) && rc == RC_SUCCESS && ctx.session.Length == MAX_SESSION_NUM
      invariant CheckSlots(c, l, i, ctx.session[..], p.buf[..], p.size, authPos) == all
    {
      var s := ctx.session[i];
      var a := AuthResponse([], 0, []);
      if respSz > authPos {
        p.pos := authPos;
        a := ParseAuth(p);
        authPos := p.pos;
      }
      rc, s := CheckSession(c, l, s, a, p.buf);
      ctx.session[i] := s;
      if rc != RC_SUCCESS { return; }
      i := i + 1;
    }
  }
}
