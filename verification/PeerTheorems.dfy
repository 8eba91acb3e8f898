/** One exchange between the host and the idealised TPM: each accepts the other and recovers what the other meant. */
module PeerTheorems {
  import opened Octets
  import opened Tpm
  import opened Packets
  import opened Structures
  import opened Sessions
  import opened ParamEnc
  import opened Commands
  import opened CommandTheorems
  import opened Wire
  import opened Responses
  import opened ResponseTheorems
  import opened Exchange
  import opened ExchangeTheorems
  import opened Peer
  import opened TpmCrypto
  import opened PeerCrypto

  // ---- the host's authorisations as the TPM reads them ----

  function AuthList(c: Suite, l: Layout, sess: seq<AuthSession>, i: nat, sent: Bytes): (r: seq<AuthCommand>)
    requires i <= l.info.authCnt <= |sess| && AllFit(sess)
    ensures |r| == l.info.authCnt - i
    ensures forall j :: 0 <= j < |r| ==> r[j].Fits() && r[j] == Authorise(c, l, sess[i + j], sent)
    decreases l.info.authCnt - i
  {
    if i == l.info.authCnt then []
    else [Authorise(c, l, sess[i], sent)] + AuthList(c, l, sess, i + 1, sent)
  }

  lemma {:induction false} AuthListBytes(c: Suite, l: Layout, sess: seq<AuthSession>, i: nat, sent: Bytes)
    requires i <= l.info.authCnt <= |sess| && AllFit(sess)
    ensures EncAuths(AuthList(c, l, sess, i, sent)) == AuthBytes(c, l, sess, i, sent)
    decreases l.info.authCnt - i
  {
    hide EncAuthCommand, Authorise;
    if i < l.info.authCnt {
      AuthListBytes(c, l, sess, i + 1, sent);
      assert AuthList(c, l, sess, i, sent)[1..] == AuthList(c, l, sess, i + 1, sent);
    }
  }

  // ---- when the two sides fit together ----

  /** The host's session and the TPM's are one and the same. */
  predicate Agree(s: AuthSession, t: Held) {
    && s.handle == t.handle && s.auth == t.key && s.bind == t.bind && s.symmetric == t.symmetric
    && s.authHash == t.authHash && s.nonceTPM == t.nonceTPM
  }

  /** The command is one the host can send: it fits, its slots are set up, the TPM knows names and passwords, and the
      cipher can take the first parameter if that is to be encrypted. */
  predicate Ready(e: Entities, st: PState, sess: seq<AuthSession>, cmd: Command, rng: Rng, k: nat) {
    && Room(st, sess, cmd) && AllFit(sess)
    && OneKeyed(sess, Counted(sess, cmd.info), k)
    && (forall i :: 0 <= i < Counted(sess, cmd.info) ==> SlotAgrees(sess[i]))
    && (forall i :: 0 <= i < Counted(sess, cmd.info) && i != k ==> e.passwords(i) == sess[i].auth)
    && (forall i :: 0 <= i < |cmd.handles| && HasOwnName(cmd.handles[i]) ==> sess[i].name == e.names(cmd.handles[i]))
    && rng(k, WRAP_NONCE).Nonce? && DigestSize(sess[k].authHash) > 0
    && (cmd.info.flags.EncWidth() > 0 && HasBit(SentAttrs(sess[k], cmd.info.flags), SESSION_DECRYPT)
        ==> CipherOf(sess[k]).Error(|cmd.first|) == None)
  }

  /** The host is ready and the TPM holds the same session. */
  predicate Fair(t: Held, e: Entities, st: PState, sess: seq<AuthSession>, cmd: Command, rng: Rng, k: nat) {
    Ready(e, st, sess, cmd, rng, k) && Agree(sess[k], t)
  }

  function FreshNonce(rng: Rng, k: nat): (r: Bytes)
    requires rng(k, WRAP_NONCE).Nonce?
    ensures |r| == WRAP_NONCE
  {
    rng(k, WRAP_NONCE).bytes
  }

  // ---- the command ----

  /** The parameters as they are sent. */
  function Sealed(c: Suite, t: Held, cmd: Command, nonce: Bytes, attrs: byte): (r: Bytes) {
    var w := cmd.info.flags.EncWidth();
    if w > 0 && HasBit(attrs, SESSION_DECRYPT) && KeysOf(t).Error(|cmd.first|) == None
    then cmd.ParamsWith(Encrypt(c, KeysOf(t), nonce, t.nonceTPM, cmd.first))
    else cmd.Params()
  }

  lemma SpliceMiddle(a: Bytes, b: Bytes, d: Bytes, x: Bytes)
    requires |b| == |x|
    ensures (a + b + d)[|a|..|a| + |b|] == b
    ensures Splice(a + b + d, |a|, x) == a + x + d
  {
    var s := a + b + d;
    assert s[..|a|] == a && s[|a|..|a| + |b|] == b && s[|a| + |b|..] == d;
  }

  lemma SentIsSealed(c: Suite, l: Layout, s: AuthSession, t: Held, cmd: Command)
    requires s.IsKeyed() && Agree(s, t) && l.info.flags == cmd.info.flags && cmd.Shaped()
    requires l.encSz == if cmd.info.flags.EncWidth() == 0 then None else Some(|cmd.first|)
    ensures Holds(l, cmd.Params())
    ensures SentParams(c, l, s, cmd.Params()) == Sealed(c, t, cmd, s.nonceCaller, SentAttrs(s, cmd.info.flags))
  {
    hide Encrypt, Cipher.Error, HasBit, SentAttrs, BE, Pow256, Splice;
    var w := cmd.info.flags.EncWidth();
    assert CipherOf(s) == KeysOf(t);
    if w > 0 && KeysOf(t).Error(|cmd.first|) == None {
      SpliceMiddle(BE(w, |cmd.first|), cmd.first, cmd.rest,
                   Encrypt(c, KeysOf(t), s.nonceCaller, s.nonceTPM, cmd.first));
    }
  }

  /** The TPM undoes the host's encryption. */
  lemma DecipherEncipher(c: Suite, t: Held, newer: Bytes, older: Bytes, w: nat, first: Bytes, rest: Bytes)
    requires |first| < Pow256(w) && KeysOf(t).Error(|first|) == None
    ensures Deciphered(c, t.Secret(), newer, older, w,
                       BE(w, |first|) + Encrypt(c, KeysOf(t), newer, older, first) + rest)
            == Some(BE(w, |first|) + first + rest)
  {
    hide Encrypt, Decrypt, Cipher.Error, BE, Pow256, Nat, Secret.Open, Secret.Seal, Secret.Capable;
    var x := KeysOf(t);
    var e := Encrypt(c, x, newer, older, first);
    assert x.Error(|e|) == None;
    var p := BE(w, |first|) + e + rest;
    assert p[..w] == BE(w, |first|) && p[w..w + |e|] == e && p[w + |e|..] == rest;
    NatOfBE(w, |first|);
    DecryptEncrypt(c, x, newer, older, first);
    CiphersAgree(c, t, newer, older, e);
  }

  /** The layout the fill pass works with is the command's own. */
  lemma BuiltLayout(st: PState, sess: seq<AuthSession>, cmd: Command, t: Held, e: Entities, rng: Rng, k: nat)
    requires Fair(t, e, st, sess, cmd, rng, k)
    ensures var b := Build(st, sess, cmd);
      && WellFormed(b.st, b.info, b.sess, b.st.pos)
      && var l := LayoutOf(b.st, b.info, b.sess, cmd.cc, b.st.pos);
      && l.info == cmd.info.(authCnt := Counted(sess, cmd.info))
      && l.encSz == (if cmd.info.flags.EncWidth() == 0 then None else Some(|cmd.first|))
      && l.paramOff == AuthSzPos(cmd.info) + 4 + ReservedSum(b.sess, b.info.authCnt)
      && b.st.buf[l.paramOff..b.st.pos] == cmd.Params()
      && l.Names() == EntityNames(e, cmd.handles)
  {
    hide Build, ReservedSum, HandleAt, AuthSzOf, EncSzOf, TagOf, CodeOf, SlotAgrees, EntityName, AuthSession.IsKeyed,
         AuthSession.IsPassword, KeysOf, Cipher.Error, HasBit, SentAttrs, Counted, Prepared, U32, Header,
         HandleBytes, NameOf;
    var b := Build(st, sess, cmd);
    Built(st, sess, cmd);
    BuiltWellFormed(st, sess, cmd);
    forall i | 0 <= i < 3
      ensures NameOf(HandleAt(b.st, i), b.info, i, b.sess)
              == if i < |cmd.handles| then EntityName(e, cmd.handles[i]) else []
    {
      NameKept(HandleAt(b.st, i), cmd.info, i, sess);
      if i < |cmd.handles| { NamesAgree(e, cmd.handles[i], cmd.info, i, sess); }
    }
    NamesOfThree(e, cmd.handles);
  }

  /** The host takes a session's name exactly for the handles that have a name of their own. */
  lemma NamesAgree(e: Entities, h: u32, info: CmdInfo, i: nat, sess: seq<AuthSession>)
    requires i < |sess| && i < info.inHandleCnt && (HasOwnName(h) ==> sess[i].name == e.names(h))
    ensures NameOf(h, info, i, sess) == EntityName(e, h)
  {
    hide BE;
  }

  lemma NameKept(h: u32, info: CmdInfo, i: nat, sess: seq<AuthSession>)
    requires i < |sess|
    ensures NameOf(h, info.(authCnt := Counted(sess, info)), i, Prepared(sess, info)) == NameOf(h, info, i, sess)
    ensures i >= info.inHandleCnt ==> NameOf(h, info, i, sess) == []
  {
    hide Counted;
  }

  lemma NamesOfThree(e: Entities, hs: seq<u32>)
    requires |hs| <= 3
    ensures EntityNames(e, hs) == (if |hs| > 0 then EntityName(e, hs[0]) else [])
            + (if |hs| > 1 then EntityName(e, hs[1]) else []) + (if |hs| > 2 then EntityName(e, hs[2]) else [])
  {
    hide EntityName;
    if |hs| > 0 {
      assert EntityNames(e, hs) == EntityName(e, hs[0]) + EntityNames(e, hs[1..]);
      if |hs| > 1 {
        assert EntityNames(e, hs[1..]) == EntityName(e, hs[1]) + EntityNames(e, hs[1..][1..]);
        if |hs| > 2 {
          assert EntityNames(e, hs[1..][1..]) == EntityName(e, hs[2]) + EntityNames(e, hs[1..][1..][1..]);
        }
      }
    }
  }

  /** The reservation pass leaves the slots fit for the fill pass. */
  lemma PreparedSlots(t: Held, e: Entities, st: PState, sess: seq<AuthSession>, cmd: Command, rng: Rng, k: nat)
    requires Fair(t, e, st, sess, cmd, rng, k)
    ensures var n := Counted(sess, cmd.info);
      var prep := Prepared(sess, cmd.info);
      var live := Fresh(rng, k, prep[k]);
      && OneKeyed(prep, n, k) && ReservedSum(prep, n) == FillSum(prep, n)
      && live == sess[k].(nonceCaller := FreshNonce(rng, k)) && Agree(live, t)
      && forall i :: 0 <= i < n && i != k ==>
           prep[i].IsPassword() && prep[i].nonceCaller == [] && prep[i].auth == e.passwords(i)
  {
    hide ReservedSum, FillSum, DigestSize, EntityName, NameOf, KeysOf, Cipher.Error, HasBit, SentAttrs, Counted,
         Room, SetBit;
    var n := Counted(sess, cmd.info);
    SumsAgree(Prepared(sess, cmd.info), n);
  }

  lemma AbleToSend(l: Layout, t: Held, e: Entities, st: PState, sess: seq<AuthSession>, cmd: Command, rng: Rng, k: nat)
    requires Fair(t, e, st, sess, cmd, rng, k) && l.info.flags == cmd.info.flags
    requires l.encSz == if cmd.info.flags.EncWidth() == 0 then None else Some(|cmd.first|)
    ensures Able(rng, l, k, Fresh(rng, k, Prepared(sess, cmd.info)[k]))
  {
    hide SlotAgrees, DigestSize, EntityName, NameOf, Cipher.Error, HasBit, Counted, Room;
  }

  lemma SentAttrsKept(s: AuthSession, nonce: Bytes, flags: Flags)
    ensures SentAttrs(s.(nonceCaller := nonce), flags) == SentAttrs(s, flags)
  {
  }

  /** What the TPM reads off the wire: the command, one authorisation for each session, and the sealed parameters. */
  lemma CommandArrives(c: Suite, t: Held, e: Entities, st: PState, sess: seq<AuthSession>, cmd: Command,
      rng: Rng, k: nat)
    requires Fair(t, e, st, sess, cmd, rng, k)
    ensures var b := Build(st, sess, cmd);
      var after := b.sess[k := sess[k].(nonceCaller := FreshNonce(rng, k))];
      var sent := Sealed(c, t, cmd, FreshNonce(rng, k), SentAttrs(sess[k], cmd.info.flags));
      && WellFormed(b.st, b.info, b.sess, b.st.pos) && AllFit(after)
      && var l := LayoutOf(b.st, b.info, b.sess, cmd.cc, b.st.pos);
      var r := ProcessCommand(c, rng, b.sess, b.st, b.info, cmd.cc, b.st.pos);
      && r.rc == RC_SUCCESS && r.sess == after && l.info.authCnt <= |after|
      && ReadRequest(r.st.buf[..b.st.pos], cmd.info.inHandleCnt)
         == Some(Request(cmd.cc, cmd.handles, AuthList(c, l, after, 0, sent), sent))
  {
    hide Build, WellFormed, LayoutOf, ProcessCommand, ReadRequest, AuthBytes, SentParams, Sealed, ReservedSum,
         FillSum, Able, Agree, Header, HandleBytes, U32, Counted, Prepared, Fresh, FreshNonce, EncAuths, SentAttrs,
         Command.Params, AuthSzOf, TagOf, CodeOf, HandleAt, EncSzOf, Cipher.Error, Holds, SlotAgrees, NameOf,
         EntityName, HasBit, KeysOf;
    var b := Build(st, sess, cmd);
    Built(st, sess, cmd);
    BuiltWellFormed(st, sess, cmd);
    BuiltLayout(st, sess, cmd, t, e, rng, k);
    PreparedSlots(t, e, st, sess, cmd, rng, k);
    var l := LayoutOf(b.st, b.info, b.sess, cmd.cc, b.st.pos);
    AbleToSend(l, t, e, st, sess, cmd, rng, k);
    CommandWire(c, rng, k, b.sess, b.st, b.info, cmd.cc, b.st.pos);
    var live := Fresh(rng, k, b.sess[k]);
    SentIsSealed(c, l, live, t, cmd);
    var after := b.sess[k := live];
    var sent := SentParams(c, l, live, cmd.Params());
    AuthListBytes(c, l, after, 0, sent);
    var auths := AuthList(c, l, after, 0, sent);
    var r := ProcessCommand(c, rng, b.sess, b.st, b.info, cmd.cc, b.st.pos);
    SentAttrsKept(sess[k], FreshNonce(rng, k), cmd.info.flags);
    assert r.st.buf[..b.st.pos] == b.st.buf[..AuthSzPos(cmd.info) + 4] + EncAuths(auths) + sent;
    assert |EncAuths(auths)| == ReservedSum(b.sess, b.info.authCnt);
    RequestReadBack(cmd.cc, cmd.handles, auths, sent, b.st.pos);
  }

  lemma {:induction false} SlotFound(auths: seq<AuthCommand>, handle: u32, k: nat)
    requires k < |auths| && auths[k].handle == handle && forall i :: 0 <= i < k ==> auths[i].handle != handle
    ensures SlotOf(auths, handle) == k
  {
    if k > 0 {
      assert auths[0].handle != handle;
      SlotFound(auths[1..], handle, k - 1);
    }
  }

  /** The TPM's own HMAC matches, the passwords match, and it recovers the plain parameters. */
  lemma CommandAccepted(c: Suite, t: Held, e: Entities, l: Layout, after: seq<AuthSession>, k: nat,
      cmd: Command, sent: Bytes)
    requires k < l.info.authCnt <= |after| && AllFit(after) && after[k].IsKeyed() && Agree(after[k], t)
    requires l.info.flags == cmd.info.flags && l.cc == cmd.cc && l.Names() == EntityNames(e, cmd.handles)
    requires cmd.Shaped()
    requires forall i :: 0 <= i < l.info.authCnt && i != k ==>
      after[i].IsPassword() && after[i].nonceCaller == [] && after[i].auth == e.passwords(i)
    requires var attrs := SentAttrs(after[k], cmd.info.flags);
      && sent == Sealed(c, t, cmd, after[k].nonceCaller, attrs)
      && (cmd.info.flags.EncWidth() > 0 && HasBit(attrs, SESSION_DECRYPT) ==> KeysOf(t).Error(|cmd.first|) == None)
    ensures var q := Request(cmd.cc, cmd.handles, AuthList(c, l, after, 0, sent), sent);
      && SlotOf(q.auths, t.handle) == k
      && (forall i :: 0 <= i < |q.auths| ==> Authentic(c, t, e, q, i))
      && TakenIn(c, t, q.auths[k], cmd.info.flags.EncWidth(), sent) == Some(cmd.Params())
  {
    hide AuthHmac, CpHash, EntityNames, SentAttrs, HasBit, Cipher.Error, Encrypt, Deciphered, BE, Pow256, AuthList,
         Sealed, Layout.Names;
    var auths := AuthList(c, l, after, 0, sent);
    var q := Request(cmd.cc, cmd.handles, auths, sent);
    forall i | 0 <= i < |auths| ensures Authentic(c, t, e, q, i) && (i < k ==> auths[i].handle != t.handle) {
      assert auths[i] == Authorise(c, l, after[i], sent);
      CommandHmacIs(c, t.authHash, t.key, cmd.cc, EntityNames(e, cmd.handles), sent, after[i].nonceCaller, t.nonceTPM,
                    SentAttrs(after[i], cmd.info.flags));
    }
    SentAttrsBits(after[k], cmd.info.flags);
    assert auths[k] == Authorise(c, l, after[k], sent);
    SlotFound(auths, t.handle, k);
    SealedTakenIn(c, t, cmd, auths[k]);
  }

  lemma SealedTakenIn(c: Suite, t: Held, cmd: Command, a: AuthCommand)
    requires cmd.Shaped()
    requires HasBit(a.attrs, SESSION_DECRYPT) ==> cmd.info.flags.EncWidth() > 0 && KeysOf(t).Error(|cmd.first|) == None
    ensures TakenIn(c, t, a, cmd.info.flags.EncWidth(), Sealed(c, t, cmd, a.nonce, a.attrs)) == Some(cmd.Params())
  {
    hide HasBit, Cipher.Error, Encrypt, Deciphered, BE, Pow256;
    var w := cmd.info.flags.EncWidth();
    if w > 0 && HasBit(a.attrs, SESSION_DECRYPT) {
      DecipherEncipher(c, t, a.nonce, t.nonceTPM, w, cmd.first, cmd.rest);
    }
  }

  // ---- the response ----

  lemma FourParts(h: Bytes, b: Bytes, n: Bytes, out: Bytes, auths: Bytes)
    ensures var r := h + b + n + out + auths;
      var po := |h| + |b| + |n|;
      && r[..|h|] == h && r[po - |n|..po] == n && r[po..po + |out|] == out && r[po + |out|..|r|] == auths
  {
  }

  lemma HeaderParts(tag: u16, size: u32, code: u32, r: Bytes)
    requires |r| >= HEADER_SIZE && r[..HEADER_SIZE] == Header(tag, size, code)
    ensures r[0..2] == U16(tag) && r[2..6] == U32(size) && r[6..10] == U32(code)
  {
    hide U16, U32;
    var h := Header(tag, size, code);
    SliceSlice(r, 0, HEADER_SIZE, 0, 2); assert h[0..2] == U16(tag);
    SliceSlice(r, 0, HEADER_SIZE, 2, 6); assert h[2..6] == U32(size);
    SliceSlice(r, 0, HEADER_SIZE, 6, 10); assert h[6..10] == U32(code);
  }

  lemma InFront(buf: Bytes, r: Bytes, lo: nat, hi: nat)
    requires lo <= hi <= |r| <= |buf|
    ensures Splice(buf, 0, r)[lo..hi] == r[lo..hi]
  {
    assert Splice(buf, 0, r)[..|r|] == r;
    SliceSlice(Splice(buf, 0, r), 0, |r|, lo, hi);
  }

  /** Where the host finds things in a response the TPM wrote. */
  lemma ResponseLaidOut(buf: Bytes, info: CmdInfo, cc: u32, hs: seq<u32>, first: Bytes, x: Bytes, rest: Bytes,
      auths: Bytes)
    requires |hs| == info.outHandleCnt && |x| == |first| < Pow256(info.flags.DecWidth())
    requires HEADER_SIZE + |HandleBytes(hs)| + 4 + (info.flags.DecWidth() + |x| + |rest|) + |auths|
             < MAX_RESPONSE <= |buf|
    ensures var w := info.flags.DecWidth();
      var out := BE(w, |first|) + x + rest;
      var r := Respond(hs, out, auths);
      var po := HEADER_SIZE + 4 * info.outHandleCnt + 4;
      && Answer(r).Delivered(|buf|) && WantsCheck(Received(buf, r), r)
      && var rsp := Received(buf, r);
      && ReplyOf(rsp, info, cc, |r|) == Reply(info, cc, po, |out|, if w == 0 then None else Some(|first|), |r|)
      && rsp.size == |r| == po + |out| + |auths| && rsp.buf[po..po + |out|] == out
      && PState(rsp.buf, po + |out|, |r|).At(auths)
  {
    hide U16, U32, HandleBytes, Nat, BE, Pow256, Splice, Header;
    var w := info.flags.DecWidth();
    var out := BE(w, |first|) + x + rest;
    var r := Respond(hs, out, auths);
    var po := HEADER_SIZE + 4 * info.outHandleCnt + 4;
    FourParts(Header(ST_SESSIONS, |r|, RC_SUCCESS), HandleBytes(hs), U32(|out|), out, auths);
    HeaderParts(ST_SESSIONS, |r|, RC_SUCCESS, r);
    InFront(buf, r, 0, 2); InFront(buf, r, 2, 6); InFront(buf, r, 6, 10); InFront(buf, r, po - 4, po);
    InFront(buf, r, po, po + |out|); InFront(buf, r, po, po + w); InFront(buf, r, po + |out|, |r|);
    SliceSlice(r, po, po + |out|, 0, w);
    assert out[0..w] == BE(w, |first|);
    NatOfBE(w, |first|);
  }

  /** Slot k of the host gets the TPM's k-th answer. */
  lemma {:induction false} AnswerFound(
    c: Suite, t: Held, cc: u32, auths: seq<AuthCommand>, out: Bytes, buf: Bytes, size: nat, authPos: nat, k: nat)
    requires k < |auths| && |t.nonceTPM| <= MAX_DIGEST && forall i :: 0 <= i < |auths| ==> auths[i].Fits()
    requires PState(buf, authPos, size).At(EncAnswers(c, t, cc, auths, out))
    requires authPos + |EncAnswers(c, t, cc, auths, out)| == size
    ensures AuthFor(buf, size, authPos, size, k) == AnswerTo(c, t, cc, auths[k], out)
    decreases k
  {
    hide AnswerTo, EncAuthResponse, PState.At, GetAuth;
    var st := PState(buf, authPos, size);
    AtInside(st, EncAnswers(c, t, cc, auths, out));
    var a := AnswerTo(c, t, cc, auths[0], out);
    AnswerClamped(c, t, cc, auths[0], out);
    var tail := EncAnswers(c, t, cc, auths[1..], out);
    AtSplit(st, EncAuthResponse(a), tail);
    GetAuthAt(st, a);
    assert NextAuth(buf, size, authPos, size) == (a, authPos + |EncAuthResponse(a)|);
    if k > 0 { AnswerFound(c, t, cc, auths[1..], out, buf, size, authPos + |EncAuthResponse(a)|, k - 1); }
  }

  lemma AnswerClamped(c: Suite, t: Held, cc: u32, a: AuthCommand, out: Bytes)
    requires a.Fits() && |t.nonceTPM| <= MAX_DIGEST
    ensures var r := AnswerTo(c, t, cc, a, out); r.OnWire() && r.Clamp() == r && |EncAuthResponse(r)| > 0
  {
    hide AuthHmac, RpHash, DigestSize;
    var r := AnswerTo(c, t, cc, a, out);
    assert Take(r.nonce, MAX_DIGEST) == r.nonce && Take(r.hmac, MAX_DIGEST) == r.hmac;
  }

  /** The first response parameter as the TPM wrote it. */
  function FirstOut(c: Suite, t: Held, a: AuthCommand, w: nat, task: Task): (r: Bytes)
    ensures |r| == |task.first|
  {
    if w > 0 && HasBit(a.attrs, SESSION_ENCRYPT) && KeysOf(t).Error(|task.first|) == None
    then Encrypt(c, KeysOf(t), t.nonceTPM, t.nonceCaller, task.first) else task.first
  }

  /** The host finds the HMAC it expects and decrypts to what the TPM meant. */
  lemma ResponseOpened(c: Suite, l: Reply, s: AuthSession, t: Held, a: AuthCommand, task: Task, buf: Bytes)
    requires s.IsKeyed() && s.auth == t.key && s.authHash == t.authHash && s.bind == t.bind
    requires s.symmetric == t.symmetric
    requires s.nonceCaller == t.nonceCaller && 0 < |t.nonceTPM| <= MAX_DIGEST && DigestSize(t.authHash) > 0
    requires a.Fits() && a.handle != RS_PW && |task.first| < Pow256(l.info.flags.DecWidth())
    requires l.decSz == if l.info.flags.DecWidth() == 0 then None else Some(|task.first|)
    requires l.info.flags.DecWidth() > 0 && HasBit(a.attrs, SESSION_ENCRYPT) ==> KeysOf(t).Error(|task.first|) == None
    requires l.paramSz == l.info.flags.DecWidth() + |task.first| + |task.rest| && l.Inside(|buf|)
    requires buf[l.paramOff..l.paramOff + l.paramSz]
             == BE(l.info.flags.DecWidth(), |task.first|) + FirstOut(c, t, a, l.info.flags.DecWidth(), task) + task.rest
    ensures var w := l.info.flags.DecWidth();
      var out := buf[l.paramOff..l.paramOff + l.paramSz];
      var x := CheckSlot(c, l, s, AnswerTo(c, t, l.cc, a, out), buf);
      && x.rc == RC_SUCCESS && x.session == s.(nonceTPM := t.nonceTPM, hmac := x.session.hmac)
      && x.buf[l.paramOff..l.paramOff + l.paramSz] == BE(w, |task.first|) + task.first + task.rest
      && (w == 0 || !HasBit(a.attrs, SESSION_ENCRYPT) ==> x.buf == buf)
  {
    hide Encrypt, Decrypt, RpHash, AuthHmac, DigestSize, HasBit, Cipher.Error, BE, Pow256, Splice, FirstOut, Decrypted;
    var w := l.info.flags.DecWidth();
    var out := buf[l.paramOff..l.paramOff + l.paramSz];
    var r := AnswerTo(c, t, l.cc, a, out);
    ResponseHmacIs(c, t.authHash, t.key, l.cc, out, t.nonceTPM, t.nonceCaller, a.attrs);
    DecryptsToPlain(c, l, s.(nonceTPM := t.nonceTPM, hmac := r.hmac), t, a, r, task, buf);
  }

  lemma DecryptsToPlain(c: Suite, l: Reply, s: AuthSession, t: Held, a: AuthCommand, r: AuthResponse,
      task: Task, buf: Bytes)
    requires CipherOf(s) == KeysOf(t) && s.nonceCaller == t.nonceCaller && s.nonceTPM == t.nonceTPM
    requires r.attrs == a.attrs
    requires |task.first| < Pow256(l.info.flags.DecWidth())
    requires l.decSz == if l.info.flags.DecWidth() == 0 then None else Some(|task.first|)
    requires l.info.flags.DecWidth() > 0 && HasBit(a.attrs, SESSION_ENCRYPT) ==> KeysOf(t).Error(|task.first|) == None
    requires l.paramSz == l.info.flags.DecWidth() + |task.first| + |task.rest| && l.Inside(|buf|)
    requires buf[l.paramOff..l.paramOff + l.paramSz]
             == BE(l.info.flags.DecWidth(), |task.first|) + FirstOut(c, t, a, l.info.flags.DecWidth(), task) + task.rest
    ensures var w := l.info.flags.DecWidth();
      var (rc, buf') := Decrypted(c, l, s, r, buf);
      && rc == RC_SUCCESS
      && buf'[l.paramOff..l.paramOff + l.paramSz] == BE(w, |task.first|) + task.first + task.rest
      && (w == 0 || !HasBit(a.attrs, SESSION_ENCRYPT) ==> buf' == buf)
  {
    hide Encrypt, Decrypt, HasBit, Cipher.Error, BE, Pow256, Splice;
    var w := l.info.flags.DecWidth();
    var po, sz := l.paramOff, l.paramSz;
    if w > 0 && HasBit(a.attrs, SESSION_ENCRYPT) {
      var e := FirstOut(c, t, a, w, task);
      SliceSlice(buf, po, po + sz, w, w + |e|);
      SpliceMiddle(BE(w, |task.first|), e, task.rest, task.first);
      DecryptEncrypt(c, KeysOf(t), t.nonceTPM, t.nonceCaller, task.first);
      SpliceInside(buf, po, po + sz, w, task.first);
    }
  }
}
