/** Host and TPM stay in step over any number of exchanges. */
module Lockstep {
  import opened Octets
  import opened Tpm
  import opened Packets
  import opened PublicArea
  import opened Sessions
  import opened ParamEnc
  import opened Commands
  import opened CommandTheorems
  import opened Wire
  import opened Responses
  import opened ResponseTheorems
  import opened Exchange
  import opened ExchangeTheorems
  import opened Peer
  import opened TpmCrypto
  import opened PeerCrypto
  import opened PeerTheorems

  const MAX_ANSWER := 133   // a nonce and an HMAC of 64 bytes with their sizes, and the attributes

  /** The answer is one the TPM can give: it fits, and the cipher can take its first parameter if that is to be
      encrypted. */
  predicate FairTask(st: PState, s: AuthSession, cmd: Command, task: Task) {
    && 0 < |task.nonce| <= MAX_DIGEST && |task.outHandles| == cmd.info.outHandleCnt && MAX_RESPONSE <= st.size
    && |task.first| < Pow256(cmd.info.flags.DecWidth())
    && HEADER_SIZE + 4 * |task.outHandles| + 4 + (cmd.info.flags.DecWidth() + |task.first| + |task.rest|)
       + MAX_SESSION_NUM * MAX_ANSWER < MAX_RESPONSE
    && (cmd.info.flags.DecWidth() > 0 && HasBit(SentAttrs(s, cmd.info.flags), SESSION_ENCRYPT)
        ==> CipherOf(s).Error(|task.first|) == None)
  }

  lemma {:induction false} AnswersBounded(c: Suite, t: Held, cc: u32, auths: seq<AuthCommand>, out: Bytes)
    requires |t.nonceTPM| <= MAX_DIGEST && forall i :: 0 <= i < |auths| ==> auths[i].Fits()
    ensures |EncAnswers(c, t, cc, auths, out)| <= |auths| * MAX_ANSWER
  {
    hide AuthHmac, RpHash, DigestSize;
    if auths != [] { AnswersBounded(c, t, cc, auths[1..], out); }
  }

  /** The TPM after the command. */
  function Rolled(t: Held, task: Task, nonceCaller: Bytes): (r: Held) {
    t.(nonceTPM := task.nonce, nonceCaller := nonceCaller)
  }

  function OutParams(c: Suite, t: Held, a: AuthCommand, w: nat, task: Task): (r: Bytes)
    ensures |r| == w + |task.first| + |task.rest|
  {
    BE(w, |task.first|) + FirstOut(c, t, a, w, task) + task.rest
  }

  lemma GivenOutIs(c: Suite, t: Held, a: AuthCommand, w: nat, task: Task)
    requires HasBit(a.attrs, SESSION_ENCRYPT) ==> w > 0 && KeysOf(t).Error(|task.first|) == None
    ensures GivenOut(c, t, a, w, task) == Some(OutParams(c, t, a, w, task))
  {
    if HasBit(a.attrs, SESSION_ENCRYPT) { CiphersAgree(c, t, t.nonceTPM, t.nonceCaller, task.first); }
    hide HasBit, Cipher.Error, Encrypt, BE;
  }

  /** What a TPM that accepts request q answers. */
  function ResponseOf(c: Suite, t': Held, q: Request, k: nat, w: nat, task: Task): (r: Bytes)
    requires k < |q.auths| <= MAX_SESSION_NUM && |t'.nonceTPM| <= MAX_DIGEST
    requires forall i :: 0 <= i < |q.auths| ==> q.auths[i].Fits()
    requires HEADER_SIZE + 4 * |task.outHandles| + 4 + (w + |task.first| + |task.rest|)
             + MAX_SESSION_NUM * MAX_ANSWER < MAX_RESPONSE
  {
    var out := OutParams(c, t', q.auths[k], w, task);
    AnswersBounded(c, t', q.cc, q.auths, out);
    Respond(task.outHandles, out, EncAnswers(c, t', q.cc, q.auths, out))
  }

  lemma Serves(c: Suite, t: Held, e: Entities, cmd: Command, st: PState, s: AuthSession, task: Task, m: Bytes,
      q: Request, k: nat)
    requires FairTask(st, s, cmd, task) && s.IsKeyed() && Agree(s, t) && k < |q.auths| <= MAX_SESSION_NUM
    requires forall i :: 0 <= i < |q.auths| ==> q.auths[i].Fits()
    requires ReadRequest(m, cmd.info.inHandleCnt) == Some(q) && SlotOf(q.auths, t.handle) == k
    requires forall i :: 0 <= i < |q.auths| ==> Authentic(c, t, e, q, i)
    requires TakenIn(c, t, q.auths[k], cmd.info.flags.EncWidth(), q.params) == Some(cmd.Params())
    requires q.auths[k].attrs == SentAttrs(s, cmd.info.flags)
    ensures var t' := Rolled(t, task, q.auths[k].nonce);
      Serve(c, t, e, cmd.info, task, m)
      == Some(Served(t', cmd.Params(), ResponseOf(c, t', q, k, cmd.info.flags.DecWidth(), task)))
  {
    hide ReadRequest, SlotOf, Authentic, TakenIn, GivenOut, OutParams, Respond, HasBit, SentAttrs, Cipher.Error,
         HandleBytes, EncAnswers, Pow256, Command.Params;
    var t' := Rolled(t, task, q.auths[k].nonce);
    var w := cmd.info.flags.DecWidth();
    SentAttrsBits(s, cmd.info.flags);
    GivenOutIs(c, t', q.auths[k], w, task);
    AnswersBounded(c, t', q.cc, q.auths, OutParams(c, t', q.auths[k], w, task));
  }

  lemma ReplyPlace(st: PState, info: CmdInfo, cc: u32, n: nat, room: nat)
    requires st.Valid() && ReplyOf(st, info, cc, n).Inside(room)
    ensures ReplyOf(st, info, 0, 0).Inside(room)
  {
    hide GetU;
  }

  /** The host's own response processing accepts it. */
  lemma Accepts(c: Suite, t: Held, q: Request, k: nat, sess: seq<AuthSession>, info: CmdInfo, task: Task, buf: Bytes)
    requires k < |q.auths| == info.authCnt <= |sess| == MAX_SESSION_NUM
    requires forall i :: 0 <= i < |q.auths| ==> q.auths[i].Fits()
    requires OneKeyed(sess, info.authCnt, k) && q.auths[k].handle != RS_PW
    requires sess[k].auth == t.key && sess[k].authHash == t.authHash && sess[k].bind == t.bind
    requires sess[k].symmetric == t.symmetric
    requires sess[k].nonceCaller == t.nonceCaller && 0 < |t.nonceTPM| <= MAX_DIGEST && DigestSize(t.authHash) > 0
    requires |task.outHandles| == info.outHandleCnt && |task.first| < Pow256(info.flags.DecWidth())
    requires HEADER_SIZE + 4 * |task.outHandles| + 4 + (info.flags.DecWidth() + |task.first| + |task.rest|)
             + MAX_SESSION_NUM * MAX_ANSWER < MAX_RESPONSE <= |buf| < 0x8000_0000
    requires info.flags.DecWidth() > 0 && HasBit(q.auths[k].attrs, SESSION_ENCRYPT) ==>
      KeysOf(t).Error(|task.first|) == None
    ensures var w := info.flags.DecWidth();
      var b := ResponseOf(c, t, q, k, w, task);
      var plain := BE(w, |task.first|) + task.first + task.rest;
      var po := HEADER_SIZE + 4 * info.outHandleCnt + 4;
      && Answer(b).Delivered(MAX_RESPONSE) && WantsCheck(Received(buf, b), b) && Readable(Received(buf, b), info, sess)
      && var r := Accept(c, sess, buf, b, info, q.cc);
      && r.rc == RC_SUCCESS && |r.sess| == |sess|
      && r.sess[k] == sess[k].(nonceTPM := t.nonceTPM, hmac := r.sess[k].hmac)
      && po + |plain| <= |r.st.buf| && r.st.buf[po..po + |plain|] == plain
  {
    hide Respond, Received, EncAnswers, FirstOut, HandleBytes, WantsCheck, BE, Pow256, Nat, HasBit, Cipher.Error,
         DigestSize, CheckSlot, CheckSlots, AuthFor, AnswerTo, ReplyOf, PState.At, KeysOf;
    var w := info.flags.DecWidth();
    var a := q.auths[k];
    var out := OutParams(c, t, a, w, task);
    var tail := EncAnswers(c, t, q.cc, q.auths, out);
    AnswersBounded(c, t, q.cc, q.auths, out);
    ResponseLaidOut(buf, info, q.cc, task.outHandles, task.first, FirstOut(c, t, a, w, task), task.rest, tail);
    var b := ResponseOf(c, t, q, k, w, task);
    var rsp := Received(buf, b);
    var l := ReplyOf(rsp, info, q.cc, |b|);
    ReplyPlace(rsp, info, q.cc, |b|, |buf|);
    AnswerFound(c, t, q.cc, q.auths, out, rsp.buf, |b|, l.paramOff + l.paramSz, k);
    OneSlotDecides(c, l, k, 0, sess, rsp.buf, rsp.size, l.paramOff + l.paramSz);
    ResponseOpened(c, l, sess[k], t, a, task, rsp.buf);
  }

  // ---- one exchange ----

  /** One command of a run: the buffer, the session slots as the application set them up, the command, the host's random
      numbers, the slot of the session, what the TPM knows and what it will answer. */
  datatype Turn = Turn(st: PState, sess: seq<AuthSession>, cmd: Command, rng: Rng, k: nat, e: Entities, task: Task) {
    predicate Ready() { PeerTheorems.Ready(e, st, sess, cmd, rng, k) && FairTask(st, sess[k], cmd, task) }

    predicate Fair(t: Held) { Ready() && Agree(sess[k], t) }
  }

  /** What the TPM does with the command the host sends. */
  function AtTpm(c: Suite, t: Held, u: Turn): (r: Option<Served>)
    requires u.Fair(t)
  {
    var b := Build(u.st, u.sess, u.cmd);
    BuiltWellFormed(u.st, u.sess, u.cmd);
    var p := ProcessCommand(c, u.rng, b.sess, b.st, b.info, u.cmd.cc, b.st.pos);
    Serve(c, t, u.e, u.cmd.info, u.task, p.st.buf[..b.st.pos])
  }

  lemma CommandServed(c: Suite, t: Held, u: Turn)
    requires u.Fair(t)
    ensures var b := Build(u.st, u.sess, u.cmd);
      var nonce := FreshNonce(u.rng, u.k);
      && WellFormed(b.st, b.info, b.sess, b.st.pos) && u.k < b.info.authCnt
      && var r := ProcessCommand(c, u.rng, b.sess, b.st, b.info, u.cmd.cc, b.st.pos);
      && r.rc == RC_SUCCESS && r.sess == b.sess[u.k := u.sess[u.k].(nonceCaller := nonce)]
      && exists q: Request :: ServedAs(c, t, u, q, b.info.authCnt, nonce)
  {
    hide Build, WellFormed, LayoutOf, ProcessCommand, ReadRequest, Sealed, Authentic, SlotOf, TakenIn, Serve,
         AuthList, SentAttrs, HasBit, Cipher.Error, Prepared, Counted, SlotAgrees, NameOf, EntityName, EntityNames,
         ResponseOf, Layout.Names, AuthSzOf, EncSzOf, TagOf, CodeOf, HandleAt, ReservedSum, FillSum, Fresh,
         FreshNonce, Command.Params, DigestSize, Rolled;
    var b := Build(u.st, u.sess, u.cmd);
    Built(u.st, u.sess, u.cmd);
    PreparedSlots(t, u.e, u.st, u.sess, u.cmd, u.rng, u.k);
    BuiltLayout(u.st, u.sess, u.cmd, t, u.e, u.rng, u.k);
    CommandArrives(c, t, u.e, u.st, u.sess, u.cmd, u.rng, u.k);
    var nonce := FreshNonce(u.rng, u.k);
    var after := b.sess[u.k := u.sess[u.k].(nonceCaller := nonce)];
    var l := LayoutOf(b.st, b.info, b.sess, u.cmd.cc, b.st.pos);
    SentAttrsKept(u.sess[u.k], nonce, u.cmd.info.flags);
    var sent := Sealed(c, t, u.cmd, nonce, SentAttrs(u.sess[u.k], u.cmd.info.flags));
    CommandAccepted(c, t, u.e, l, after, u.k, u.cmd, sent);
    var q := Request(u.cmd.cc, u.cmd.handles, AuthList(c, l, after, 0, sent), sent);
    KeyedAuthorisation(c, l, after[u.k], sent);
    var m := ProcessCommand(c, u.rng, b.sess, b.st, b.info, u.cmd.cc, b.st.pos).st.buf[..b.st.pos];
    Serves(c, t, u.e, u.cmd, u.st, u.sess[u.k], u.task, m, q, u.k);
    assert ServedAs(c, t, u, q, b.info.authCnt, nonce);
  }

  lemma KeyedAuthorisation(c: Suite, l: Layout, s: AuthSession, params: Bytes)
    requires s.Fits() && s.IsKeyed()
    ensures var a := Authorise(c, l, s, params);
      a.nonce == s.nonceCaller && a.attrs == SentAttrs(s, l.info.flags) && a.handle == s.handle != RS_PW
  {
    hide SentAttrs, CpHash, AuthHmac;
  }

  /** The TPM accepts the command as request q and answers it. */
  predicate ServedAs(c: Suite, t: Held, u: Turn, q: Request, n: nat, nonce: Bytes)
    requires u.Fair(t)
  {
    && u.k < |q.auths| == n <= MAX_SESSION_NUM && (forall i :: 0 <= i < |q.auths| ==> q.auths[i].Fits())
    && q.cc == u.cmd.cc
    && q.auths[u.k].handle == u.sess[u.k].handle && q.auths[u.k].attrs == SentAttrs(u.sess[u.k], u.cmd.info.flags)
    && var t' := Rolled(t, u.task, nonce);
    AtTpm(c, t, u) == Some(Served(t', u.cmd.Params(), ResponseOf(c, t', q, u.k, u.cmd.info.flags.DecWidth(), u.task)))
  }

  lemma DeviceAnswers(c: Suite, t: Held, e: Entities, info: CmdInfo, task: Task, m: Bytes)
    requires |task.nonce| <= MAX_DIGEST && Serve(c, t, e, info, task, m).Some?
    ensures Device(c, t, e, info, task)(m) == Answer(Serve(c, t, e, info, task, m).value.response)
  {
    hide Serve;
  }

  lemma DeliveredToMore(a: Answer, room: nat, more: nat)
    requires a.Delivered(room) && room <= more
    ensures a.Delivered(more)
  {
  }

  /** The host's transport ends at this TPM. */
  function Link(c: Suite, t: Held, u: Turn): (r: Bytes -> Answer)
    requires u.Fair(t)
  {
    Device(c, t, u.e, u.cmd.info, u.task)
  }

  /** Where the host finds the response parameters. */
  function ParamsAt(u: Turn): (r: nat) { HEADER_SIZE + 4 * u.cmd.info.outHandleCnt + 4 }

  function MeantParams(u: Turn): (r: Bytes) {
    BE(u.cmd.info.flags.DecWidth(), |u.task.first|) + u.task.first + u.task.rest
  }

  predicate Sends(c: Suite, t: Held, u: Turn)
    requires u.Fair(t)
  {
    var b := Build(u.st, u.sess, u.cmd);
    Sendable(b.sess, b.st, b.info) && Sound(Link(c, t, u), Authorised(c, u.rng, b.sess, b.st, b.info), b.st.pos, b.info)
  }

  function AtHost(c: Suite, t: Held, u: Turn): (r: Sent)
    requires u.Fair(t) && Sends(c, t, u)
  {
    var b := Build(u.st, u.sess, u.cmd);
    SendAuth(c, u.rng, Link(c, t, u), b.sess, b.st, b.info)
  }

  /** One exchange: the TPM accepts the command and works on the parameters the host meant; the host accepts the
      response and sees the parameters the TPM meant; afterwards both hold the same pair of nonces. */
  lemma OneExchange(c: Suite, t: Held, u: Turn)
    requires u.Fair(t)
    ensures Sends(c, t, u) && AtTpm(c, t, u).Some?
    ensures var served := AtTpm(c, t, u).value;
      var r := AtHost(c, t, u);
      && r.rc == RC_SUCCESS && served.params == u.cmd.Params()
      && served.held == Rolled(t, u.task, FreshNonce(u.rng, u.k))
      && u.k < |r.sess| && Agree(r.sess[u.k], served.held) && r.sess[u.k].nonceCaller == served.held.nonceCaller
      && ParamsAt(u) + |MeantParams(u)| <= |r.st.buf|
      && r.st.buf[ParamsAt(u)..ParamsAt(u) + |MeantParams(u)|] == MeantParams(u)
  {
    hide Build, ProcessCommand, ResponseOf, WellFormed, Serve, Device, BE, Pow256, Readable, WantsCheck, Received,
         Accept, TagOf, CodeOf, Counted, Prepared, HasBit, SentAttrs, Cipher.Error, Command.Params, FreshNonce,
         Answer.Delivered, HandleAt, AuthSzOf, EncSzOf, SlotAgrees, NameOf, EntityName, ReservedSum, DigestSize,
         HandleBytes;
    var b := Build(u.st, u.sess, u.cmd);
    var info := b.info;
    Built(u.st, u.sess, u.cmd);
    BuiltWellFormed(u.st, u.sess, u.cmd);
    PreparedSlots(t, u.e, u.st, u.sess, u.cmd, u.rng, u.k);
    CommandServed(c, t, u);
    var nonce := FreshNonce(u.rng, u.k);
    var q: Request :| ServedAs(c, t, u, q, info.authCnt, nonce);
    var p := ProcessCommand(c, u.rng, b.sess, b.st, info, u.cmd.cc, b.st.pos);
    var t' := Rolled(t, u.task, nonce);
    Accepts(c, t', q, u.k, p.sess, info, u.task, p.st.buf);
    DeviceAnswers(c, t, u.e, u.cmd.info, u.task, p.st.buf[..b.st.pos]);
    DeliveredToMore(Answer(ResponseOf(c, t', q, u.k, info.flags.DecWidth(), u.task)), MAX_RESPONSE, u.st.size);
  }

  // ---- any number of exchanges ----

  /** What one exchange leaves behind on both sides. */
  datatype Step = Step(rc: int, host: AuthSession, tpm: Held, atTpm: Bytes, atHost: Bytes)

  function Play(c: Suite, t: Held, u: Turn): (r: Step)
    requires u.Fair(t)
    ensures Agree(r.host, r.tpm) && r.tpm == Rolled(t, u.task, FreshNonce(u.rng, u.k))
  {
    OneExchange(c, t, u);
    var served := AtTpm(c, t, u).value;
    var sent := AtHost(c, t, u);
    Step(sent.rc, sent.sess[u.k], served.held, served.params, sent.st.buf[ParamsAt(u)..ParamsAt(u) + |MeantParams(u)|])
  }

  /** Between exchanges the application may change anything but what makes the session the same session. */
  predicate Continues(u: Turn, h: AuthSession) {
    u.k < |u.sess| && SameSession(u.sess[u.k], h)
  }

  predicate SameSession(s: AuthSession, h: AuthSession) {
    && s.handle == h.handle && s.auth == h.auth && s.bind == h.bind && s.symmetric == h.symmetric
    && s.authHash == h.authHash && s.nonceTPM == h.nonceTPM
  }

  /** The turn takes up the session as it is: then the two sides fit together. */
  predicate Starts(u: Turn, h: AuthSession, t: Held)
    requires Agree(h, t)
    ensures Starts(u, h, t) ==> u.Fair(t)
  {
    hide Turn.Ready;
    Continues(u, h) && u.Ready()
  }

  /** A run that goes on, turn by turn, from what the host's session h has become. */
  predicate Script(c: Suite, h: AuthSession, t: Held, turns: seq<Turn>)
    requires Agree(h, t)
    decreases |turns|
  {
    hide Turn.Ready, Agree, Play;
    turns == [] || (Starts(turns[0], h, t) && var o := Play(c, t, turns[0]); Script(c, o.host, o.tpm, turns[1..]))
  }

  function Run(c: Suite, h: AuthSession, t: Held, turns: seq<Turn>): (r: seq<Step>)
    requires Agree(h, t) && Script(c, h, t, turns)
    ensures |r| == |turns|
    decreases |turns|
  {
    hide Turn.Ready, Agree, Play, Starts;
    if turns == [] then []
    else
      assert Starts(turns[0], h, t);
      var o := Play(c, t, turns[0]);
      [o] + Run(c, o.host, o.tpm, turns[1..])
  }

  /** Over a whole run every exchange succeeds on both sides, every parameter arrives as it was meant, and the two
      sides hold the same session and the same pair of nonces after each exchange. */
  lemma {:induction false} InStep(c: Suite, h: AuthSession, t: Held, turns: seq<Turn>)
    requires Agree(h, t) && Script(c, h, t, turns)
    ensures forall i :: 0 <= i < |turns| ==>
      var o := Run(c, h, t, turns)[i];
      && o.rc == RC_SUCCESS && o.atTpm == turns[i].cmd.Params() && o.atHost == MeantParams(turns[i])
      && Agree(o.host, o.tpm) && o.host.nonceCaller == o.tpm.nonceCaller
    decreases |turns|
  {
    hide Turn.Ready, AtTpm, AtHost, MeantParams, ParamsAt, Command.Params, Agree, Starts, Sends;
    if turns != [] {
      var o := Play(c, t, turns[0]);
      OneExchange(c, t, turns[0]);
      InStep(c, o.host, o.tpm, turns[1..]);
    }
  }

  // ---- there are such runs ----

  /** A session that encrypts both ways: a policy session for slot 0, an HMAC session for slot 1. */
  function SampleSession(k: nat): (r: AuthSession) {
    AuthSession(if k == 0 then 0x0300_0000 else 0x0200_0000, Zeros(WRAP_NONCE), SESSION_DECRYPT + SESSION_ENCRYPT, [],
                [1],
                SymDef(ALG_XOR, ALG_SHA256, 0), ALG_SHA256, [], [], None, false)
  }

  function SampleSlots(k: nat): (r: seq<AuthSession>)
    ensures |r| == MAX_SESSION_NUM
  {
    var s := SampleSession(k);
    var idle := s.(handle := 0);
    if k == 0 then [s, idle, idle] else [s.(handle := RS_PW, nonceCaller := []), s, idle]
  }

  /** A command that needs one authorisation and has one parameter each way, with the session in slot k. */
  function SampleTurn(k: nat): (r: Turn) {
    var flags := Flags(true, false, true, false, true, false, false, false);
    Pow256Values();
    Turn(PState(Zeros(MAX_RESPONSE), HEADER_SIZE, MAX_RESPONSE), SampleSlots(k),
         Command(CmdInfo(0, 0, 0, flags), 0x144, [], [7], []), (i: nat, n: nat) => Nonce(Zeros(n)), k,
         Entities(h => [], i => []), Task([1], [], [9], []))
  }

  lemma SampleCounted(k: nat)
    requires k <= 1
    ensures Counted(SampleTurn(k).sess, SampleTurn(k).cmd.info) == k + 1
  {
    var ss := SampleTurn(k).sess;
    var f := Some(SampleTurn(k).cmd.info.flags);
    assert CountFrom(ss, f, 2, k + 1) == k + 1;
    assert k == 0 ==> CountFrom(ss, f, 1, 1) == 1;
  }

  lemma SampleReserved(ss: seq<AuthSession>, n: nat)
    requires n <= 2 <= |ss|
    ensures ReservedSum(ss, n) == (if n > 0 then Reserved(ss[0]) else 0) + if n > 1 then Reserved(ss[1]) else 0
  {
    hide Reserved;
    if n == 2 { assert ReservedSum(ss, 2) == ReservedSum(ss, 1) + Reserved(ss[1]); }
  }

  lemma SampleRoom(k: nat)
    requires k <= 1
    ensures var u := SampleTurn(k); Room(u.st, u.sess, u.cmd)
  {
    hide BE, Zeros, Counted;
    Pow256Values();
    SampleCounted(k);
    var u := SampleTurn(k);
    CountedIs(u.sess, u.cmd.info);
    SampleReserved(PrepareFirst(u.sess, k + 1), k + 1);
  }

  lemma SampleTask(k: nat)
    requires k <= 1
    ensures var u := SampleTurn(k); FairTask(u.st, u.sess[k], u.cmd, u.task)
  {
    hide BE, Zeros;
    Pow256Values();
  }

  lemma SampleReady(k: nat)
    requires k <= 1
    ensures SampleTurn(k).Ready()
  {
    hide BE, Zeros, Counted, Room, FairTask;
    SampleCounted(k);
    SampleRoom(k);
    SampleTask(k);
    assert SampleTurn(k).sess[k].IsKeyed();
  }

  lemma CountedIs(ss: seq<AuthSession>, info: CmdInfo)
    ensures Counted(ss, info) == CountFrom(ss, Some(info.flags), 0, 0)
  {
  }

  /** The same turn any number of times, from any state in which the session is the sample's. */
  lemma {:induction false} SampleScript(c: Suite, h: AuthSession, t: Held, k: nat, turns: seq<Turn>)
    requires k <= 1 && Agree(h, t) && SameSession(SampleSession(k), h)
    requires forall i :: 0 <= i < |turns| ==> turns[i] == SampleTurn(k)
    ensures Script(c, h, t, turns)
    decreases |turns|
  {
    hide Turn.Ready, Play;
    if turns != [] {
      var u := turns[0];
      SampleReady(k);
      assert Starts(u, h, t);
      var o := Play(c, t, u);
      SampleScript(c, o.host, o.tpm, k, turns[1..]);
    }
  }

  predicate EncryptsBothWays(u: Turn) {
    && u.k < |u.sess| && HasBit(SentAttrs(u.sess[u.k], u.cmd.info.flags), SESSION_DECRYPT)
    && HasBit(SentAttrs(u.sess[u.k], u.cmd.info.flags), SESSION_ENCRYPT)
    && u.cmd.info.flags.EncWidth() > 0 && u.cmd.info.flags.DecWidth() > 0
  }

  /** A policy session in slot 0, or a password in slot 0 and an HMAC session in slot 1. */
  predicate InSlot(u: Turn, k: nat) {
    && u.k == k && |u.sess| == MAX_SESSION_NUM
    && (k == 0 ==> IsPolicySession(u.sess[0].handle))
    && (k == 1 ==> u.sess[0].IsPassword() && IsHmacSession(u.sess[1].handle))
  }

  /** The theorem is about something: whatever the primitives, there are runs of every length with encryption both
      ways, with a policy session in slot 0 and with an HMAC session in slot 1. */
  lemma RunsExist(c: Suite, k: nat, n: nat)
    requires k <= 1
    ensures exists h: AuthSession, t: Held, turns: seq<Turn> ::
      && Agree(h, t) && Script(c, h, t, turns) && |turns| == n
      && forall i :: 0 <= i < n ==> EncryptsBothWays(turns[i]) && InSlot(turns[i], k)
  {
    hide Turn.Ready, Play, Script;
    var h := SampleSession(k);
    var t := Held(h.handle, h.auth, h.bind, h.symmetric, h.authHash, h.nonceTPM, []);
    var turns := seq(n, i => SampleTurn(k));
    SampleScript(c, h, t, k, turns);
    assert EncryptsBothWays(SampleTurn(k));
  }
}
