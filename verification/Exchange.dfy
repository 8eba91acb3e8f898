/** Building a command, sending it and checking its answer (the command wrappers' pattern and TPM2_SendCommandAuth). */
module Exchange {
  import opened Octets
  import opened Tpm
  import opened Packets
  import opened Sessions
  import opened ParamEnc
  import opened Commands
  import opened Responses

  const MAX_RESPONSE := 4096

  // ---- building ----

  /** A command's content; first is its first parameter when that one has a size field of its own. */
  datatype Command = Command(info: CmdInfo, cc: u32, handles: seq<u32>, first: Bytes, rest: Bytes) {
    predicate Shaped() {
      && |handles| == info.inHandleCnt <= 3
      && |first| < Pow256(info.flags.EncWidth())
    }

    /** The parameters with the first one replaced by data. */
    function ParamsWith(data: Bytes): (r: Bytes) { BE(info.flags.EncWidth(), |data|) + data + rest }

    function Params(): (r: Bytes) { ParamsWith(first) }
  }

  function HandleBytes(hs: seq<u32>): (r: Bytes)
    ensures |r| == 4 * |hs|
  {
    if hs == [] then [] else HandleBytes(hs[..|hs| - 1]) + U32(hs[|hs| - 1])
  }

  function Header(tag: u16, size: u32, code: u32): (r: Bytes)
    ensures |r| == HEADER_SIZE
  {
    U16(tag) + U32(size) + U32(code)
  }

  /** The header is written last, in front of everything else. */
  function Finalize(st: PState, tag: u16, cc: u32): (r: PState)
    requires st.Valid() && st.pos < 0x1_0000_0000
    ensures r.Valid() && |r.buf| == |st.buf|
  {
    App(App(App(st.(pos := 0), U16(tag)), U32(st.pos)), U32(cc)).(pos := st.pos)
  }

  function Build(st: PState, sess: seq<AuthSession>, cmd: Command): (r: Reservation)
    requires Room(st, sess, cmd)
    ensures r.st.Valid()
  {
    var a := AppendAuthTo(App(st, HandleBytes(cmd.handles)), sess, cmd.info);
    a.(st := Finalize(App(a.st, cmd.Params()), a.tag, cmd.cc))
  }

  predicate Room(st: PState, sess: seq<AuthSession>, cmd: Command) {
    && st.Valid() && st.pos == HEADER_SIZE && |st.buf| < 0x8000_0000 && cmd.Shaped() && |sess| == MAX_SESSION_NUM
    && HEADER_SIZE + |HandleBytes(cmd.handles)| + 4 + Reserves(sess, cmd.info) + |cmd.Params()| <= st.size
  }

  lemma FinalizeWhole(st: PState, tag: u16, cc: u32)
    requires st.Valid() && st.pos < 0x1_0000_0000 && HEADER_SIZE <= st.size
    ensures Finalize(st, tag, cc) == st.(buf := Splice(st.buf, 0, Header(tag, st.pos, cc)))
  {
    hide U16, U32, App, Splice;
    var s := st.(pos := 0);
    AppWhole(s, U16(tag));
    AppApp(s, U16(tag), U32(st.pos));
    AppWhole(s, U16(tag) + U32(st.pos));
    AppApp(s, U16(tag) + U32(st.pos), U32(cc));
    AppWhole(s, Header(tag, st.pos, cc));
  }

  method FinalizePacket(p: Packet, tag: u16, cc: u32) returns (cmdSz: nat)
    requires p.Valid() && p.pos < 0x1_0000_0000
    modifies p`pos, p.buf
    ensures p.Valid() && cmdSz == old(p.pos) && p.State() == Finalize(old(p.State()), tag, cc)
  {
    hide App, U16, U32;
    cmdSz := p.pos;
    p.pos := 0;
    p.AppendU16(tag);
    p.AppendU32(cmdSz);
    p.AppendU32(cc);
    p.pos := cmdSz;
  }

  method AppendHandles(p: Packet, hs: seq<u32>)
    requires p.Valid() && p.pos + 4 * |hs| <= p.size
    modifies p`pos, p.buf
    ensures p.Valid() && p.State() == App(old(p.State()), HandleBytes(hs))
  {
    hide App, U32;
    ghost var before := p.State();
    AppWhole(before, []);
    SpliceSelf(before.buf, before.pos, 0);
    var i := 0;
    while i < |hs|
      invariant 0 <= i <= |hs| && p.Valid() && p.size == old(p.size) && p.buf == old(p.buf)
      invariant p.State() == App(before, HandleBytes(hs[..i]))
    {
      assert hs[..i + 1][..i] == hs[..i];
      AppApp(before, HandleBytes(hs[..i]), U32(hs[i]));
      p.AppendU32(hs[i]);
      i := i + 1;
    }
    assert hs[..i] == hs;
  }

  /** The pattern of every command wrapper: handles, reserved authorisations, parameters, header. */
  method BuildCommand(ctx: Context, p: Packet, cmd: Command) returns (info: CmdInfo, tag: u16)
    requires p.Valid() && ctx.session.Length == MAX_SESSION_NUM && Room(p.State(), ctx.session[..], cmd)
    modifies p`pos, p.buf, ctx.session
    ensures p.Valid()
    ensures Reservation(p.State(), ctx.session[..], info, tag) == Build(old(p.State()), old(ctx.session[..]), cmd)
  {
    hide App, AppendAuthTo, ReservedSum, CountFrom, HandleBytes, BE;
    AppWhole(p.State(), HandleBytes(cmd.handles));
    AppendHandles(p, cmd.handles);
    info, tag := ctx.AppendAuth(p, cmd.info);
    var w := cmd.info.flags.EncWidth();
    p.AppendBytes(BE(w, |cmd.first|) + cmd.first + cmd.rest);
    var _ := FinalizePacket(p, tag, cmd.cc);
  }

  // ---- sending ----

  /** How far a response of n announced bytes reaches: its header is always read. */
  function Reach(n: nat): (r: nat) { if n < HEADER_SIZE then HEADER_SIZE else n }

  /** What a transport returns: as many bytes of response as it announces, the header at least; or an error and what
      it had read into the front of the buffer by then. */
  datatype Answer = Answer(bytes: Bytes) | Lost(rc: int, left: Bytes) {
    predicate Delivered(room: nat) {
      match this
      case Answer(b) =>
        HEADER_SIZE <= |b| <= room && Announced(b) < MAX_RESPONSE && |b| == Reach(Announced(b))
      case Lost(rc, left) => rc != RC_SUCCESS && |left| <= room
    }
  }

  /** The size and the response code a response header holds. */
  function Announced(b: Bytes): (r: nat)
    requires HEADER_SIZE <= |b|
  {
    Nat(b[2..6])
  }

  function CodeIn(b: Bytes): (r: nat)
    requires HEADER_SIZE <= |b|
  {
    Nat(b[6..10])
  }

  datatype Sent = Sent(rc: int, sess: seq<AuthSession>, st: PState)

  function TagOf(st: PState): (r: nat)
    requires st.Valid()
  {
    GetU(st.(pos := 0), 2).0
  }

  function CodeOf(st: PState): (r: u32)
    requires st.Valid()
  {
    Pow256Values();
    GetU(st.(pos := 6), 4).0
  }

  /** What the caller guarantees about an unsent command. */
  predicate Sendable(sess: seq<AuthSession>, st: PState, info: CmdInfo) {
    && st.Valid() && HEADER_SIZE <= st.pos <= st.size && |st.buf| < 0x8000_0000
    && (TagOf(st) == ST_SESSIONS && info.authCnt > 0 ==> WellFormed(st, info, sess, st.pos))
  }

  /** The command as it goes out: unchanged, or with its authorisations filled in. */
  function Authorised(c: Suite, rng: Rng, sess: seq<AuthSession>, st: PState, info: CmdInfo): (r: Process)
    requires Sendable(sess, st, info)
    ensures r.st.Valid() && |r.st.buf| == |st.buf| && r.st.size == st.size
  {
    if TagOf(st) != ST_SESSIONS then Process(RC_SUCCESS, sess, st)
    else if info.authCnt < 1 then Process(RC_AUTH_MISSING, sess, st)
    else ProcessCommand(c, rng, sess, st, info, CodeOf(st), st.pos)
  }

  /** The packet once it holds a response; its size is the announced one. */
  function Received(buf: Bytes, b: Bytes): (r: PState)
    requires HEADER_SIZE <= |b| <= |buf| && Announced(b) <= |buf|
    ensures r.Valid() && |r.buf| == |buf|
  {
    PState(Splice(buf, 0, b), HEADER_SIZE, Announced(b))
  }

  predicate WantsCheck(st: PState, b: Bytes)
    requires st.Valid() && HEADER_SIZE <= |b|
  {
    CodeIn(b) == RC_SUCCESS && TagOf(st) == ST_SESSIONS
  }

  /** The transport delivers, and a response with sessions has its parameters inside the buffer. */
  predicate Sound(device: Bytes -> Answer, p: Process, cmdSz: nat, info: CmdInfo) {
    && p.st.Valid() && cmdSz <= |p.st.buf|
    && (p.rc == RC_SUCCESS ==>
          var a := device(p.st.buf[..cmdSz]);
          && a.Delivered(p.st.size)
          && (a.Answer? && WantsCheck(Received(p.st.buf, a.bytes), a.bytes) ==>
                Readable(Received(p.st.buf, a.bytes), info, p.sess)))
  }

  /** What becomes of an answer. */
  function Accept(c: Suite, sess: seq<AuthSession>, buf: Bytes, b: Bytes, info: CmdInfo, cc: u32): (r: Sent)
    requires HEADER_SIZE <= |b| <= |buf| && Announced(b) <= |buf|
    requires WantsCheck(Received(buf, b), b) ==> Readable(Received(buf, b), info, sess)
  {
    var rsp := Received(buf, b);
    if !WantsCheck(rsp, b) then Sent(CodeIn(b), sess, rsp)
    else
      var o := ProcessResponse(c, sess, rsp, info, cc, rsp.size);
      Sent(o.rc, o.sess, rsp.(buf := o.buf))
  }

  function SendAuth(c: Suite, rng: Rng, device: Bytes -> Answer, sess: seq<AuthSession>, st: PState,
      info: CmdInfo): (r: Sent)
    requires Sendable(sess, st, info) && Sound(device, Authorised(c, rng, sess, st, info), st.pos, info)
  {
    var p := Authorised(c, rng, sess, st, info);
    if p.rc != RC_SUCCESS then Sent(p.rc, p.sess, p.st)
    else
      var a := device(p.st.buf[..st.pos]);
      if a.Lost? then Sent(a.rc, p.sess, PState(Splice(p.st.buf, 0, a.left), st.pos, p.st.size))
      else Accept(c, p.sess, p.st.buf, a.bytes, info, CodeOf(st))
  }

  /** A response is checked when it reports success and starts with the tag of a response with sessions; it is parsed
      up to the size it announces. */
  predicate HasSessions(b: Bytes)
    requires HEADER_SIZE <= |b|
  {
    Nat(b[2..6]) >= 2 && Nat(b[..2]) == ST_SESSIONS
  }

  lemma WantsCheckIff(buf: Bytes, b: Bytes)
    requires HEADER_SIZE <= |b| <= |buf| && Announced(b) <= |buf|
    ensures WantsCheck(Received(buf, b), b) <==> Nat(b[6..10]) == RC_SUCCESS && HasSessions(b)
  {
    hide Nat, Pow256;
    assert Splice(buf, 0, b)[0..2] == Splice(buf, 0, b)[0..|b|][0..2] == b[..2];
  }

  /** What a call comes to, told from the bytes of the answer: nothing is sent after an error of the command pass; a
      lost answer ends with the transport's error; an error code in the response is returned as it is, with the
      sessions as the command pass left them; a success without sessions is taken unchecked. */
  lemma AnswerDecides(c: Suite, rng: Rng, device: Bytes -> Answer, sess: seq<AuthSession>, st: PState, info: CmdInfo)
    requires Sendable(sess, st, info) && Sound(device, Authorised(c, rng, sess, st, info), st.pos, info)
    ensures var p := Authorised(c, rng, sess, st, info);
      var r := SendAuth(c, rng, device, sess, st, info);
      && (p.rc != RC_SUCCESS ==> r == Sent(p.rc, p.sess, p.st))
      && (p.rc == RC_SUCCESS ==>
            var a := device(p.st.buf[..st.pos]);
            && (a.Lost? ==> r.rc == a.rc != RC_SUCCESS && r.sess == p.sess && r.st.buf == Splice(p.st.buf, 0, a.left))
            && (a.Answer? ==>
                  && (r.rc == RC_SUCCESS ==> Nat(a.bytes[6..10]) == 0)
                  && (Nat(a.bytes[6..10]) != 0 ==> r.rc == Nat(a.bytes[6..10]))
                  && (Nat(a.bytes[6..10]) != 0 || !HasSessions(a.bytes) ==>
                        && r.rc == Nat(a.bytes[6..10]) && r.sess == p.sess
                        && r.st == PState(Splice(p.st.buf, 0, a.bytes), HEADER_SIZE, Nat(a.bytes[2..6])))))
  {
    hide Nat, Authorised, ProcessResponse, Readable, WantsCheck, HasSessions, Splice, CodeOf;
    var p := Authorised(c, rng, sess, st, info);
    if p.rc == RC_SUCCESS {
      var a := device(p.st.buf[..st.pos]);
      if a.Answer? { WantsCheckIff(p.st.buf, a.bytes); }
    }
  }

  method AuthoriseCommand(c: Suite, rng: Rng, ctx: Context, p: Packet, info: CmdInfo) returns (rc: int, cmdCode: u32)
    requires p.Valid() && ctx.session.Length == MAX_SESSION_NUM && Sendable(ctx.session[..], p.State(), info)
    modifies p`pos, p.buf, ctx.session
    ensures p.Valid() && cmdCode == CodeOf(old(p.State()))
    ensures Process(rc, ctx.session[..], p.State()) == Authorised(c, rng, old(ctx.session[..]), old(p.State()), info)
  {
    hide WellFormed, ProcessCommand, GetU, Pow256;
    var cmdSz := p.pos;
    p.pos := 0;
    var tag := p.ParseU16();
    p.pos := 6;
    cmdCode := p.ParseU32();
    p.pos := cmdSz;
    rc := RC_SUCCESS;
    if tag == ST_SESSIONS {
      if info.authCnt < 1 { return RC_AUTH_MISSING, cmdCode; }
      rc := ctx.CommandProcess(c, rng, p, info, cmdCode, cmdSz);
    }
  }

  /** TPM2_Packet_Parse: from here on the packet ends where the response ends. */
  method ParseResponse(p: Packet) returns (rc: int)
    requires p.Valid() && HEADER_SIZE <= p.size && Announced(p.buf[..]) <= p.buf.Length
    modifies p`pos, p`size
    ensures p.Valid() && rc == CodeIn(p.buf[..]) && p.size == Announced(p.buf[..]) && p.pos == HEADER_SIZE
  {
    hide Nat, Pow256;
    p.pos := 2;
    var respSz := p.ParseU32();
    rc := p.ParseU32();
    p.size := respSz;
  }

  lemma SplicedHeader(buf: Bytes, b: Bytes)
    requires HEADER_SIZE <= |b| <= |buf|
    ensures Announced(Splice(buf, 0, b)) == Announced(b) && CodeIn(Splice(buf, 0, b)) == CodeIn(b)
  {
    hide Nat;
    assert Splice(buf, 0, b)[2..6] == b[2..6] && Splice(buf, 0, b)[6..10] == b[6..10];
  }

  method CheckAnswer(c: Suite, ctx: Context, p: Packet, b: Bytes, info: CmdInfo, cc: u32) returns (rc: int)
    requires p.Valid() && ctx.session.Length == MAX_SESSION_NUM && HEADER_SIZE <= p.size
    requires HEADER_SIZE <= |b| <= p.buf.Length && Announced(b) <= p.buf.Length
    requires WantsCheck(Received(p.buf[..], b), b) ==> Readable(Received(p.buf[..], b), info, ctx.session[..])
    modifies p`pos, p`size, p.buf, ctx.session
    ensures p.Valid()
    ensures Sent(rc, ctx.session[..], p.State()) == Accept(c, old(ctx.session[..]), old(p.buf[..]), b, info, cc)
  {
    hide Readable, ProcessResponse, GetU, Pow256, Nat, Splice, Announced, CodeIn;
    SplicedHeader(p.buf[..], b);
    ghost var rsp := Received(p.buf[..], b);
    CopyInto(p.buf, 0, b);
    rc := ParseResponse(p);
    p.pos := 0;
    var tag := p.ParseU16();
    if rc == RC_SUCCESS && tag == ST_SESSIONS {
      p.pos := HEADER_SIZE;
      assert p.State() == rsp;
      rc := ResponseProcess(c, ctx, p, info, cc, p.size);
    }
    p.pos := HEADER_SIZE;
  }

  method SendCommandAuth(c: Suite, rng: Rng, device: Bytes -> Answer, ctx: Context, p: Packet,
      info: CmdInfo) returns (rc: int)
    requires p.Valid() && ctx.session.Length == MAX_SESSION_NUM && Sendable(ctx.session[..], p.State(), info)
    requires Sound(device, Authorised(c, rng, ctx.session[..], p.State(), info), p.pos, info)
    modifies p`pos, p`size, p.buf, ctx.session
    ensures p.Valid()
    ensures Sent(rc, ctx.session[..], p.State()) ==
            SendAuth(c, rng, device, old(ctx.session[..]), old(p.State()), info)
    ensures var sent := Authorised(c, rng, old(ctx.session[..]), old(p.State()), info);
      sent.rc == RC_SUCCESS && device(sent.st.buf[..old(p.pos)]).Answer? ==>
        var b := device(sent.st.buf[..old(p.pos)]).bytes;
        && (rc == RC_SUCCESS ==> Nat(b[6..10]) == 0)
        && (Nat(b[6..10]) != 0 ==> rc == Nat(b[6..10]) && ctx.session[..] == sent.sess)
  {
    hide Authorised, Accept, WantsCheck, Readable, CodeOf, WellFormed, HasSessions, Nat;
    AnswerDecides(c, rng, device, ctx.session[..], p.State(), info);
    var cmdSz := p.pos;
    var cmdCode;
    rc, cmdCode := AuthoriseCommand(c, rng, ctx, p, info);
    if rc != RC_SUCCESS { return; }
    p.pos := cmdSz;
    var answer := device(p.buf[..cmdSz]);
    if answer.Lost? {
      CopyInto(p.buf, 0, answer.left);
      return answer.rc;
    }
    rc := CheckAnswer(c, ctx, p, answer.bytes, info, cmdCode);
  }
}
