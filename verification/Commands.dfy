/** Building an authorised command: the blind reservation of the auth area, then filling it in place
    (TPM2_GetCmdAuthCount, TPM2_Packet_AppendAuth and TPM2_CommandProcess). */
module Commands {
  import opened Octets
  import opened Tpm
  import opened Packets
  import opened Sessions
  import opened ParamEnc

  // ---- how many sessions a command carries ----

  /** Does the command need an authorisation in this slot? */
  predicate AuthReq(info: Option<Flags>, slot: nat) {
    info.Some? &&
    ((slot == 0 && (info.value.user1 || info.value.admin || info.value.dup)) || (slot == 1 && info.value.user2))
  }

  /** Without command information every flag reads as set. */
  predicate HmacWanted(info: Option<Flags>, attrs: byte) {
    || (HasBit(attrs, SESSION_DECRYPT) && (info == None || info.value.EncWidth() > 0))
    || (HasBit(attrs, SESSION_ENCRYPT) && (info == None || info.value.DecWidth() > 0))
    || HasBit(attrs, SESSION_AUDIT)
  }

  /** Is the session in this slot one more authorisation, with count of them before it? */
  predicate Accepts(info: Option<Flags>, slot: nat, s: AuthSession, count: nat) {
    if s.IsPassword() && AuthReq(info, slot) then true
    else if count > 0 && IsHmacSession(s.handle) then HmacWanted(info, s.attrs)
    else AuthReq(info, slot) && IsPolicySession(s.handle)
  }

  /** Does the search end here? A counted slot or an unwanted HMAC session behind a counted one lets it go on. */
  predicate Stops(info: Option<Flags>, slot: nat, s: AuthSession, count: nat) {
    && !AuthReq(info, slot)
    && !(count > 0 && IsHmacSession(s.handle))
  }

  function CountFrom(sess: seq<AuthSession>, info: Option<Flags>, slot: nat, count: nat): (r: nat)
    requires slot <= |sess|
    ensures count <= r <= count + (|sess| - slot)
    decreases |sess| - slot
  {
    if slot == |sess| then count
    else if Accepts(info, slot, sess[slot], count) then CountFrom(sess, info, slot + 1, count + 1)
    else if Stops(info, slot, sess[slot], count) then count
    else CountFrom(sess, info, slot + 1, count)
  }

  method GetCmdAuthCount(session: array<AuthSession>, info: Option<Flags>) returns (authSessCount: nat)
    requires session.Length == MAX_SESSION_NUM
    ensures authSessCount == CountFrom(session[..], info, 0, 0)
    ensures authSessCount <= MAX_SESSION_NUM
  {
    authSessCount := 0;
    var i := 0;
    while i < MAX_SESSION_NUM
      invariant 0 <= i <= MAX_SESSION_NUM && authSessCount <= i
      invariant CountFrom(session[..], info, 0, 0) == CountFrom(session[..], info, i, authSessCount)
    {
      var s := session[i];
      var authReq := AuthReq(info, i);
      if s.IsPassword() && authReq {
        authSessCount := authSessCount + 1;
      } else if authSessCount > 0 && IsHmacSession(s.handle) {
        if HmacWanted(info, s.attrs) {
          authSessCount := authSessCount + 1;
        }
      } else if authReq && IsPolicySession(s.handle) {
        authSessCount := authSessCount + 1;
      } else if !authReq {
        break;
      }
      i := i + 1;
    }
  }

  // ---- the wire form of one authorisation ----

  datatype AuthCommand = AuthCommand(handle: u32, nonce: Bytes, attrs: byte, hmac: Bytes) {
    predicate Fits() { |nonce| <= MAX_DIGEST && |hmac| <= MAX_DIGEST }
  }

  function EncAuthCommand(a: AuthCommand): (r: Bytes)
    requires a.Fits()
    ensures |r| == 9 + |a.nonce| + |a.hmac|
  {
    U32(a.handle) + Sized(a.nonce) + U8(a.attrs) + Sized(a.hmac)
  }

  function AppAuthCommand(st: PState, a: AuthCommand): (r: PState)
    requires st.Valid() && a.Fits()
    ensures r.Valid() && |r.buf| == |st.buf| && r.size == st.size
    ensures st.pos <= r.pos && (r.pos == st.pos || r.pos <= st.size)
  {
    AppSized(App(AppSized(App(st, U32(a.handle)), a.nonce), U8(a.attrs)), a.hmac)
  }

  lemma AppAuthCommandFits(st: PState, a: AuthCommand)
    requires st.Valid() && a.Fits() && st.pos + |EncAuthCommand(a)| <= st.size
    ensures AppAuthCommand(st, a) == App(st, EncAuthCommand(a))
  {
    hide U32, U16, Sized, AppSized, Splice;
    var h2 := U32(a.handle) + Sized(a.nonce);
    var h3 := h2 + U8(a.attrs);
    AppSizedFits(App(st, U32(a.handle)), a.nonce);
    AppApp(st, U32(a.handle), Sized(a.nonce));
    AppApp(st, h2, U8(a.attrs));
    AppSizedFits(App(st, h3), a.hmac);
    AppApp(st, h3, Sized(a.hmac));
  }

  method AppendAuthCmd(p: Packet, a: AuthCommand)
    requires p.Valid() && a.Fits()
    modifies p`pos, p.buf
    ensures p.Valid() && p.State() == AppAuthCommand(old(p.State()), a)
  {
    hide App, U32;
    p.AppendU32(a.handle);
    p.AppendSized(a.nonce);
    p.AppendU8(a.attrs);
    p.AppendSized(a.hmac);
  }

  // ---- reserving the auth area ----

  const WRAP_NONCE := 32   // digest size of WOLFTPM2_WRAP_DIGEST, SHA-256

  function Resize(b: Bytes, n: nat): (r: Bytes)
    ensures |r| == n
  {
    if n <= |b| then b[..n] else b + Zeros(n - |b|)
  }

  /** What AppendAuth does to a session: a password session continues, any other gets a nonce of the wrapper's size. */
  function Prepare(s: AuthSession): (r: AuthSession)
    ensures s.Fits() ==> r.Fits()
  {
    if s.IsPassword() then s.(attrs := SetBit(s.attrs, SESSION_CONTINUE))
    else s.(nonceCaller := Resize(s.nonceCaller, WRAP_NONCE))
  }

  /** Bytes AppendAuth advances over for a prepared session. */
  function Reserved(s: AuthSession): (r: nat) {
    9 + (if s.IsPassword() then |s.auth|
         else |s.nonceCaller| + if !s.IsKeyed() then 0
                                else if !s.policyAuth && |s.auth| > 0 then |s.auth|
                                else DigestSize(s.authHash))
  }

  function ReservedSum(sess: seq<AuthSession>, n: nat): (r: nat)
    requires n <= |sess|
  {
    if n == 0 then 0 else ReservedSum(sess, n - 1) + Reserved(sess[n - 1])
  }

  function PrepareFirst(sess: seq<AuthSession>, n: nat): (r: seq<AuthSession>)
    requires n <= |sess|
    ensures |r| == |sess|
    ensures forall i :: 0 <= i < |sess| ==> r[i] == if i < n then Prepare(sess[i]) else sess[i]
  {
    seq(|sess|, i requires 0 <= i < |sess| => if i < n then Prepare(sess[i]) else sess[i])
  }

  datatype Reservation = Reservation(st: PState, sess: seq<AuthSession>, info: CmdInfo, tag: u16)

  /** Bytes of the auth area, its size field included. */
  function Reserves(sess: seq<AuthSession>, info: CmdInfo): (r: nat) {
    var n := CountFrom(sess, Some(info.flags), 0, 0);
    if n == 0 then 0 else 4 + ReservedSum(PrepareFirst(sess, n), n)
  }

  function AppendAuthTo(st: PState, sess: seq<AuthSession>, info: CmdInfo): (r: Reservation)
    requires st.Valid() && st.pos + 4 <= st.size
    ensures r.st.Valid() && |r.sess| == |sess| && r.info.authCnt <= |sess|
    ensures r.st.pos == st.pos + Reserves(sess, info) && r.st.size == st.size
  {
    var n := CountFrom(sess, Some(info.flags), 0, 0);
    if n == 0 then Reservation(st, sess, info.(authCnt := 0), ST_NO_SESSIONS)
    else
      var sess' := PrepareFirst(sess, n);
      var st' := Place(App(st, Zeros(4)).Skip(ReservedSum(sess', n)), st.pos, 4).0;
      Reservation(st', sess', info.(authCnt := n), ST_SESSIONS)
  }

  // ---- filling the auth area ----

  /** A failure may come when part of the bytes were drawn already. */
  datatype RngReply = Nonce(bytes: Bytes) | RngError(rc: int, partial: Bytes) {
    predicate Answers(n: nat) {
      match this case Nonce(b) => |b| == n case RngError(rc, p) => rc != RC_SUCCESS && |p| <= n
    }
  }

  /** The random number generator: the reply to the request for n bytes made for a slot. */
  type Rng = f: (nat, nat) -> RngReply |
      forall i: nat, n: nat :: f(i, n).Answers(n)
    witness (i: nat, n: nat) => Nonce(Zeros(n))

  /** What is fixed before the slots are filled: command code, entity names, where the parameters lie, the first one's
      size. */
  datatype Layout = Layout(
    info: CmdInfo, cc: u32, name1: Bytes, name2: Bytes, name3: Bytes, paramOff: nat, cmdSz: nat, encSz: Option<nat>)
  {
    function Names(): (r: Bytes) { name1 + name2 + name3 }

    function EncOff(): (r: nat) { paramOff + info.flags.EncWidth() }

    predicate Inside(size: nat) {
      && paramOff <= cmdSz <= size
      && (encSz.Some? ==> EncOff() + encSz.value <= cmdSz)
    }
  }

  /** The name of handle idx: kept by the session for objects and NV indices, the handle itself for anything else. */
  function NameOf(h: u32, info: CmdInfo, idx: nat, sess: seq<AuthSession>): (r: Bytes)
    requires idx < |sess|
  {
    if idx >= info.inHandleCnt then []
    else if h >= 0x8000_0000 || 0x0100_0000 <= h <= 0x01FF_FFFF then sess[idx].name
    else U32(h)
  }

  function HandleAt(st: PState, idx: nat): (r: u32)
    requires st.Valid()
  {
    Pow256Values();
    GetU(st.(pos := HEADER_SIZE + 4 * idx), 4).0
  }

  /** The attributes a session is sent with: no decrypt or encrypt for a command that has no such parameter. */
  function SentAttrs(s: AuthSession, flags: Flags): (r: byte) {
    if !s.IsKeyed() then s.attrs
    else
      var a := if flags.EncWidth() == 0 then ClearBit(s.attrs, SESSION_DECRYPT) else s.attrs;
      if flags.DecWidth() == 0 then ClearBit(a, SESSION_ENCRYPT) else a
  }

  /** Is the first parameter encrypted on behalf of this session? */
  predicate Encrypts(l: Layout, s: AuthSession) {
    l.encSz.Some? && s.IsKeyed() && HasBit(SentAttrs(s, l.info.flags), SESSION_DECRYPT)
  }

  datatype Filled = Filled(rc: int, session: AuthSession, st: PState)

  function Refresh(s: AuthSession, nonce: Bytes): (r: AuthSession)
    requires |nonce| == |s.nonceCaller|
    ensures s.Fits() ==> r.Fits()
  {
    if s.IsPassword() then s else s.(nonceCaller := nonce)
  }

  function Overlay(was: Bytes, front: Bytes): (r: Bytes)
    requires |front| <= |was|
    ensures |r| == |was|
  {
    front + was[|front|..]
  }

  /** The buffer after the first parameter was encrypted, if the session asks for it, or the error of that. */
  function Encrypted(c: Suite, l: Layout, s: AuthSession, buf: Bytes): (r: (int, Bytes))
    requires l.Inside(|buf|)
    ensures |r.1| == |buf|
  {
    if !Encrypts(l, s) then (RC_SUCCESS, buf)
    else if CipherOf(s).Error(l.encSz.value).Some? then (CipherOf(s).Error(l.encSz.value).value, buf)
    else
      var plain := buf[l.EncOff()..l.EncOff() + l.encSz.value];
      (RC_SUCCESS, Splice(buf, l.EncOff(), Encrypt(c, CipherOf(s), s.nonceCaller, s.nonceTPM, plain)))
  }

  /** The authorisation of a session whose nonce is fresh, over the parameters as they will be sent. */
  function Authorise(c: Suite, l: Layout, s: AuthSession, params: Bytes): (r: AuthCommand)
    requires s.Fits()
    ensures r.Fits()
  {
    var attrs := SentAttrs(s, l.info.flags);
    if s.IsPassword() then AuthCommand(s.handle, s.nonceCaller, attrs, s.auth)
    else if s.IsKeyed() then
      var cp := CpHash(c, s.authHash, l.cc, l.Names(), params);
      AuthCommand(s.handle, s.nonceCaller, attrs, AuthHmac(c, s.authHash, s.auth, cp, s.nonceCaller, s.nonceTPM, attrs))
    else AuthCommand(s.handle, s.nonceCaller, attrs, [])
  }

  /** One turn of the loop; st.pos is where the authorisation goes. */
  function FillSlot(c: Suite, l: Layout, reply: RngReply, s: AuthSession, st: PState): (r: Filled)
    requires st.Valid() && l.Inside(st.size) && s.Fits() && reply.Answers(|s.nonceCaller|)
    ensures r.st.Valid() && r.st.size == st.size && |r.st.buf| == |st.buf| && r.session.Fits()
    ensures st.pos <= r.st.pos && (r.st.pos == st.pos || r.st.pos <= st.size)
  {
    if !s.IsPassword() && reply.RngError? then Filled(reply.rc, Refresh(s, Overlay(s.nonceCaller, reply.partial)), st)
    else
      var s' := if s.IsPassword() then s else Refresh(s, reply.bytes);
      var (rc, buf') := Encrypted(c, l, s', st.buf);
      if rc != RC_SUCCESS then Filled(rc, s', st)
      else if s'.IsKeyed() && DigestSize(s'.authHash) == 0 then Filled(BAD_FUNC_ARG, s', st.(buf := buf'))
      else
        var a := Authorise(c, l, s', buf'[l.paramOff..l.cmdSz]);
        Filled(RC_SUCCESS, s', AppAuthCommand(st.(buf := buf'), a))
  }

  predicate AllFit(sess: seq<AuthSession>) { forall i :: 0 <= i < |sess| ==> sess[i].Fits() }

  datatype Process = Process(rc: int, sess: seq<AuthSession>, st: PState)

  function FillSlots(c: Suite, l: Layout, rng: Rng, i: nat, sess: seq<AuthSession>, st: PState): (r: Process)
    requires i <= l.info.authCnt <= |sess| && AllFit(sess) && st.Valid() && l.Inside(st.size)
    ensures r.st.Valid() && r.st.size == st.size && |r.st.buf| == |st.buf| && |r.sess| == |sess| && AllFit(r.sess)
    ensures st.pos <= r.st.pos && (r.st.pos == st.pos || r.st.pos <= st.size)
    decreases l.info.authCnt - i
  {
    if i == l.info.authCnt then Process(RC_SUCCESS, sess, st)
    else
      var f := FillSlot(c, l, rng(i, |sess[i].nonceCaller|), sess[i], st);
      if f.rc != RC_SUCCESS then Process(f.rc, sess[i := f.session], f.st)
      else FillSlots(c, l, rng, i + 1, sess[i := f.session], f.st)
  }

  function AuthSzPos(info: CmdInfo): (r: nat) { HEADER_SIZE + 4 * info.inHandleCnt }

  function AuthSzOf(buf: Bytes, info: CmdInfo): (r: nat)
    requires AuthSzPos(info) + 4 <= |buf|
  {
    Nat(buf[AuthSzPos(info)..AuthSzPos(info) + 4])
  }

  function ParamOffOf(buf: Bytes, info: CmdInfo): (r: nat)
    requires AuthSzPos(info) + 4 <= |buf|
  {
    AuthSzPos(info) + 4 + AuthSzOf(buf, info)
  }

  function EncSzOf(st: PState, info: CmdInfo): (r: Option<nat>)
    requires st.Valid() && AuthSzPos(info) + 4 <= |st.buf|
  {
    var w := info.flags.EncWidth();
    if w == 0 then None else Some(GetU(st.(pos := ParamOffOf(st.buf, info)), w).0)
  }

  function LayoutOf(st: PState, info: CmdInfo, sess: seq<AuthSession>, cc: u32, cmdSz: nat): (r: Layout)
    requires st.Valid() && AuthSzPos(info) + 4 <= st.size && |sess| == MAX_SESSION_NUM
    ensures r.info == info && r.cc == cc && r.cmdSz == cmdSz
    ensures r.paramOff == ParamOffOf(st.buf, info) && r.encSz == EncSzOf(st, info)
  {
    Layout(info, cc, NameOf(HandleAt(st, 0), info, 0, sess), NameOf(HandleAt(st, 1), info, 1, sess),
           NameOf(HandleAt(st, 2), info, 2, sess), ParamOffOf(st.buf, info), cmdSz, EncSzOf(st, info))
  }

  /** What the callers guarantee: header, handles, auth area and parameters lie inside the command in that order,
      and so does the whole first parameter when it is one that may be encrypted. */
  predicate WellFormed(st: PState, info: CmdInfo, sess: seq<AuthSession>, cmdSz: nat) {
    && st.Valid() && AuthSzPos(info) + 4 <= cmdSz <= st.size
    && |sess| == MAX_SESSION_NUM && AllFit(sess)
    && info.authCnt <= MAX_SESSION_NUM && info.inHandleCnt <= 3
    && ParamOffOf(st.buf, info) <= cmdSz
    && (EncSzOf(st, info).Some? ==> ParamOffOf(st.buf, info) + info.flags.EncWidth() + EncSzOf(st, info).value <= cmdSz)
  }

  /** All slots filled, the size field not yet checked. */
  function Filling(c: Suite, rng: Rng, sess: seq<AuthSession>, st: PState, info: CmdInfo, cc: u32,
      cmdSz: nat): (r: Process)
    requires WellFormed(st, info, sess, cmdSz)
    ensures r.st.Valid() && |r.sess| == MAX_SESSION_NUM && |r.st.buf| == |st.buf| && r.st.size == st.size
  {
    FillSlots(c, LayoutOf(st, info, sess, cc, cmdSz), rng, 0, sess, App(st.(pos := AuthSzPos(info)), Zeros(4)))
  }

  function ProcessCommand(c: Suite, rng: Rng, sess: seq<AuthSession>, st: PState, info: CmdInfo, cc: u32,
      cmdSz: nat): (r: Process)
    requires WellFormed(st, info, sess, cmdSz)
    ensures r.st.Valid() && |r.sess| == MAX_SESSION_NUM && |r.st.buf| == |st.buf| && r.st.size == st.size
  {
    var f := Filling(c, rng, sess, st, info, cc, cmdSz);
    if f.rc != RC_SUCCESS then f
    else
      var (st', n) := Place(f.st, AuthSzPos(info), 4);
      Process(if AuthSzOf(st.buf, info) != n then BUFFER_E else RC_SUCCESS, f.sess, st')
  }

  /** Reserving the size field again touches neither the handles before it nor the parameters behind it. */
  lemma MarkKeeps(st: PState, mark: nat, pos: nat, n: nat)
    requires st.Valid() && mark + 4 <= st.size && (pos + n <= mark || mark + 4 <= pos)
    ensures GetU(App(st.(pos := mark), Zeros(4)).(pos := pos), n).0 == GetU(st.(pos := pos), n).0
  {
    hide Nat, Pow256;
    if pos + n <= st.size {
      SpliceFrame(st.buf, mark, Zeros(4), pos, pos + n);
    }
  }

  class Context {
    var session: array<AuthSession>

    constructor (s: array<AuthSession>)
      ensures session == s
    {
      session := s;
    }

    /** Each counted session is prepared and the position goes over what it will take. */
    method ReserveSlots(p: Packet, n: nat)
      requires p.Valid() && session.Length == MAX_SESSION_NUM && n <= MAX_SESSION_NUM
      modifies p`pos, session
      ensures p.Valid() && session[..] == PrepareFirst(old(session[..]), n)
      ensures p.State() == old(p.State()).Skip(ReservedSum(PrepareFirst(old(session[..]), n), n))
    {
      hide Reserved, Prepare, PrepareFirst;
      ghost var before := session[..];
      ghost var want := PrepareFirst(before, n);
      var i := 0;
      while i < n
        invariant 0 <= i <= n && p.Valid() && p.State() == old(p.State()).Skip(ReservedSum(want, i))
        invariant forall j :: 0 <= j < MAX_SESSION_NUM ==> session[j] == if j < i then want[j] else before[j]
      {
        session[i] := Prepare(session[i]);
        p.pos := p.pos + Reserved(session[i]);
        i := i + 1;
      }
      assert session[..] == want;
    }

    method AppendAuth(p: Packet, info: CmdInfo) returns (info': CmdInfo, tag: u16)
      requires p.Valid() && p.pos + 4 <= p.size && session.Length == MAX_SESSION_NUM
      modifies p`pos, p.buf, session
      ensures p.Valid()
      ensures Reservation(p.State(), session[..], info', tag) == AppendAuthTo(old(p.State()), old(session[..]), info)
    {
      hide App, CountFrom, ReservedSum, PrepareFirst;
      var n := GetCmdAuthCount(session, Some(info.flags));
      info' := info.(authCnt := n);
      tag := ST_NO_SESSIONS;
      if n > 0 {
        var mark := p.MarkU32();
        ReserveSlots(p, n);
        var _ := p.PlaceSize(mark, 4);
        tag := ST_SESSIONS;
      }
    }

    method EncryptFirst(c: Suite, l: Layout, s: AuthSession, buf: array<byte>) returns (rc: int)
      requires l.Inside(buf.Length) && s.IsKeyed()
      modifies buf
      ensures (rc, buf[..]) == Encrypted(c, l, s, old(buf[..]))
    {
      hide Splice, Encrypt, Cipher.Error, HasBit;
      rc := RC_SUCCESS;
      if l.encSz.Some? && HasBit(SentAttrs(s, l.info.flags), SESSION_DECRYPT) {
        rc := ParamEncCmdRequest(c, s, buf, l.EncOff(), l.encSz.value);
      }
    }

    /** One turn of the loop of CommandProcess. */
    method FillSlotAt(c: Suite, l: Layout, rng: Rng, i: nat, p: Packet) returns (rc: int)
      requires p.Valid() && session.Length == MAX_SESSION_NUM && i < MAX_SESSION_NUM
      requires l.Inside(p.size) && session[i].Fits()
      modifies p`pos, p.buf, session
      ensures p.Valid()
      ensures Filled(rc, session[i], p.State()) ==
              FillSlot(c, l, old(rng(i, |session[i].nonceCaller|)), old(session[i]), old(p.State()))
      ensures session[..] == old(session[..])[i := session[i]]
    {
      hide Splice, CpHash, AuthHmac, AppAuthCommand, Encrypt, Cipher.Error, EncAuthCommand, DigestSize, HasBit;
      var s := session[i];
      if !s.IsPassword() {
        var reply := rng(i, |s.nonceCaller|);
        if reply.RngError? {
          session[i] := s.(nonceCaller := Overlay(s.nonceCaller, reply.partial));
          return reply.rc;
        }
        s := s.(nonceCaller := reply.bytes);
        session[i] := s;
      }
      var auth := AuthCommand(s.handle, s.nonceCaller, SentAttrs(s, l.info.flags), []);
      if s.IsPassword() {
        auth := auth.(hmac := s.auth);
      } else if s.IsKeyed() {
        rc := EncryptFirst(c, l, s, p.buf);
        if rc != RC_SUCCESS { return; }
        var hash;
        rc, hash := CalcCpHash(c, s.authHash, l.cc, l.name1, l.name2, l.name3, p.buf[l.paramOff..l.cmdSz]);
        if rc != RC_SUCCESS { return; }
        var hmac;
        rc, hmac := CalcHmac(c, s.authHash, s.auth, hash, s.nonceCaller, s.nonceTPM, auth.attrs);
        if rc != RC_SUCCESS { return; }
        auth := auth.(hmac := hmac);
      }
      AppendAuthCmd(p, auth);
      rc := RC_SUCCESS;
    }

    /** A handle and its name, for the command parameter hash. */
    method GetName(p: Packet, info: CmdInfo, idx: nat, ghost before: PState) returns (name: Bytes)
      requires p.Valid() && session.Length == MAX_SESSION_NUM && idx < 3
      requires before.Valid() && AuthSzPos(info) + 4 <= before.size
      requires p.State() == App(before.(pos := AuthSzPos(info)), Zeros(4)).(pos := HEADER_SIZE + 4 * idx)
      modifies p`pos
      ensures p.Valid()
      ensures name == NameOf(HandleAt(before, idx), info, idx, session[..])
    {
      hide GetU, App;
      var h := p.ParseU32();
      if idx < info.inHandleCnt { MarkKeeps(before, AuthSzPos(info), HEADER_SIZE + 4 * idx, 4); }
      name := [];
      if idx < info.inHandleCnt {
        if h >= 0x8000_0000 || 0x0100_0000 <= h <= 0x01FF_FFFF {
          name := session[idx].name;
        } else {
          name := U32(h);
        }
      }
    }

    method GetNames(p: Packet, info: CmdInfo, ghost before: PState) returns (name1: Bytes, name2: Bytes, name3: Bytes)
      requires p.Valid() && session.Length == MAX_SESSION_NUM
      requires before.Valid() && AuthSzPos(info) + 4 <= before.size
      requires p.State() == App(before.(pos := AuthSzPos(info)), Zeros(4))
      modifies p`pos
      ensures p.Valid() && p.State() == old(p.State())
      ensures name1 == NameOf(HandleAt(before, 0), info, 0, session[..])
      ensures name2 == NameOf(HandleAt(before, 1), info, 1, session[..])
      ensures name3 == NameOf(HandleAt(before, 2), info, 2, session[..])
    {
      hide App, NameOf, HandleAt;
      var authPos := p.pos;
      p.pos := HEADER_SIZE;
      name1 := GetName(p, info, 0, before);
      p.pos := HEADER_SIZE + 4;
      name2 := GetName(p, info, 1, before);
      p.pos := HEADER_SIZE + 8;
      name3 := GetName(p, info, 2, before);
      p.pos := authPos;
    }

    /** Where everything lies; the position ends at the start of the auth area's data, its size field reserved again. */
    method FindLayout(p: Packet, info: CmdInfo, cc: u32, cmdSz: nat) returns (l: Layout, authSz: nat, mark: nat)
      requires p.Valid() && session.Length == MAX_SESSION_NUM && AuthSzPos(info) + 4 <= p.size && info.inHandleCnt <= 3
      modifies p`pos, p.buf
      ensures p.Valid() && mark == AuthSzPos(info) && authSz == AuthSzOf(old(p.buf[..]), info)
      ensures l == LayoutOf(old(p.State()), info, session[..], cc, cmdSz)
      ensures p.State() == App(old(p.State()).(pos := mark), Zeros(4))
    {
      hide Nat, Pow256, App, NameOf, HandleAt;
      ghost var before := p.State();
      p.pos := HEADER_SIZE + 4 * info.inHandleCnt;
      authSz := p.ParseU32();
      p.pos := p.pos - 4;
      AppWhole(before.(pos := p.pos), Zeros(4));
      mark := p.MarkU32();
      var authPos := p.pos;
      p.pos := p.pos + authSz;
      var paramOff := p.pos;
      var encSz := None;
      if info.flags.EncWidth() > 0 {
        MarkKeeps(before, mark, paramOff, info.flags.EncWidth());
        var n := p.ParseU(info.flags.EncWidth());
        encSz := Some(n);
      }
      p.pos := authPos;
      var name1, name2, name3 := GetNames(p, info, before);
      l := Layout(info, cc, name1, name2, name3, paramOff, cmdSz, encSz);
    }

    method CommandProcess(c: Suite, rng: Rng, p: Packet, info: CmdInfo, cc: u32, cmdSz: nat) returns (rc: int)
      requires p.Valid() && session.Length == MAX_SESSION_NUM && WellFormed(p.State(), info, session[..], cmdSz)
      modifies p`pos, p.buf, session
      ensures p.Valid()
      ensures Process(rc, session[..], p.State()) ==
              ProcessCommand(c, rng, old(session[..]), old(p.State()), info, cc, cmdSz)
    {
      hide LayoutOf, App, AuthSzOf, FillSlot, Nat;
      var l, authSz, mark := FindLayout(p, info, cc, cmdSz);
      ghost var all := FillSlots(c, l, rng, 0, session[..], p.State());
      rc := RC_SUCCESS;
      var i := 0;
      while i < info.authCnt
        invariant 0 <= i <= info.authCnt && p.Valid() && p.size == old(p.size) && p.buf == old(p.buf)
        invariant AllFit(session[..]) && rc == RC_SUCCESS
        invariant FillSlots(c, l, rng, i, session[..], p.State()) == all
      {
        rc := FillSlotAt(c, l, rng, i, p);
        if rc != RC_SUCCESS { return; }
        i := i + 1;
      }
      var actual := p.PlaceSize(mark, 4);
      if authSz != actual { return BUFFER_E; }
    }
  }
}
