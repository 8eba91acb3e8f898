/** An idealised TPM: how sections 16, 18.7, 18.8, 19.6.5 and 21 of TPM 2.0 Part 1 have it read, check and answer an
    authorised command. It works on the bytes alone: names, hashes, HMACs, keys and responses are its own formulas. */
module Peer {
  import opened Octets
  import opened Tpm
  import opened Packets
  import opened PublicArea
  import opened Structures
  import opened Sessions
  import opened TpmCrypto
  import opened Commands
  import opened Exchange

  /** The TPM's side of one session. */
  datatype Held = Held(handle: u32, key: Bytes, bind: Option<Bytes>, symmetric: SymDef, authHash: u16,
                       nonceTPM: Bytes, nonceCaller: Bytes)
  {
    /** The session's key, then the authorisation value of the entity it is bound to. */
    function Secret(): (r: TpmCrypto.Secret) {
      TpmCrypto.Secret(authHash, if bind.Some? then key + bind.value else key, symmetric.algorithm, symmetric.keyBits,
                       symmetric.mode)
    }
  }

  /** What the TPM knows of its entities: their names, and the passwords that authorise a command's handles. */
  datatype Entities = Entities(names: u32 -> Bytes, passwords: nat -> Bytes)

  /** What the TPM is going to answer. */
  datatype Task = Task(nonce: Bytes, outHandles: seq<u32>, first: Bytes, rest: Bytes)

  // ---- reading ----

  datatype Request = Request(cc: u32, handles: seq<u32>, auths: seq<AuthCommand>, params: Bytes)

  function EncAuths(auths: seq<AuthCommand>): (r: Bytes)
    requires forall i :: 0 <= i < |auths| ==> auths[i].Fits()
  {
    if auths == [] then [] else EncAuthCommand(auths[0]) + EncAuths(auths[1..])
  }

  function ReadAuth(st: PState): (r: (AuthCommand, PState))
    requires st.Valid()
    ensures r.0.Fits() && r.1.Valid() && r.1.buf == st.buf && r.1.size == st.size
  {
    Pow256Values();
    var (h, s1) := GetU(st, 4);
    var (nonce, s2) := GetSized(s1, MAX_DIGEST);
    var (attrs, s3) := GetU(s2, 1);
    var (hmac, s4) := GetSized(s3, MAX_DIGEST);
    (AuthCommand(h, nonce, attrs, hmac), s4)
  }

  /** Authorisations up to the end of the area; none may be cut short or longer than a digest. */
  function ReadAuths(st: PState): (r: Option<seq<AuthCommand>>)
    requires st.Valid() && st.pos <= st.size
    ensures r.Some? ==> forall i :: 0 <= i < |r.value| ==> r.value[i].Fits()
    decreases st.size - st.pos
  {
    if st.pos == st.size then Some([])
    else
      var (a, s1) := ReadAuth(st);
      if s1.pos != st.pos + |EncAuthCommand(a)| || s1.pos > st.size then None
      else
        var rest := ReadAuths(s1);
        if rest == None then None else Some([a] + rest.value)
  }

  function ReadHandles(b: Bytes, n: nat): (r: seq<u32>)
    requires 4 * n <= |b|
    ensures |r| == n
  {
    if n == 0 then [] else Pow256Values(); ReadHandles(b, n - 1) + [Nat(b[4 * (n - 1)..4 * n])]
  }

  function ReadRequest(m: Bytes, handleCnt: nat): (r: Option<Request>)
    ensures r.Some? ==> forall i :: 0 <= i < |r.value.auths| ==> r.value.auths[i].Fits()
  {
    var head := HEADER_SIZE + 4 * handleCnt + 4;
    if |m| < head || Nat(m[..2]) != ST_SESSIONS || Nat(m[2..6]) != |m| then None
    else
      var authSz := Nat(m[head - 4..head]);
      if head + authSz > |m| then None
      else
        var auths := ReadAuths(PState(m, head, head + authSz));
        Pow256Values();
        if auths == None then None
        else Some(Request(Nat(m[6..10]), ReadHandles(m[10..head - 4], handleCnt), auths.value, m[head + authSz..]))
  }

  // ---- checking ----

  /** The most significant octet of a handle is its type: 01 an NV index, 80 and above an object. */
  predicate HasOwnName(h: u32) { h / 0x100_0000 == 0x01 || h / 0x100_0000 >= 0x80 }

  /** PCRs, sessions and permanent entities are their own names. */
  function EntityName(e: Entities, h: u32): (r: Bytes) { if HasOwnName(h) then e.names(h) else BE(4, h) }

  function EntityNames(e: Entities, hs: seq<u32>): (r: Bytes) {
    if hs == [] then [] else EntityName(e, hs[0]) + EntityNames(e, hs[1..])
  }

  predicate Authentic(c: Suite, t: Held, e: Entities, q: Request, i: nat)
    requires i < |q.auths|
  {
    var a := q.auths[i];
    if a.handle == RS_PW then a.nonce == [] && a.hmac == e.passwords(i)
    else
      && a.handle == t.handle
      && a.hmac == c.hmac(t.authHash, t.key,
                          c.hash(t.authHash, BE(4, q.cc) + EntityNames(e, q.handles) + q.params)
                          + a.nonce + t.nonceTPM + [a.attrs])
  }

  // ---- the first parameter ----

  /** Parameters whose first one, behind a size field of w bytes, was passed through a cipher. */
  function Deciphered(c: Suite, x: Secret, newer: Bytes, older: Bytes, w: nat, params: Bytes): (r: Option<Bytes>) {
    if |params| < w then None
    else
      var n := Nat(params[..w]);
      if w + n > |params| || !x.Capable() then None
      else Some(params[..w] + x.Open(c, newer, older, params[w..w + n]) + params[w + n..])
  }

  function Enciphered(c: Suite, x: Secret, newer: Bytes, older: Bytes, w: nat, first: Bytes,
      rest: Bytes): (r: Option<Bytes>) {
    if !x.Capable() then None else Some(BE(w, |first|) + x.Seal(c, newer, older, first) + rest)
  }

  /** Without encryption the parameters are taken and given as they are; a session may not ask for encryption of a
      parameter the command or the response does not have. */
  function TakenIn(c: Suite, t: Held, a: AuthCommand, w: nat, params: Bytes): (r: Option<Bytes>) {
    if !HasBit(a.attrs, SESSION_DECRYPT) then Some(params)
    else if w == 0 then None
    else Deciphered(c, t.Secret(), a.nonce, t.nonceTPM, w, params)
  }

  function GivenOut(c: Suite, t: Held, a: AuthCommand, w: nat, task: Task): (r: Option<Bytes>) {
    if !HasBit(a.attrs, SESSION_ENCRYPT) then Some(BE(w, |task.first|) + task.first + task.rest)
    else if w == 0 then None
    else Enciphered(c, t.Secret(), t.nonceTPM, t.nonceCaller, w, task.first, task.rest)
  }

  // ---- answering ----

  function AnswerTo(c: Suite, t: Held, cc: u32, a: AuthCommand, params: Bytes): (r: AuthResponse)
    requires a.Fits()
  {
    if a.handle == RS_PW then AuthResponse([], a.attrs, [])
    else
      var rp := c.hash(t.authHash, BE(4, RC_SUCCESS) + BE(4, cc) + params);
      AuthResponse(t.nonceTPM, a.attrs, c.hmac(t.authHash, t.key, rp + t.nonceTPM + t.nonceCaller + [a.attrs]))
  }

  function EncAnswers(c: Suite, t: Held, cc: u32, auths: seq<AuthCommand>, params: Bytes): (r: Bytes)
    requires forall i :: 0 <= i < |auths| ==> auths[i].Fits()
    requires |t.nonceTPM| <= MAX_DIGEST
  {
    if auths == [] then []
    else EncAuthResponse(AnswerTo(c, t, cc, auths[0], params)) + EncAnswers(c, t, cc, auths[1..], params)
  }

  function Respond(outHandles: seq<u32>, params: Bytes, auths: Bytes): (r: Bytes)
    requires HEADER_SIZE + |HandleBytes(outHandles)| + 4 + |params| + |auths| < MAX_RESPONSE
    ensures |r| == HEADER_SIZE + |HandleBytes(outHandles)| + 4 + |params| + |auths|
  {
    Header(ST_SESSIONS, HEADER_SIZE + |HandleBytes(outHandles)| + 4 + |params| + |auths|, RC_SUCCESS)
    + HandleBytes(outHandles) + U32(|params|) + params + auths
  }

  /** The TPM after a command it accepted: its session, the command parameters it worked on, and its response. */
  datatype Served = Served(held: Held, params: Bytes, response: Bytes)

  function SlotOf(auths: seq<AuthCommand>, handle: u32): (r: nat)
    ensures r <= |auths| && (r < |auths| ==> auths[r].handle == handle)
  {
    if auths == [] || auths[0].handle == handle then 0 else 1 + SlotOf(auths[1..], handle)
  }

  function Serve(c: Suite, t: Held, e: Entities, info: CmdInfo, task: Task, m: Bytes): (r: Option<Served>)
    requires |task.nonce| <= MAX_DIGEST
  {
    var read := ReadRequest(m, info.inHandleCnt);
    if read == None then None
    else
      var q := read.value;
      var k := SlotOf(q.auths, t.handle);
      if k == |q.auths| || exists i :: 0 <= i < |q.auths| && !Authentic(c, t, e, q, i) then None
      else
        var a := q.auths[k];
        var t' := t.(nonceTPM := task.nonce, nonceCaller := a.nonce);
        var plain := TakenIn(c, t, a, info.flags.EncWidth(), q.params);
        var out := GivenOut(c, t', a, info.flags.DecWidth(), task);
        if plain == None || out == None then None
        else
          var auths := EncAnswers(c, t', q.cc, q.auths, out.value);
          if HEADER_SIZE + |HandleBytes(task.outHandles)| + 4 + |out.value| + |auths| >= MAX_RESPONSE then None
          else Some(Served(t', plain.value, Respond(task.outHandles, out.value, auths)))
  }

  /** A command the TPM does not accept is answered with an error code. */
  function Device(c: Suite, t: Held, e: Entities, info: CmdInfo, task: Task): (r: Bytes -> Answer)
    requires |task.nonce| <= MAX_DIGEST
  {
    m =>
      var s := Serve(c, t, e, info, task, m);
      if s == None then Answer(Header(ST_NO_SESSIONS, HEADER_SIZE, RC_FAILURE)) else Answer(s.value.response)
  }

  // ---- reading what was written ----

  lemma ReadAuthAt(st: PState, a: AuthCommand)
    requires a.Fits() && st.At(EncAuthCommand(a))
    ensures ReadAuth(st) == (a, st.Skip(|EncAuthCommand(a)|))
  {
    hide GetU, GetSized, Sized, PState.At, U32;
    var p := U32(a.handle) + Sized(a.nonce);
    AtSplit(st, p + U8(a.attrs), Sized(a.hmac));
    AtSplit(st, p, U8(a.attrs));
    AtSplit(st, U32(a.handle), Sized(a.nonce));
    GetUAt(st, U32(a.handle));
    GetSizedAt(st.Skip(4), a.nonce, MAX_DIGEST);
    GetUAt(st.Skip(|p|), U8(a.attrs));
    assert Nat(U8(a.attrs)) == a.attrs;
    GetSizedAt(st.Skip(|p| + 1), a.hmac, MAX_DIGEST);
    assert Take(a.nonce, MAX_DIGEST) == a.nonce && Take(a.hmac, MAX_DIGEST) == a.hmac;
  }

  lemma {:induction false} ReadAuthsAt(st: PState, auths: seq<AuthCommand>)
    requires forall i :: 0 <= i < |auths| ==> auths[i].Fits()
    requires st.At(EncAuths(auths)) && st.pos + |EncAuths(auths)| == st.size
    ensures ReadAuths(st) == Some(auths)
    decreases |auths|
  {
    hide ReadAuth, EncAuthCommand, PState.At;
    assert st.pos <= st.size && st.Valid() by { AtInside(st, EncAuths(auths)); }
    if auths != [] {
      var e := EncAuthCommand(auths[0]);
      AtSplit(st, e, EncAuths(auths[1..]));
      ReadAuthAt(st, auths[0]);
      AtInside(st.Skip(|e|), EncAuths(auths[1..]));
      ReadAuthsAt(st.Skip(|e|), auths[1..]);
      assert [auths[0]] + auths[1..] == auths;
    }
  }

  lemma AtInside(st: PState, bs: Bytes)
    requires st.At(bs)
    ensures st.Valid() && st.pos + |bs| <= st.size
  {
  }

  lemma {:induction false} ReadHandlesBack(hs: seq<u32>)
    ensures ReadHandles(HandleBytes(hs), |hs|) == hs
  {
    hide U32, Nat;
    if hs != [] {
      var p := hs[..|hs| - 1];
      ReadHandlesBack(p);
      ReadHandlesPrefix(HandleBytes(p), U32(hs[|hs| - 1]), |p|);
      assert HandleBytes(hs)[4 * |p|..4 * |hs|] == U32(hs[|hs| - 1]);
    }
  }

  lemma {:induction false} ReadHandlesPrefix(b: Bytes, d: Bytes, n: nat)
    requires 4 * n <= |b|
    ensures ReadHandles(b + d, n) == ReadHandles(b, n)
  {
    hide Nat;
    if n > 0 {
      ReadHandlesPrefix(b, d, n - 1);
      assert (b + d)[4 * (n - 1)..4 * n] == b[4 * (n - 1)..4 * n];
    }
  }

  /** A well-formed command is read as what it was made of. */
  lemma RequestReadBack(cc: u32, handles: seq<u32>, auths: seq<AuthCommand>, params: Bytes, size: u32)
    requires forall i :: 0 <= i < |auths| ==> auths[i].Fits()
    requires |EncAuths(auths)| < 0x1_0000_0000
    requires size == HEADER_SIZE + |HandleBytes(handles)| + 4 + |EncAuths(auths)| + |params|
    ensures var e := EncAuths(auths);
      ReadRequest(Header(ST_SESSIONS, size, cc) + HandleBytes(handles) + U32(|e|) + e + params, |handles|)
      == Some(Request(cc, handles, auths, params))
  {
    hide U16, U32, HandleBytes, EncAuths, Nat, BE, Pow256, ReadAuths, ReadHandles;
    var h, b, n, d := Header(ST_SESSIONS, size, cc), HandleBytes(handles), U32(|EncAuths(auths)|), EncAuths(auths);
    var m := h + b + n + d + params;
    var head := HEADER_SIZE + |b| + 4;
    assert |m| == size;
    assert m[..2] == U16(ST_SESSIONS) && m[2..6] == U32(size);
    assert m[6..10] == U32(cc);
    assert m[10..head - 4] == b;
    assert m[head - 4..head] == n;
    assert m[head + |d|..] == params;
    var st := PState(m, head, head + |d|);
    assert st.At(d) by { assert m[head..head + |d|] == d; }
    ReadAuthsAt(st, auths);
    ReadHandlesBack(handles);
  }
}
