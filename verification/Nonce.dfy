/** Filling a nonce from the TPM's random number generator (TPM2_GetNonceNoLock of tpm2.c without the host's
    generator). */
module NonceLoop {
  import opened Octets
  import opened Tpm
  import opened Packets
  import opened ParamEnc
  import opened Commands
  import opened Exchange

  const MAX_RNG_REQ_SIZE := 32
  const CC_GET_RANDOM: u32 := 0x17B
  const BUFFER_SIZE := 76       // a header and a sized digest
  const PAYLOAD := 12           // behind header and size field

  /** The TPM's answer to the k-th request; it may depend on both in any way. */
  datatype Source = Source(reply: (nat, Bytes) -> Answer) {
    function At(k: nat, m: Bytes): (r: Answer) { reply(k, m) }
  }

  /** The size field of a reply, 0 when the reply ends before it. */
  function OutSize(b: Bytes): (r: nat)
    requires HEADER_SIZE <= |b| <= BUFFER_SIZE
  {
    if Announced(b) < PAYLOAD || |b| < PAYLOAD then 0 else Nat(b[HEADER_SIZE..PAYLOAD])
  }

  /** A reply is delivered, and one with random bytes holds as many as its size field says. */
  predicate Covered(a: Answer) {
    && a.Delivered(BUFFER_SIZE)
    && (a.Answer? && CodeIn(a.bytes) == RC_SUCCESS && OutSize(a.bytes) > 0 ==> PAYLOAD + OutSize(a.bytes) <= |a.bytes|)
  }

  ghost predicate AllCovered(s: Source) { forall k: nat, m: Bytes :: Covered(s.At(k, m)) }

  function Request(n: nat): (r: Bytes)
    requires 0 < n
  {
    Header(ST_NO_SESSIONS, PAYLOAD, CC_GET_RANDOM) + U16(Min(n, MAX_RNG_REQ_SIZE))
  }

  datatype Gathered = Gathered(rc: int, bytes: Bytes)

  /** One reply to a request made with n bytes missing: the bytes it brings, or the error it ends with. */
  function Take1(a: Answer, n: nat): (r: Gathered)
    requires Covered(a)
    ensures r.rc == RC_SUCCESS ==> 0 < |r.bytes| <= n && |r.bytes| <= MAX_RNG_REQ_SIZE
  {
    match a
    case Lost(rc, _) => Gathered(rc, [])
    case Answer(b) =>
      if CodeIn(b) != RC_SUCCESS then Gathered(CodeIn(b), [])
      else
        var outSz := OutSize(b);
        if outSz == 0 || outSz > MAX_RNG_REQ_SIZE || outSz > n then Gathered(BAD_FUNC_ARG, [])
        else Gathered(RC_SUCCESS, b[PAYLOAD..PAYLOAD + outSz])
  }

  /** The replies from the k-th on, until n bytes are there: success means exactly n bytes, each from one reply, in
      order. */
  function Gather(s: Source, k: nat, n: nat): (r: Gathered)
    requires AllCovered(s)
    ensures |r.bytes| <= n && (r.rc == RC_SUCCESS <==> |r.bytes| == n)
    decreases n
  {
    if n == 0 then Gathered(RC_SUCCESS, [])
    else
      var one := Take1(s.At(k, Request(n)), n);
      if one.rc != RC_SUCCESS then Gathered(one.rc, [])
      else
        var rest := Gather(s, k + 1, n - |one.bytes|);
        Gathered(rest.rc, one.bytes + rest.bytes)
  }

  /** A TPM that reads the request and returns as many bytes as it asks for. */
  predicate Asks(m: Bytes) {
    |m| == 12 && Nat(m[..2]) == 0x8001 && Nat(m[2..6]) == 12 && Nat(m[6..10]) == 0x17B && 0 < Nat(m[10..12]) <= 32
  }

  ghost predicate Generous(s: Source) {
    forall k: nat, m: Bytes :: Asks(m) ==>
      var a := s.At(k, m);
      a.Answer? && |a.bytes| >= PAYLOAD && Nat(a.bytes[6..10]) == 0 && Nat(a.bytes[2..6]) == |a.bytes|
      && Nat(a.bytes[10..12]) == Nat(m[10..12])
  }

  lemma RequestAsks(n: nat)
    requires n > 0
    ensures Asks(Request(n)) && Nat(Request(n)[10..12]) == Min(n, 32)
  {
    hide U16, U32, Nat;
    var m := Request(n);
    assert m[..2] == U16(ST_NO_SESSIONS) && m[2..6] == U32(PAYLOAD) && m[6..10] == U32(CC_GET_RANDOM);
    assert m[10..12] == U16(Min(n, MAX_RNG_REQ_SIZE));
  }

  /** With such a TPM every nonce is filled, 32 bytes a request and the rest with the last one. */
  lemma {:induction false} GenerousFills(s: Source, k: nat, n: nat)
    requires AllCovered(s) && Generous(s)
    ensures Gather(s, k, n).rc == RC_SUCCESS && |Gather(s, k, n).bytes| == n
    ensures n > 0 ==> |Take1(s.At(k, Request(n)), n).bytes| == Min(n, 32)
    decreases n
  {
    hide Nat, Request, Asks;
    if n > 0 {
      RequestAsks(n);
      var a := s.At(k, Request(n));
      assert Covered(a);
      var one := Take1(a, n);
      GenerousFills(s, k + 1, n - |one.bytes|);
    }
  }

  function Flat(parts: seq<Bytes>): (r: Bytes) {
    if parts == [] then [] else parts[0] + Flat(parts[1..])
  }

  /** Is part the payload of reply k, whose request was made with n bytes missing? */
  predicate PayloadOf(s: Source, k: nat, n: nat, part: Bytes) {
    && n > 0 && part != []
    && var a := s.At(k, Request(n));
    a.Answer? && HEADER_SIZE <= |a.bytes| <= BUFFER_SIZE && CodeIn(a.bytes) == RC_SUCCESS
    && OutSize(a.bytes) == |part| && PAYLOAD + |part| <= |a.bytes| && a.bytes[PAYLOAD..PAYLOAD + |part|] == part
  }

  /** Each part is the whole payload of one reply, the replies are consecutive, and each request is made for what is
      then missing. */
  predicate PayloadsFrom(s: Source, k: nat, n: nat, parts: seq<Bytes>)
    decreases |parts|
  {
    parts == []
    || (PayloadOf(s, k, n, parts[0]) && |parts[0]| <= n && PayloadsFrom(s, k + 1, n - |parts[0]|, parts[1..]))
  }

  /** What was gathered, on success or before an error, is the payloads of consecutive replies, one behind the other. */
  lemma {:induction false} GatheredAreReplies(s: Source, k: nat, n: nat) returns (parts: seq<Bytes>)
    requires AllCovered(s)
    ensures PayloadsFrom(s, k, n, parts) && Flat(parts) == Gather(s, k, n).bytes
    ensures Gather(s, k, n).rc == RC_SUCCESS ==> |Flat(parts)| == n
    decreases n
  {
    hide Request, OutSize, CodeIn;
    parts := [];
    if n > 0 {
      var one := Take1(s.At(k, Request(n)), n);
      if one.rc == RC_SUCCESS {
        assert Covered(s.At(k, Request(n)));
        var rest := GatheredAreReplies(s, k + 1, n - |one.bytes|);
        parts := [one.bytes] + rest;
        assert parts[1..] == rest;
        TakenIsPayload(s, k, n);
      }
    }
  }

  lemma TakenIsPayload(s: Source, k: nat, n: nat)
    requires n > 0 && Covered(s.At(k, Request(n))) && Take1(s.At(k, Request(n)), n).rc == RC_SUCCESS
    ensures PayloadOf(s, k, n, Take1(s.At(k, Request(n)), n).bytes)
  {
    hide Request, OutSize, CodeIn, Nat;
  }

  /** The generator the fill pass draws its nonces from, when they come from the TPM: one source for each slot. */
  function FromTpm(sources: seq<Source>, i: nat, n: nat): (r: RngReply)
    requires forall j :: 0 <= j < |sources| ==> AllCovered(sources[j])
    ensures r.Answers(n)
  {
    if i >= |sources| then RngError(RC_FAILURE, [])
    else
      var g := Gather(sources[i], 0, n);
      if g.rc == RC_SUCCESS then Nonce(g.bytes) else RngError(g.rc, g.bytes)
  }

  /** A session's nonce after the loop ran over it is what the fill pass leaves in the session, an error included. */
  lemma DrawnIntoSession(sources: seq<Source>, i: nat, nonce: Bytes)
    requires i < |sources| && forall j :: 0 <= j < |sources| ==> AllCovered(sources[j])
    ensures var r := FromTpm(sources, i, |nonce|);
      Splice(nonce, 0, Gather(sources[i], 0, |nonce|).bytes) == if r.Nonce? then r.bytes else Overlay(nonce, r.partial)
  {
    hide Gather;
  }

  /** It is a generator as the fill pass assumes one. */
  lemma FromTpmIsRng(sources: seq<Source>) returns (rng: Rng)
    requires forall j :: 0 <= j < |sources| ==> AllCovered(sources[j])
    ensures forall i: nat, n: nat :: rng(i, n) == FromTpm(sources, i, n)
  {
    rng := (i: nat, n: nat) requires forall j :: 0 <= j < |sources| ==> AllCovered(sources[j]) =>
      FromTpm(sources, i, n);
  }

  /** The request is built in a buffer of its own, so the command under construction is not touched. */
  method BuildRequest(p: Packet, n: nat) returns (m: Bytes)
    requires p.Valid() && p.pos == HEADER_SIZE && p.size == BUFFER_SIZE && 0 < n < 0x1_0000
    modifies p`pos, p.buf
    ensures p.Valid() && m == Request(n)
  {
    hide U16, Header, App, Splice;
    var inSz := n;
    if inSz > MAX_RNG_REQ_SIZE { inSz := MAX_RNG_REQ_SIZE; }
    ghost var before := p.State();
    p.AppendU16(inSz);
    AppWhole(before, U16(inSz));
    ghost var st := p.State();
    FinalizeWhole(st, ST_NO_SESSIONS, CC_GET_RANDOM);
    var size := FinalizePacket(p, ST_NO_SESSIONS, CC_GET_RANDOM);
    Requested(before.buf, Header(ST_NO_SESSIONS, PAYLOAD, CC_GET_RANDOM), U16(inSz));
    m := p.buf[..size];
  }

  lemma Requested(buf: Bytes, h: Bytes, x: Bytes)
    requires |h| == HEADER_SIZE && HEADER_SIZE + |x| <= |buf|
    ensures Splice(Splice(buf, HEADER_SIZE, x), 0, h)[..HEADER_SIZE + |x|] == h + x
  {
    var b1 := Splice(buf, HEADER_SIZE, x);
    var r := Splice(b1, 0, h);
    SpliceFrame(b1, 0, h, HEADER_SIZE, HEADER_SIZE + |x|);
    assert r[..HEADER_SIZE + |x|] == r[0..HEADER_SIZE] + r[HEADER_SIZE..HEADER_SIZE + |x|];
  }

  /** TPM2_SendCommand into the local buffer, and what it brings. */
  method Receive(p: Packet, a: Answer, n: nat) returns (rc: int, bytes: Bytes)
    requires p.Valid() && p.size == BUFFER_SIZE == p.buf.Length && Covered(a)
    modifies p`pos, p`size, p.buf
    ensures p.Valid() && Gathered(rc, bytes) == Take1(a, n)
  {
    hide Nat, Pow256;
    if a.Lost? {
      CopyInto(p.buf, 0, a.left);
      return a.rc, [];
    }
    SplicedHeader(p.buf[..], a.bytes);
    CopyInto(p.buf, 0, a.bytes);
    assert p.buf[..|a.bytes|] == a.bytes;
    rc := ParseResponse(p);
    if rc != RC_SUCCESS { return rc, []; }
    var outSz := ReadSize(p, a.bytes);
    if outSz == 0 || outSz > MAX_RNG_REQ_SIZE || outSz > n { return BAD_FUNC_ARG, []; }
    bytes := p.ParseBytes(outSz);
    Payload(p.buf[..], a.bytes, outSz);
  }

  method ReadSize(p: Packet, b: Bytes) returns (outSz: nat)
    requires p.Valid() && p.pos == HEADER_SIZE && HEADER_SIZE <= |b| <= BUFFER_SIZE == p.buf.Length && p.buf[..|b|] == b
    requires p.size == Announced(b) && |b| == Reach(Announced(b))
    modifies p`pos
    ensures p.Valid() && outSz == OutSize(b) && (outSz > 0 ==> p.pos == PAYLOAD)
  {
    hide Nat, Pow256;
    if |b| >= PAYLOAD { SliceSlice(p.buf[..], 0, |b|, HEADER_SIZE, PAYLOAD); }
    var v := p.ParseU16();
    outSz := v;
  }

  lemma Payload(buf: Bytes, b: Bytes, outSz: nat)
    requires 0 < outSz && PAYLOAD + outSz <= |b| <= |buf| && buf[..|b|] == b
    ensures GetBytes(PState(buf, PAYLOAD, |b|), outSz).0 == b[PAYLOAD..PAYLOAD + outSz]
  {
    SliceSlice(buf, 0, |b|, PAYLOAD, PAYLOAD + outSz);
    assert buf[PAYLOAD..PAYLOAD + outSz] + Zeros(0) == buf[PAYLOAD..PAYLOAD + outSz];
  }

  /** What is left to gather after one more reply. */
  lemma GatherOne(s: Source, k: nat, n: nat, got: Bytes)
    requires AllCovered(s) && n > 0
    ensures var one := Take1(s.At(k, Request(n)), n);
      var g := Gather(s, k, n);
      if one.rc != RC_SUCCESS then g == Gathered(one.rc, []) && got + g.bytes == got
      else
        var rest := Gather(s, k + 1, n - |one.bytes|);
        g.rc == rest.rc && got + g.bytes == got + one.bytes + rest.bytes
  {
    hide Take1, Request;
  }

  lemma GatherNone(s: Source, k: nat, got: Bytes)
    requires AllCovered(s)
    ensures Gather(s, k, 0).rc == RC_SUCCESS && got + Gather(s, k, 0).bytes == got
  {
  }

  /** The nonce is filled front to back; on an error the bytes behind the last good reply are as they were. */
  method GetNonceNoLock(s: Source, nonceBuf: array<byte>, nonceSz: nat) returns (rc: int)
    requires AllCovered(s) && nonceSz <= nonceBuf.Length && nonceSz < 0x1_0000
    modifies nonceBuf
    ensures var g := Gather(s, 0, nonceSz);
      rc == g.rc && nonceBuf[..] == Splice(old(nonceBuf[..]), 0, g.bytes)
  {
    hide Splice, Take1, Request, Gather;
    rc := RC_SUCCESS;
    var randSz, k := 0, 0;
    ghost var before := nonceBuf[..];
    ghost var got: Bytes := [];
    ghost var all := Gather(s, 0, nonceSz);
    SpliceSelf(before, 0, 0);
    assert got + all.bytes == all.bytes;
    var buffer := new byte[BUFFER_SIZE](_ => 0);
    while randSz < nonceSz
      invariant 0 <= randSz == |got| <= nonceSz && rc == RC_SUCCESS
      invariant nonceBuf[..] == Splice(before, 0, got)
      invariant Gather(s, k, nonceSz - randSz).rc == all.rc && got + Gather(s, k, nonceSz - randSz).bytes == all.bytes
      decreases nonceSz - randSz
    {
      var n := nonceSz - randSz;
      GatherOne(s, k, n, got);
      var packet := new Packet(buffer, HEADER_SIZE, BUFFER_SIZE);
      var request := BuildRequest(packet, n);
      var answer := s.At(k, request);
      assert Covered(s.At(k, request));
      var bytes;
      rc, bytes := Receive(packet, answer, n);
      if rc != RC_SUCCESS { return; }
      CopyInto(nonceBuf, randSz, bytes);
      SpliceSplice(before, 0, got, bytes);
      got := got + bytes;
      randSz := randSz + |bytes|;
      k := k + 1;
    }
    GatherNone(s, k, got);
  }
}
