/** The attestation structure (TPMS_ATTEST): wire form and clamping parser (tpm2_packet.c). */
module Attest {
  import opened Octets
  import opened Tpm
  import opened Packets
  import opened Structures

  const GENERATED_VALUE: u32 := 0xff54_4347
  const ST_ATTEST_NV: u16 := 0x8014
  const ST_ATTEST_COMMAND_AUDIT: u16 := 0x8015
  const ST_ATTEST_SESSION_AUDIT: u16 := 0x8016
  const ST_ATTEST_CERTIFY: u16 := 0x8017
  const ST_ATTEST_QUOTE: u16 := 0x8018
  const ST_ATTEST_TIME: u16 := 0x8019
  const ST_ATTEST_CREATION: u16 := 0x801A

  datatype Clock = Clock(clock: u64, resetCount: u32, restartCount: u32, safe: byte)

  datatype Body =
    | Certify(name: Bytes, qualifiedName: Bytes)
    | Creation(objectName: Bytes, creationHash: Bytes)
    | Quote(banks: seq<PcrBank>, pcrDigest: Bytes)
    | CommandAudit(auditCounter: u64, digestAlg: u16, auditDigest: Bytes, commandDigest: Bytes)
    | SessionAudit(exclusive: byte, sessionDigest: Bytes)
    | Time(time: u64, clockInfo: Clock, firmware: u64)
    | Nv(indexName: Bytes, offset: u16, nvContents: Bytes)
    | Unknown
  {
    predicate OnWire() {
      match this
      case Certify(n, q) => |n| < 0x1_0000 && |q| < 0x1_0000
      case Creation(n, h) => |n| < 0x1_0000 && |h| < 0x1_0000
      case Quote(banks, d) => BanksOnWire(banks) && |banks| < 0x8000_0000 && |d| < 0x1_0000
      case CommandAudit(_, _, a, c) => |a| < 0x1_0000 && |c| < 0x1_0000
      case SessionAudit(_, d) => |d| < 0x1_0000
      case Time(_, _, _) => true
      case Nv(n, _, c) => |n| < 0x1_0000 && |c| < 0x1_0000
      case Unknown => true
    }

    function Clamp(): (r: Body) {
      match this
      case Certify(n, q) => Certify(Take(n, MAX_NAME), Take(q, MAX_NAME))
      case Creation(n, h) => Creation(Take(n, MAX_NAME), Take(h, MAX_DIGEST))
      case Quote(banks, d) => Quote(ClampBanks(banks, HASH_COUNT), Take(d, MAX_DIGEST))
      case CommandAudit(k, alg, a, c) => CommandAudit(k, alg, Take(a, MAX_DIGEST), Take(c, MAX_DIGEST))
      case SessionAudit(e, d) => SessionAudit(e, Take(d, MAX_DIGEST))
      case Time(_, _, _) => this
      case Nv(n, o, c) => Nv(Take(n, MAX_NAME), o, Take(c, MAX_NV))
      case Unknown => this
    }

    predicate Tagged(typ: u16) {
      if typ == ST_ATTEST_CERTIFY then Certify?
      else if typ == ST_ATTEST_CREATION then Creation?
      else if typ == ST_ATTEST_QUOTE then Quote?
      else if typ == ST_ATTEST_COMMAND_AUDIT then CommandAudit?
      else if typ == ST_ATTEST_SESSION_AUDIT then SessionAudit?
      else if typ == ST_ATTEST_TIME then Time?
      else if typ == ST_ATTEST_NV then Nv?
      else Unknown?
    }
  }

  /** Anything else than the generated value in front makes the parser stop there with a zeroed structure. */
  datatype Attestation =
    | BadMagic(magic: u32)
    | Attestation(typ: u16, signer: Bytes, extraData: Bytes, clockInfo: Clock, firmware: u64, attested: Body)
  {
    predicate OnWire() {
      match this
      case BadMagic(m) => m != GENERATED_VALUE
      case Attestation(typ, s, x, _, _, b) => |s| < 0x1_0000 && |x| < 0x1_0000 && b.Tagged(typ) && b.OnWire()
    }

    function Clamp(): (r: Attestation) {
      match this
      case BadMagic(m) => this
      case Attestation(typ, s, x, c, f, b) => Attestation(typ, Take(s, MAX_NAME), Take(x, MAX_DATA), c, f, b.Clamp())
    }
  }

  // ---- the wire form ----

  function EncClock(c: Clock): (r: Bytes)
    ensures |r| == 17
  {
    U64(c.clock) + U32(c.resetCount) + U32(c.restartCount) + U8(c.safe)
  }

  function EncBody(b: Body): (r: Bytes)
    requires b.OnWire()
  {
    match b
    case Certify(n, q) => Sized(n) + Sized(q)
    case Creation(n, h) => Sized(n) + Sized(h)
    case Quote(banks, d) => EncPcr(banks) + Sized(d)
    case CommandAudit(k, alg, a, c) => U64(k) + U16(alg) + Sized(a) + Sized(c)
    case SessionAudit(e, d) => U8(e) + Sized(d)
    case Time(t, c, f) => U64(t) + EncClock(c) + U64(f)
    case Nv(n, o, c) => Sized(n) + U16(o) + Sized(c)
    case Unknown => []
  }

  function EncAttest(a: Attestation): (r: Bytes)
    requires a.OnWire()
  {
    match a
    case BadMagic(m) => U32(m)
    case Attestation(typ, s, x, c, f, b) =>
      U32(GENERATED_VALUE) + U16(typ) + Sized(s) + Sized(x) + EncClock(c) + U64(f) + EncBody(b)
  }

  // ---- what the parser returns ----

  function GetClock(st: PState): (r: (Clock, PState))
    requires st.Valid()
    ensures r.1.Valid() && r.1.buf == st.buf && r.1.size == st.size
  {
    Pow256Values();
    var (k, s1) := GetU(st, 8);
    var (a, s2) := GetU(s1, 4);
    var (b, s3) := GetU(s2, 4);
    var (f, s4) := GetU(s3, 1);
    (Clock(k, a, b, f), s4)
  }

  function GetPair(st: PState, cap1: nat, cap2: nat): (r: (Bytes, Bytes, PState))
    requires st.Valid()
    ensures r.2.Valid()
  {
    var (a, s1) := GetSized(st, cap1);
    var (b, s2) := GetSized(s1, cap2);
    (a, b, s2)
  }

  function GetBody(st: PState, typ: u16): (r: (Body, PState))
    requires st.Valid()
    ensures r.1.Valid()
  {
    Pow256Values();
    if typ == ST_ATTEST_CERTIFY then
      var (n, q, s1) := GetPair(st, MAX_NAME, MAX_NAME);
      (Certify(n, q), s1)
    else if typ == ST_ATTEST_CREATION then
      var (n, h, s1) := GetPair(st, MAX_NAME, MAX_DIGEST);
      (Creation(n, h), s1)
    else if typ == ST_ATTEST_QUOTE then
      var (_, banks, s1) := GetPcr(st);
      var (d, s2) := GetSized(s1, MAX_DIGEST);
      (Quote(banks, d), s2)
    else if typ == ST_ATTEST_COMMAND_AUDIT then
      var (k, s1) := GetU(st, 8);
      var (alg, s2) := GetU(s1, 2);
      var (a, c, s3) := GetPair(s2, MAX_DIGEST, MAX_DIGEST);
      (CommandAudit(k, alg, a, c), s3)
    else if typ == ST_ATTEST_SESSION_AUDIT then
      var (e, s1) := GetU(st, 1);
      var (d, s2) := GetSized(s1, MAX_DIGEST);
      (SessionAudit(e, d), s2)
    else if typ == ST_ATTEST_TIME then
      var (t, s1) := GetU(st, 8);
      var (c, s2) := GetClock(s1);
      var (f, s3) := GetU(s2, 8);
      (Time(t, c, f), s3)
    else if typ == ST_ATTEST_NV then
      var (n, s1) := GetSized(st, MAX_NAME);
      var (o, s2) := GetU(s1, 2);
      var (c, s3) := GetSized(s2, MAX_NV);
      (Nv(n, o, c), s3)
    else (Unknown, st)
  }

  function GetAttest(st: PState): (r: (Attestation, PState))
    requires st.Valid()
    ensures r.1.Valid()
  {
    Pow256Values();
    var (magic, s1) := GetU(st, 4);
    if magic != GENERATED_VALUE then (BadMagic(magic), s1)
    else
      var (typ, s2) := GetU(s1, 2);
      var (s, x, s3) := GetPair(s2, MAX_NAME, MAX_DATA);
      var (c, s4) := GetClock(s3);
      var (f, s5) := GetU(s4, 8);
      var (b, s6) := GetBody(s5, typ);
      (Attestation(typ, s, x, c, f, b), s6)
  }

  // ---- the parser keeps step with the wire ----

  lemma GetClockAt(st: PState, c: Clock)
    requires st.At(EncClock(c))
    ensures GetClock(st) == (c, st.Skip(17))
  {
    hide GetU, PState.At, U64, U32;
    var p := U64(c.clock) + U32(c.resetCount);
    AtSplit(st, p + U32(c.restartCount), U8(c.safe));
    AtSplit(st, p, U32(c.restartCount));
    AtSplit(st, U64(c.clock), U32(c.resetCount));
    GetUAt(st, U64(c.clock)); GetUAt(st.Skip(8), U32(c.resetCount));
    GetUAt(st.Skip(12), U32(c.restartCount)); GetUAt(st.Skip(16), U8(c.safe));
    assert Nat(U8(c.safe)) == c.safe;
  }

  lemma GetPairAt(st: PState, a: Bytes, b: Bytes, cap1: nat, cap2: nat)
    requires |a| < 0x1_0000 && |b| < 0x1_0000 && st.At(Sized(a) + Sized(b))
    ensures GetPair(st, cap1, cap2) == (Take(a, cap1), Take(b, cap2), st.Skip(|Sized(a) + Sized(b)|))
  {
    hide GetSized, Sized, PState.At;
    AtSplit(st, Sized(a), Sized(b));
    GetSizedAt(st, a, cap1);
    GetSizedAt(st.Skip(|Sized(a)|), b, cap2);
  }

  lemma GetQuoteAt(st: PState, b: Body)
    requires b.Quote? && b.OnWire() && st.At(EncBody(b))
    ensures GetBody(st, ST_ATTEST_QUOTE) == (b.Clamp(), st.Skip(|EncBody(b)|))
  {
    hide GetU, GetSized, GetPair, GetPcr, GetClock, Sized, EncPcr, EncClock, PState.At, ClampBanks, Take;
    AtSplit(st, EncPcr(b.banks), Sized(b.pcrDigest));
    GetPcrAt(st, b.banks);
    GetSizedAt(st.Skip(|EncPcr(b.banks)|), b.pcrDigest, MAX_DIGEST);
  }

  lemma GetAuditAt(st: PState, b: Body)
    requires b.CommandAudit? && b.OnWire() && st.At(EncBody(b))
    ensures GetBody(st, ST_ATTEST_COMMAND_AUDIT) == (b.Clamp(), st.Skip(|EncBody(b)|))
  {
    hide GetU, GetSized, GetPair, GetPcr, GetClock, Sized, EncPcr, EncClock, PState.At, U64, U16, Take, Nat, Pow256;
    var CommandAudit(k, alg, a, c) := b;
    var p := U64(k) + U16(alg);
    assert EncBody(b) == p + (Sized(a) + Sized(c));
    AtSplit(st, p, Sized(a) + Sized(c));
    AtSplit(st, U64(k), U16(alg));
    GetUAt(st, U64(k)); GetUAt(st.Skip(8), U16(alg));
    GetPairAt(st.Skip(10), a, c, MAX_DIGEST, MAX_DIGEST);
  }

  lemma GetTimeAt(st: PState, b: Body)
    requires b.Time? && b.OnWire() && st.At(EncBody(b))
    ensures GetBody(st, ST_ATTEST_TIME) == (b.Clamp(), st.Skip(|EncBody(b)|))
  {
    hide GetU, GetSized, GetPair, GetPcr, GetClock, Sized, EncPcr, EncClock, PState.At, U64, Nat, Pow256;
    var Time(t, c, f) := b;
    AtSplit(st, U64(t) + EncClock(c), U64(f)); AtSplit(st, U64(t), EncClock(c));
    GetUAt(st, U64(t)); GetClockAt(st.Skip(8), c); GetUAt(st.Skip(25), U64(f));
  }

  lemma GetNvAt(st: PState, b: Body)
    requires b.Nv? && b.OnWire() && st.At(EncBody(b))
    ensures GetBody(st, ST_ATTEST_NV) == (b.Clamp(), st.Skip(|EncBody(b)|))
  {
    hide GetU, GetSized, GetPair, GetPcr, GetClock, Sized, EncPcr, EncClock, PState.At, U16, Take, Nat, Pow256;
    var Nv(n, o, c) := b;
    AtSplit(st, Sized(n) + U16(o), Sized(c)); AtSplit(st, Sized(n), U16(o));
    GetSizedAt(st, n, MAX_NAME);
    GetUAt(st.Skip(|Sized(n)|), U16(o));
    GetSizedAt(st.Skip(|Sized(n)| + 2), c, MAX_NV);
  }

  lemma GetBodyAt(st: PState, typ: u16, b: Body)
    requires b.Tagged(typ) && b.OnWire() && st.At(EncBody(b))
    ensures GetBody(st, typ) == (b.Clamp(), st.Skip(|EncBody(b)|))
  {
    hide GetU, GetSized, GetPair, GetPcr, GetClock, Sized, EncPcr, EncClock, PState.At, U64, U16, U8, ClampBanks,
         Take, Nat, Pow256;
    match b
    case Certify(n, q) => GetPairAt(st, n, q, MAX_NAME, MAX_NAME);
    case Creation(n, h) => GetPairAt(st, n, h, MAX_NAME, MAX_DIGEST);
    case Quote(banks, d) => GetQuoteAt(st, b);
    case CommandAudit(k, alg, a, c) => GetAuditAt(st, b);
    case SessionAudit(e, d) =>
      AtSplit(st, U8(e), Sized(d));
      GetUAt(st, U8(e));
      OneByte(e);
      GetSizedAt(st.Skip(1), d, MAX_DIGEST);
    case Time(t, c, f) => GetTimeAt(st, b);
    case Nv(n, o, c) => GetNvAt(st, b);
    case Unknown =>
  }

  lemma OneByte(v: byte)
    ensures Nat(U8(v)) == v
  {
  }

  /** Any attestation the packet holds parses to its clamped value: every field in capacity is exact, whatever
      oversized fields precede it. */
  lemma GetAttestAt(st: PState, a: Attestation)
    requires a.OnWire() && st.At(EncAttest(a))
    ensures GetAttest(st) == (a.Clamp(), st.Skip(|EncAttest(a)|))
  {
    hide GetU, GetPair, GetClock, GetBody, Sized, EncClock, EncBody, PState.At, U64, U32, U16, Take, Nat, Body.Clamp;
    match a
    case BadMagic(m) => GetUAt(st, U32(m));
    case Attestation(typ, s, x, c, f, b) =>
      var h2 := U32(GENERATED_VALUE) + U16(typ);
      var h3 := h2 + (Sized(s) + Sized(x));
      var h4 := h3 + EncClock(c);
      var h5 := h4 + U64(f);
      assert h2 + Sized(s) + Sized(x) == h3;
      AtSplit(st, h5, EncBody(b));
      AtSplit(st, h4, U64(f));
      AtSplit(st, h3, EncClock(c));
      AtSplit(st, h2, Sized(s) + Sized(x));
      AtSplit(st, U32(GENERATED_VALUE), U16(typ));
      GetUAt(st, U32(GENERATED_VALUE)); GetUAt(st.Skip(4), U16(typ));
      GetPairAt(st.Skip(6), s, x, MAX_NAME, MAX_DATA);
      GetClockAt(st.Skip(|h3|), c);
      GetUAt(st.Skip(|h4|), U64(f));
      GetBodyAt(st.Skip(|h5|), typ, b);
  }

  // ---- the parser ----

  method ParseClock(p: Packet) returns (c: Clock)
    requires p.Valid()
    modifies p`pos
    ensures p.Valid() && (c, p.State()) == GetClock(old(p.State()))
  {
    var k := p.ParseU64();
    var a := p.ParseU32();
    var b := p.ParseU32();
    var f := p.ParseU8();
    c := Clock(k, a, b, f);
  }

  method ParsePair(p: Packet, cap1: nat, cap2: nat) returns (a: Bytes, b: Bytes)
    requires p.Valid()
    modifies p`pos
    ensures p.Valid() && (a, b, p.State()) == GetPair(old(p.State()), cap1, cap2)
  {
    a := p.ParseSized(cap1);
    b := p.ParseSized(cap2);
  }

  method ParseAttest(p: Packet) returns (a: Attestation)
    requires p.Valid()
    modifies p`pos
    ensures p.Valid() && (a, p.State()) == GetAttest(old(p.State()))
  {
    hide GetPair, GetClock, GetU;
    var magic := p.ParseU32();
    if magic != GENERATED_VALUE { return BadMagic(magic); }
    var typ := p.ParseU16();
    var s, x := ParsePair(p, MAX_NAME, MAX_DATA);
    var c := ParseClock(p);
    var f := p.ParseU64();
    var b := ParseBody(p, typ);
    a := Attestation(typ, s, x, c, f, b);
  }

  method ParseBody(p: Packet, typ: u16) returns (b: Body)
    requires p.Valid()
    modifies p`pos
    ensures p.Valid() && (b, p.State()) == GetBody(old(p.State()), typ)
  {
    hide GetPair, GetClock, GetU, GetSized, GetPcr;
    if typ == ST_ATTEST_CERTIFY {
      var n, q := ParsePair(p, MAX_NAME, MAX_NAME);
      b := Certify(n, q);
    } else if typ == ST_ATTEST_CREATION {
      var n, h := ParsePair(p, MAX_NAME, MAX_DIGEST);
      b := Creation(n, h);
    } else if typ == ST_ATTEST_QUOTE {
      var _, banks := ParsePcr(p);
      var d := p.ParseSized(MAX_DIGEST);
      b := Quote(banks, d);
    } else if typ == ST_ATTEST_COMMAND_AUDIT {
      var k := p.ParseU64();
      var alg := p.ParseU16();
      var x, c := ParsePair(p, MAX_DIGEST, MAX_DIGEST);
      b := CommandAudit(k, alg, x, c);
    } else if typ == ST_ATTEST_SESSION_AUDIT {
      var e := p.ParseU8();
      var d := p.ParseSized(MAX_DIGEST);
      b := SessionAudit(e, d);
    } else if typ == ST_ATTEST_TIME {
      var t := p.ParseU64();
      var c := ParseClock(p);
      var f := p.ParseU64();
      b := Time(t, c, f);
    } else if typ == ST_ATTEST_NV {
      var n := p.ParseSized(MAX_NAME);
      var o := p.ParseU16();
      var c := p.ParseSized(MAX_NV);
      b := Nv(n, o, c);
    } else {
      b := Unknown;
    }
  }
}
