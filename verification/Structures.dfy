/** Signatures, response authorisations, PCR selections and attestations: wire forms and clamping parsers
    (tpm2_packet.c). */
module Structures {
  import opened Octets
  import opened Tpm
  import opened Packets

  /** One bank for each of SHA-1, SHA-256, SHA-384 and SHA-512. */
  const HASH_COUNT := 4
  const PCR_SELECT_MIN := 3

  // ---- signatures ----

  datatype Signature =
    | EccSig(alg: u16, hash: u16, r: Bytes, s: Bytes)
    | RsaSig(alg: u16, hash: u16, sig: Bytes)
    | HmacSig(hash: u16, digest: Bytes)
    | OtherSig(alg: u16)
  {
    predicate OnWire() {
      match this
      case EccSig(alg, h, r, s) => IsEcc(alg) && |r| < 0x1_0000 && |s| < 0x1_0000
      case RsaSig(alg, h, sig) => IsRsa(alg) && |sig| < 0x1_0000
      case HmacSig(h, d) => |d| == DigestSize(h)
      case OtherSig(alg) => !IsEcc(alg) && !IsRsa(alg) && alg != ALG_HMAC
    }

    function Clamp(): (r: Signature) {
      match this
      case EccSig(alg, h, r, s) => EccSig(alg, h, Take(r, MAX_ECC), Take(s, MAX_ECC))
      case RsaSig(alg, h, sig) => RsaSig(alg, h, Take(sig, MAX_RSA))
      case HmacSig(h, d) => this
      case OtherSig(alg) => this
    }
  }

  predicate IsEcc(alg: u16) { alg == ALG_ECDSA || alg == ALG_ECDAA }

  predicate IsRsa(alg: u16) { alg == ALG_RSASSA || alg == ALG_RSAPSS }

  function EncSignature(g: Signature): (r: Bytes)
    requires g.OnWire()
  {
    match g
    case EccSig(alg, h, r, s) => U16(alg) + U16(h) + Sized(r) + Sized(s)
    case RsaSig(alg, h, sig) => U16(alg) + U16(h) + Sized(sig)
    case HmacSig(h, d) => U16(ALG_HMAC) + U16(h) + d
    case OtherSig(alg) => U16(alg)
  }

  function GetSignature(st: PState): (r: (Signature, PState))
    requires st.Valid()
  {
    Pow256Values();
    var (alg, s1) := GetU(st, 2);
    if IsEcc(alg) then
      var (h, s2) := GetU(s1, 2);
      var (r, s3) := GetSized(s2, MAX_ECC);
      var (s, s4) := GetSized(s3, MAX_ECC);
      (EccSig(alg, h, r, s), s4)
    else if IsRsa(alg) then
      var (h, s2) := GetU(s1, 2);
      var (sig, s3) := GetSized(s2, MAX_RSA);
      (RsaSig(alg, h, sig), s3)
    else if alg == ALG_HMAC then
      var (h, s2) := GetU(s1, 2);
      var (d, s3) := GetBytes(s2, DigestSize(h));
      (HmacSig(h, d), s3)
    else (OtherSig(alg), s1)
  }

  /** Any wire signature parses to its clamped value, and the parser stops right behind it. */
  lemma GetSignatureAt(st: PState, g: Signature)
    requires g.OnWire() && st.At(EncSignature(g))
    ensures GetSignature(st) == (g.Clamp(), st.Skip(|EncSignature(g)|))
  {
    hide U16, GetU, GetBytes, GetSized, Sized, PState.At, Nat;
    match g
    case EccSig(alg, h, r, s) =>
      var p := U16(alg) + U16(h);
      AtSplit(st, p + Sized(r), Sized(s)); AtSplit(st, p, Sized(r)); AtSplit(st, U16(alg), U16(h));
      GetUAt(st, U16(alg)); GetUAt(st.Skip(2), U16(h));
      GetSizedAt(st.Skip(4), r, MAX_ECC); GetSizedAt(st.Skip(|p + Sized(r)|), s, MAX_ECC);
    case RsaSig(alg, h, sig) =>
      var p := U16(alg) + U16(h);
      AtSplit(st, p, Sized(sig)); AtSplit(st, U16(alg), U16(h));
      GetUAt(st, U16(alg)); GetUAt(st.Skip(2), U16(h));
      GetSizedAt(st.Skip(4), sig, MAX_RSA);
    case HmacSig(h, d) =>
      var p := U16(ALG_HMAC) + U16(h);
      AtSplit(st, p, d); AtSplit(st, U16(ALG_HMAC), U16(h));
      GetUAt(st, U16(ALG_HMAC)); GetUAt(st.Skip(2), U16(h));
      GetBytesAt(st.Skip(4), d);
    case OtherSig(alg) => GetUAt(st, U16(alg));
  }

  method ParseSignature(p: Packet) returns (g: Signature)
    requires p.Valid()
    modifies p`pos
    ensures p.Valid() && (g, p.State()) == GetSignature(old(p.State()))
  {
    var alg := p.ParseU16();
    if IsEcc(alg) {
      var h := p.ParseU16();
      var r := p.ParseSized(MAX_ECC);
      var s := p.ParseSized(MAX_ECC);
      g := EccSig(alg, h, r, s);
    } else if IsRsa(alg) {
      var h := p.ParseU16();
      var sig := p.ParseSized(MAX_RSA);
      g := RsaSig(alg, h, sig);
    } else if alg == ALG_HMAC {
      var h := p.ParseU16();
      var d := p.ParseBytes(DigestSize(h));
      g := HmacSig(h, d);
    } else {
      g := OtherSig(alg);
    }
  }

  // ---- response authorisations ----

  datatype AuthResponse = AuthResponse(nonce: Bytes, attrs: byte, hmac: Bytes) {
    predicate OnWire() { |nonce| < 0x1_0000 && |hmac| < 0x1_0000 }

    function Clamp(): (r: AuthResponse) { AuthResponse(Take(nonce, MAX_DIGEST), attrs, Take(hmac, MAX_DIGEST)) }
  }

  function EncAuthResponse(a: AuthResponse): (r: Bytes)
    requires a.OnWire()
  {
    Sized(a.nonce) + U8(a.attrs) + Sized(a.hmac)
  }

  function GetAuth(st: PState): (r: (AuthResponse, PState))
    requires st.Valid()
    ensures r.1.Valid() && r.1.buf == st.buf && r.1.size == st.size
    ensures |r.0.nonce| <= MAX_DIGEST && |r.0.hmac| <= MAX_DIGEST
  {
    Pow256Values();
    var (nonce, s1) := GetSized(st, MAX_DIGEST);
    var (attrs, s2) := GetU(s1, 1);
    var (hmac, s3) := GetSized(s2, MAX_DIGEST);
    (AuthResponse(nonce, attrs, hmac), s3)
  }

  /** Any wire authorisation parses to its clamped value, and the parser stops right behind it. */
  lemma GetAuthAt(st: PState, a: AuthResponse)
    requires a.OnWire() && st.At(EncAuthResponse(a))
    ensures GetAuth(st) == (a.Clamp(), st.Skip(|EncAuthResponse(a)|))
  {
    hide GetU, GetSized, Sized, PState.At;
    var p := Sized(a.nonce) + U8(a.attrs);
    AtSplit(st, p, Sized(a.hmac)); AtSplit(st, Sized(a.nonce), U8(a.attrs));
    GetSizedAt(st, a.nonce, MAX_DIGEST);
    GetUAt(st.Skip(|Sized(a.nonce)|), U8(a.attrs));
    assert Nat(U8(a.attrs)) == a.attrs;
    GetSizedAt(st.Skip(|p|), a.hmac, MAX_DIGEST);
  }

  method ParseAuth(p: Packet) returns (a: AuthResponse)
    requires p.Valid()
    modifies p`pos
    ensures p.Valid() && (a, p.State()) == GetAuth(old(p.State()))
  {
    var nonce := p.ParseSized(MAX_DIGEST);
    var attrs := p.ParseU8();
    var hmac := p.ParseSized(MAX_DIGEST);
    a := AuthResponse(nonce, attrs, hmac);
  }

  // ---- PCR selections ----

  datatype PcrBank = PcrBank(hash: u16, select: Bytes) {
    predicate OnWire() { |select| < 0x100 }

    function Clamp(): (r: PcrBank) { PcrBank(hash, Take(select, PCR_SELECT_MIN)) }
  }

  predicate BanksOnWire(banks: seq<PcrBank>) { forall i :: 0 <= i < |banks| ==> banks[i].OnWire() }

  function EncBank(b: PcrBank): (r: Bytes)
    requires b.OnWire()
    ensures |r| == 3 + |b.select|
  {
    U16(b.hash) + U8(|b.select|) + b.select
  }

  function EncBanks(banks: seq<PcrBank>): (r: Bytes)
    requires BanksOnWire(banks)
    ensures |r| >= 3 * |banks|
  {
    if banks == [] then [] else EncBank(banks[0]) + EncBanks(banks[1..])
  }

  function EncPcr(banks: seq<PcrBank>): (r: Bytes)
    requires BanksOnWire(banks) && |banks| < 0x1_0000_0000
  {
    U32(|banks|) + EncBanks(banks)
  }

  function ClampBanks(banks: seq<PcrBank>, room: nat): (r: seq<PcrBank>)
    ensures |r| == Min(|banks|, room)
    ensures forall i :: 0 <= i < |r| ==> r[i] == banks[i].Clamp()
  {
    seq(Min(|banks|, room), i requires 0 <= i < |banks| => banks[i].Clamp())
  }

  function GetBank(st: PState): (r: (PcrBank, PState))
    requires st.Valid()
    ensures r.1.Valid() && r.1.buf == st.buf && r.1.size == st.size
  {
    Pow256Values();
    var (hash, s1) := GetU(st, 2);
    var (n, s2) := GetU(s1, 1);
    var (sel, s3) := GetBytes(s2, Min(n, PCR_SELECT_MIN));
    (PcrBank(hash, sel), s3.Skip(n - Min(n, PCR_SELECT_MIN)))
  }

  /** n banks, of which the first room are kept; the others are skipped over. */
  function GetBanks(st: PState, n: nat, room: nat): (r: (seq<PcrBank>, PState))
    requires st.Valid()
    ensures r.1.Valid() && r.1.buf == st.buf && r.1.size == st.size && |r.0| == Min(n, room)
    decreases n
  {
    if n == 0 then ([], st)
    else
      var (b, s1) := GetBank(st);
      if room > 0 then
        var (bs, s2) := GetBanks(s1, n - 1, room - 1);
        ([b] + bs, s2)
      else GetBanks(s1, n - 1, 0)
  }

  /** The wire count is compared as a signed number, so a count of 2^31 or more reads no bank. */
  function GetPcr(st: PState): (r: (nat, seq<PcrBank>, PState))
    requires st.Valid()
    ensures r.2.Valid()
  {
    var (n, s1) := GetU(st, 4);
    var (banks, s2) := GetBanks(s1, if n < 0x8000_0000 then n else 0, HASH_COUNT);
    (Min(n, HASH_COUNT), banks, s2)
  }

  lemma GetBankAt(st: PState, b: PcrBank)
    requires b.OnWire() && st.At(EncBank(b))
    ensures GetBank(st) == (b.Clamp(), st.Skip(|EncBank(b)|))
  {
    hide GetU, GetBytes, PState.At, U16;
    var p := U16(b.hash) + U8(|b.select|);
    var k := Min(|b.select|, PCR_SELECT_MIN);
    AtSplit(st, p, b.select); AtSplit(st, U16(b.hash), U8(|b.select|));
    GetUAt(st, U16(b.hash)); GetUAt(st.Skip(2), U8(|b.select|));
    assert Nat(U8(|b.select|)) == |b.select|;
    assert b.select == b.select[..k] + b.select[k..];
    AtSplit(st.Skip(3), b.select[..k], b.select[k..]);
    GetBytesAt(st.Skip(3), b.select[..k]);
  }

  lemma {:induction false} GetBanksAt(st: PState, banks: seq<PcrBank>, room: nat)
    requires BanksOnWire(banks) && st.At(EncBanks(banks))
    ensures GetBanks(st, |banks|, room) == (ClampBanks(banks, room), st.Skip(|EncBanks(banks)|))
    decreases |banks|
  {
    hide GetBank, EncBank, PState.At, PcrBank.Clamp;
    if banks == [] {
    } else {
      var b, rest := banks[0], banks[1..];
      AtSplit(st, EncBank(b), EncBanks(rest));
      GetBankAt(st, b);
      var room' := if room > 0 then room - 1 else 0;
      GetBanksAt(st.Skip(|EncBank(b)|), rest, room');
      if room > 0 {
        assert ClampBanks(banks, room) == [b.Clamp()] + ClampBanks(rest, room');
      }
    }
  }

  /** However many banks and however wide, the parser keeps what it has room for and ends behind the last one. */
  lemma GetPcrAt(st: PState, banks: seq<PcrBank>)
    requires BanksOnWire(banks) && |banks| < 0x8000_0000 && st.At(EncPcr(banks))
    ensures GetPcr(st) == (Min(|banks|, HASH_COUNT), ClampBanks(banks, HASH_COUNT), st.Skip(|EncPcr(banks)|))
  {
    hide GetU, GetBanks, EncBanks, PState.At, U32;
    AtSplit(st, U32(|banks|), EncBanks(banks));
    GetUAt(st, U32(|banks|));
    GetBanksAt(st.Skip(4), banks, HASH_COUNT);
  }

  /** One entry: the whole select field is passed over, at most PCR_SELECT_MIN bytes of it are kept. */
  method ParseBank(p: Packet) returns (b: PcrBank)
    requires p.Valid()
    modifies p`pos
    ensures p.Valid() && (b, p.State()) == GetBank(old(p.State()))
  {
    var hash := p.ParseU16();
    var wireSizeofSelect := p.ParseU8();
    var k := wireSizeofSelect;
    if k > PCR_SELECT_MIN { k := PCR_SELECT_MIN; }
    var sel := p.ParseBytes(k);
    p.pos := p.pos + (wireSizeofSelect - k);
    b := PcrBank(hash, sel);
  }

  lemma BanksNone(st: PState, room: nat)
    requires st.Valid()
    ensures GetBanks(st, 0, room) == ([], st)
  {
  }

  /** One more entry read: the first of those still to come, if there is room for it. */
  lemma BankTaken(st: PState, n: nat, room: nat, want: seq<PcrBank>, banks: seq<PcrBank>, rest: seq<PcrBank>,
      fin: PState)
    requires st.Valid() && n > 0 && GetBanks(st, n, room) == (rest, fin) && want == banks + rest
    ensures var (b, s1) := GetBank(st);
      if room > 0 then
        |rest| > 0 && GetBanks(s1, n - 1, room - 1) == (rest[1..], fin) && want == banks + [b] + rest[1..]
      else GetBanks(s1, n - 1, 0) == (rest, fin)
  {
    hide GetBank;
    if room > 0 {
      var (b, s1) := GetBank(st);
      assert rest == [b] + GetBanks(s1, n - 1, room - 1).0;
      assert banks + rest == banks + [b] + rest[1..];
    }
  }

  method ParsePcr(p: Packet) returns (count: nat, banks: seq<PcrBank>)
    requires p.Valid()
    modifies p`pos
    ensures p.Valid() && (count, banks, p.State()) == GetPcr(old(p.State()))
  {
    hide GetU, GetBank, GetBanks, Pow256;
    var wireCount := p.ParseU32();
    count := wireCount;
    if count > HASH_COUNT { count := HASH_COUNT; }
    var n := if wireCount < 0x8000_0000 then wireCount else 0;
    ghost var (want, fin) := GetBanks(p.State(), n, HASH_COUNT);
    banks := [];
    assert want == banks + want;
    ghost var rest := want;
    var i := 0;
    while i < n
      invariant p.Valid() && 0 <= i <= n && count == Min(wireCount, HASH_COUNT)
      invariant |banks| == Min(i, HASH_COUNT)
      invariant GetBanks(p.State(), n - i, HASH_COUNT - |banks|) == (rest, fin)
      invariant want == banks + rest
    {
      BankTaken(p.State(), n - i, HASH_COUNT - |banks|, want, banks, rest, fin);
      var b := ParseBank(p);
      if i < count {
        rest := rest[1..];
        banks := banks + [b];
      }
      i := i + 1;
    }
    BanksNone(p.State(), HASH_COUNT - |banks|);
    assert want == banks;
  }
}
