/** DER lengths and headers, and the walk through an X.509 certificate (tpm2_asn.c). */
module Asn {
  import opened Octets

  const RC_INSUFFICIENT := -202
  const RC_VALUE := -203

  const SEQUENCE: byte := 0x30     // constructed
  const VERSION: byte := 0xA0      // context-specific, constructed
  const INTEGER: byte := 0x02
  const BIT_STRING: byte := 0x03
  const NULL: byte := 0x05
  const OBJECT_ID: byte := 0x06
  const LONG_LENGTH := 0x80

  // ---- lengths ----

  /** A length and the position behind its octets, or an error. */
  datatype Length = Length(rc: int, idx: nat)

  function LengthAt(input: Bytes, idx: nat, maxIdx: nat, check: bool): (r: Length)
    requires maxIdx <= |input|
    ensures r.rc >= 0 ==> idx < r.idx <= maxIdx && (check ==> r.idx + r.rc <= maxIdx)
  {
    if idx + 1 > maxIdx then Length(RC_INSUFFICIENT, idx)
    else
      var b := input[idx];
      var bytes := if b >= LONG_LENGTH then b % LONG_LENGTH else 0;
      if b >= LONG_LENGTH && (bytes == 0 || bytes > 3 || idx + 1 + bytes > maxIdx) then Length(RC_INSUFFICIENT, idx)
      else
        var n := if b >= LONG_LENGTH then Nat(input[idx + 1..idx + 1 + bytes]) else b as nat;
        if check && idx + 1 + bytes + n > maxIdx then Length(RC_INSUFFICIENT, idx) else Length(n, idx + 1 + bytes)
  }

  method GetLengthEx(input: Bytes, idx0: nat, maxIdx: nat, check: bool) returns (rc: int, idx: nat)
    requires maxIdx <= |input|
    ensures Length(rc, idx) == LengthAt(input, idx0, maxIdx, check)
  {
    idx := idx0;
    if idx + 1 > maxIdx { return RC_INSUFFICIENT, idx0; }
    var b := input[idx];
    idx := idx + 1;
    var length: nat := 0;
    if b >= LONG_LENGTH {
      var bytes := b % LONG_LENGTH;
      if bytes == 0 || bytes > 3 || idx + bytes > maxIdx { return RC_INSUFFICIENT, idx0; }
      ghost var start := idx;
      var left := bytes;
      while left > 0
        invariant 0 <= left <= bytes && idx == start + (bytes - left) && length == Nat(input[start..idx])
      {
        assert input[start..idx + 1][..idx - start] == input[start..idx];
        length := length * 0x100 + input[idx];
        idx := idx + 1;
        left := left - 1;
      }
    } else {
      length := b;
    }
    if check && idx + length > maxIdx { return RC_INSUFFICIENT, idx0; }
    rc := length;
  }

  // ---- walking ----

  /** The state of the walk: the last return code, the position, and the last length read. */
  datatype Walk = Walk(rc: int, idx: nat, len: nat) {
    predicate Inside(n: nat) { rc >= 0 ==> idx + len <= n }

    function Past(): (r: Walk) { if rc >= 0 then this.(idx := idx + len) else this }
  }

  /** Reads a header of the given tag unless the walk has failed already. */
  function Open(input: Bytes, w: Walk, tag: byte): (r: Walk)
    ensures r.rc >= 0 ==> w.rc >= 0 && w.idx < r.idx && r.idx + r.len <= |input| && r.rc == r.len
  {
    if w.rc < 0 then w
    else if w.idx + 1 > |input| then w.(rc := RC_INSUFFICIENT)
    else if input[w.idx] != tag then w.(rc := RC_VALUE)
    else
      var l := LengthAt(input, w.idx + 1, |input|, true);
      if l.rc < 0 then w.(rc := RC_VALUE) else Walk(l.rc, l.idx, l.rc)
  }

  method GetHeader(input: Bytes, w: Walk, tag: byte) returns (r: Walk)
    requires w.rc >= 0
    ensures r == Open(input, w, tag)
  {
    var idx := w.idx;
    if idx + 1 > |input| { return w.(rc := RC_INSUFFICIENT); }
    var b := input[idx];
    idx := idx + 1;
    if b != tag { return w.(rc := RC_VALUE); }
    var length;
    length, idx := GetLengthEx(input, idx, |input|, true);
    if length < 0 { return w.(rc := RC_VALUE); }
    r := Walk(length, idx, length);
  }

  /** Reads a header and goes past its content. */
  function Skip(input: Bytes, w: Walk, tag: byte): (r: Walk)
    ensures r.rc >= 0 ==> w.rc >= 0 && w.idx < r.idx <= |input|
  {
    Open(input, w, tag).Past()
  }

  /** The version must be there and be an integer. */
  function CheckVersion(input: Bytes, w: Walk): (r: Walk)
    ensures r.rc >= 0 ==> r == w
  {
    if w.rc < 0 then w
    else if w.len == 0 || w.idx >= |input| then w.(rc := RC_VALUE)
    else if input[w.idx] != INTEGER then w.(rc := RC_VALUE)
    else w
  }

  datatype Slice = Slice(off: nat, size: nat) {
    predicate Inside(n: nat) { off + size <= n }

    function Of(input: Bytes): (r: Bytes)
      requires Inside(|input|)
    {
      input[off..off + size]
    }
  }

  /** The content of a bit string without the octet that counts its unused bits, when that is zero. */
  function Bits(input: Bytes, w: Walk): (r: Slice)
    requires w.rc >= 0 && w.idx + w.len <= |input|
    ensures w.idx <= r.off && r.Inside(|input|)
  {
    if w.len > 0 && input[w.idx] == 0 then Slice(w.idx + 1, w.len - 1) else Slice(w.idx, w.len)
  }

  /** From the first header to the version's content. */
  function ToVersion(input: Bytes, tbs: Walk): (r: Walk)
    ensures r.rc >= 0 ==> tbs.rc >= 0
  {
    CheckVersion(input, Open(input, tbs, VERSION))
  }

  /** Serial number, algorithm, issuer, validity, subject; into the key info, past its algorithm, to the key's bits. */
  function ToKey(input: Bytes, version: Walk): (r: Walk)
    ensures r.rc >= 0 ==> version.rc >= 0 && r.idx + r.len <= |input|
  {
    var serial := Skip(input, version.Past(), INTEGER);
    var algorithm := Skip(input, serial, SEQUENCE);
    var issuer := Skip(input, algorithm, SEQUENCE);
    var validity := Skip(input, issuer, SEQUENCE);
    var subject := Skip(input, validity, SEQUENCE);
    Open(input, Skip(input, Open(input, subject, SEQUENCE), SEQUENCE), BIT_STRING)
  }

  /** Into the signature algorithm, past its identifier and its NULL, to the signature's bits. */
  function ToSignature(input: Bytes, w: Walk): (r: Walk)
    ensures r.rc >= 0 ==> w.rc >= 0 && w.idx < r.idx && r.idx + r.len <= |input|
  {
    Open(input, Skip(input, Skip(input, Open(input, w, SEQUENCE), OBJECT_ID), NULL), BIT_STRING)
  }

  datatype Decoded = Decoded(tbs: Slice, publicKey: Slice, signature: Slice)

  datatype Result = Ok(x: Decoded) | Err(rc: int)

  /** On success all three slices lie inside the input and the signature begins behind the end of the signed part. */
  function Decode(input: Bytes): (r: Result)
    ensures r.Ok? ==>
      && r.x.tbs.Inside(|input|) && r.x.publicKey.Inside(|input|) && r.x.signature.Inside(|input|)
      && r.x.tbs.off + r.x.tbs.size < r.x.signature.off
    ensures r.Err? ==> r.rc < 0
  {
    var outer := Open(input, Walk(0, 0, 0), SEQUENCE);
    var tbs := Open(input, outer, SEQUENCE);
    var key := ToKey(input, ToVersion(input, tbs));
    if key.rc < 0 then Err(key.rc)
    else
      var begin := outer.idx;
      var size := tbs.len + (tbs.idx - begin);
      var sig := ToSignature(input, key.(idx := begin + size));
      if sig.rc < 0 then Err(sig.rc)
      else Ok(Decoded(Slice(begin, size), Bits(input, key), Bits(input, sig)))
  }

  method Follow(input: Bytes, w: Walk, tag: byte, past: bool) returns (r: Walk)
    ensures r == if past then Skip(input, w, tag) else Open(input, w, tag)
  {
    r := w;
    if r.rc >= 0 {
      r := GetHeader(input, w, tag);
      if past && r.rc >= 0 { r := r.(idx := r.idx + r.len); }
    }
  }

  method FollowToVersion(input: Bytes, tbs: Walk) returns (w: Walk)
    ensures w == ToVersion(input, tbs)
  {
    w := Follow(input, tbs, VERSION, false);
    if w.rc >= 0 {
      if w.len <= 0 || w.idx >= |input| { w := w.(rc := RC_VALUE); }
    }
    if w.rc >= 0 {
      if input[w.idx] != INTEGER { w := w.(rc := RC_VALUE); }
    }
  }

  method FollowToKey(input: Bytes, version: Walk) returns (w: Walk)
    ensures w == ToKey(input, version)
  {
    hide Open, Skip;
    w := version.Past();
    w := Follow(input, w, INTEGER, true);
    w := Follow(input, w, SEQUENCE, true);
    w := Follow(input, w, SEQUENCE, true);
    w := Follow(input, w, SEQUENCE, true);
    w := Follow(input, w, SEQUENCE, true);
    w := Follow(input, w, SEQUENCE, false);
    w := Follow(input, w, SEQUENCE, true);
    w := Follow(input, w, BIT_STRING, false);
  }

  method FollowToSignature(input: Bytes, start: Walk) returns (w: Walk)
    ensures w == ToSignature(input, start)
  {
    hide Open, Skip;
    w := Follow(input, start, SEQUENCE, false);
    w := Follow(input, w, OBJECT_ID, true);
    w := Follow(input, w, NULL, true);
    w := Follow(input, w, BIT_STRING, false);
  }

  method DecodeX509Cert(input: Bytes) returns (rc: int, x: Decoded)
    ensures match Decode(input) case Ok(d) => rc == 0 && x == d case Err(e) => rc == e
  {
    hide Open, Skip, ToVersion, ToKey, ToSignature, Bits;
    x := Decoded(Slice(0, 0), Slice(0, 0), Slice(0, 0));
    var w := Follow(input, Walk(0, 0, 0), SEQUENCE, false);
    var certBegin := w.idx;
    w := Follow(input, w, SEQUENCE, false);
    if w.rc >= 0 { x := x.(tbs := Slice(certBegin, w.len + (w.idx - certBegin))); }
    w := FollowToVersion(input, w);
    w := FollowToKey(input, w);
    if w.rc >= 0 {
      x := x.(publicKey := Bits(input, w));
      w := w.(idx := certBegin + x.tbs.size);
      w := FollowToSignature(input, w);
    }
    rc := w.rc;
    if w.rc >= 0 {
      x := x.(signature := Bits(input, w));
      rc := 0;
    }
  }

  // ---- the printer the walk inverts ----

  const MAX_DER := 0x100_0000

  /** The shortest form of a length. */
  function DerLength(n: nat): (r: Bytes)
    requires n < MAX_DER
    ensures 1 <= |r| <= 4
  {
    if n < 0x80 then [n]
    else if n < 0x100 then [0x81] + BE(1, n)
    else if n < 0x1_0000 then [0x82] + BE(2, n)
    else [0x83] + BE(3, n)
  }

  function Tlv(tag: byte, body: Bytes): (r: Bytes)
    requires |body| < MAX_DER
    ensures |r| == 1 + |DerLength(|body|)| + |body|
  {
    [tag] + DerLength(|body|) + body
  }

  /** Does the input hold bs at idx? */
  predicate Holds(input: Bytes, idx: nat, bs: Bytes) { idx + |bs| <= |input| && input[idx..idx + |bs|] == bs }

  lemma HoldsSplit(input: Bytes, idx: nat, a: Bytes, b: Bytes)
    requires Holds(input, idx, a + b)
    ensures Holds(input, idx, a) && Holds(input, idx + |a|, b)
  {
    var w := input[idx..idx + |a + b|];
    SliceSlice(input, idx, idx + |a + b|, 0, |a|);
    SliceSlice(input, idx, idx + |a + b|, |a|, |a + b|);
    assert w[0..|a|] == a && w[|a|..|a + b|] == b;
  }

  lemma LengthBack(input: Bytes, idx: nat, n: nat)
    requires n < MAX_DER && Holds(input, idx, DerLength(n)) && idx + |DerLength(n)| + n <= |input|
    ensures LengthAt(input, idx, |input|, true) == Length(n, idx + |DerLength(n)|)
  {
    hide BE, Pow256, LengthAt, Holds;
    PowersUpTo3();
    if n < 0x80 {
      ShortLength(input, idx, n);
    } else {
      LongLength(input, idx, |DerLength(n)| - 1, n);
    }
  }

  lemma ShortLength(input: Bytes, idx: nat, n: nat)
    requires n < 0x80 && Holds(input, idx, [n]) && idx + 1 + n <= |input|
    ensures LengthAt(input, idx, |input|, true) == Length(n, idx + 1)
  {
    assert input[idx] == input[idx..idx + 1][0];
  }

  /** A length in k octets behind their number. */
  lemma LongLength(input: Bytes, idx: nat, k: nat, n: nat)
    requires 1 <= k <= 3 && n < Pow256(k) && Holds(input, idx, [0x80 + k] + BE(k, n)) && idx + 1 + k + n <= |input|
    ensures LengthAt(input, idx, |input|, true) == Length(n, idx + 1 + k)
  {
    hide BE, Nat, Pow256;
    HoldsSplit(input, idx, [0x80 + k], BE(k, n));
    NatOfBE(k, n);
    assert input[idx] == input[idx..idx + 1][0];
    assert (0x80 + k) % 0x80 == k;
  }

  lemma PowersUpTo3()
    ensures Pow256(1) == 0x100 && Pow256(2) == 0x1_0000 && Pow256(3) == 0x100_0000
  {
    assert Pow256(2) == 256 * Pow256(1);
    assert Pow256(3) == 256 * Pow256(2);
  }

  /** Opening what was printed. */
  lemma OpenPrinted(input: Bytes, w: Walk, tag: byte, body: Bytes)
    requires w.rc >= 0 && |body| < MAX_DER && Holds(input, w.idx, Tlv(tag, body))
    ensures var r := Open(input, w, tag);
      && r == Walk(|body|, w.idx + 1 + |DerLength(|body|)|, |body|) && Holds(input, r.idx, body)
      && Skip(input, w, tag) == r.(idx := w.idx + |Tlv(tag, body)|)
  {
    hide DerLength, LengthAt;
    HoldsSplit(input, w.idx, [tag] + DerLength(|body|), body);
    HoldsSplit(input, w.idx, [tag], DerLength(|body|));
    LengthBack(input, w.idx + 1, |body|);
  }

  /** A version 3 certificate, section 4.1 of RFC 5280: the contents of its parts. */
  datatype Certificate = Certificate(
    version: Bytes, serial: Bytes, algorithm: Bytes, issuer: Bytes, validity: Bytes, subject: Bytes,
    keyAlgorithm: Bytes, key: Bytes, extensions: Bytes, signatureOid: Bytes, signature: Bytes)
  {
    /** Each part fits into a length of three octets; the version is an integer. */
    predicate PartsFit() {
      && 0 < |version| < MAX_DER && version[0] == INTEGER && |serial| < MAX_DER && |algorithm| < MAX_DER
      && |issuer| < MAX_DER && |validity| < MAX_DER && |subject| < MAX_DER && |keyAlgorithm| < MAX_DER
      && 1 + |key| < MAX_DER && |signatureOid| < MAX_DER && 1 + |signature| < MAX_DER
    }
  }

  function KeyInfo(x: Certificate): (r: Bytes)
    requires x.PartsFit()
  {
    Tlv(SEQUENCE, x.keyAlgorithm) + Tlv(BIT_STRING, [0] + x.key)
  }

  /** The parts of the signed part behind the version. */
  function Fields(x: Certificate): (r: Bytes)
    requires x.PartsFit() && |KeyInfo(x)| < MAX_DER
  {
    Tlv(INTEGER, x.serial) + (Tlv(SEQUENCE, x.algorithm) + (Tlv(SEQUENCE, x.issuer) + (Tlv(SEQUENCE, x.validity)
    + (Tlv(SEQUENCE, x.subject) + (Tlv(SEQUENCE, KeyInfo(x)) + x.extensions)))))
  }

  function SignedBody(x: Certificate): (r: Bytes)
    requires x.PartsFit() && |KeyInfo(x)| < MAX_DER
  {
    Tlv(VERSION, x.version) + Fields(x)
  }

  function SignatureAlgorithm(x: Certificate): (r: Bytes)
    requires x.PartsFit()
  {
    Tlv(OBJECT_ID, x.signatureOid) + Tlv(NULL, [])
  }

  /** Every length, the outermost one included, is below 2^24. */
  predicate Printable(x: Certificate) {
    && x.PartsFit() && |KeyInfo(x)| < MAX_DER && |SignedBody(x)| < MAX_DER && |SignatureAlgorithm(x)| < MAX_DER
    && |Tlv(SEQUENCE, SignedBody(x)) + (Tlv(SEQUENCE, SignatureAlgorithm(x)) + Tlv(BIT_STRING, [0] + x.signature))|
       < MAX_DER
  }

  function ToBeSigned(x: Certificate): (r: Bytes)
    requires Printable(x)
  {
    Tlv(SEQUENCE, SignedBody(x))
  }

  function Signature(x: Certificate): (r: Bytes)
    requires Printable(x)
  {
    Tlv(SEQUENCE, SignatureAlgorithm(x)) + Tlv(BIT_STRING, [0] + x.signature)
  }

  function Print(x: Certificate): (r: Bytes)
    requires Printable(x)
  {
    Tlv(SEQUENCE, ToBeSigned(x) + Signature(x))
  }

  /** A printed bit string is its content, whatever that begins with. */
  lemma BitsPrinted(input: Bytes, w: Walk, content: Bytes)
    requires w.rc >= 0 && w.len == 1 + |content| && Holds(input, w.idx, [0] + content)
    ensures Bits(input, w).Of(input) == content
  {
    HoldsSplit(input, w.idx, [0], content);
  }

  lemma VersionPrinted(input: Bytes, w: Walk, x: Certificate, rest: Bytes)
    requires Printable(x) && w.rc >= 0 && Holds(input, w.idx, Tlv(VERSION, x.version) + rest)
    ensures var r := ToVersion(input, w);
      r.rc >= 0 && Holds(input, r.Past().idx, rest)
  {
    hide Tlv, Open;
    HoldsSplit(input, w.idx, Tlv(VERSION, x.version), rest);
    OpenPrinted(input, w, VERSION, x.version);
    var r := Open(input, w, VERSION);
    assert input[r.idx] == input[r.idx..r.idx + |x.version|][0];
  }

  /** One part is skipped and the next one is reached. */
  lemma SkipPrinted(input: Bytes, w: Walk, tag: byte, body: Bytes, rest: Bytes)
    requires w.rc >= 0 && |body| < MAX_DER && Holds(input, w.idx, Tlv(tag, body) + rest)
    ensures var r := Skip(input, w, tag);
      r.rc >= 0 && r.idx == w.idx + |Tlv(tag, body)| && Holds(input, r.idx, rest)
  {
    hide Tlv, Skip, Holds;
    HoldsSplit(input, w.idx, Tlv(tag, body), rest);
    OpenPrinted(input, w, tag, body);
  }

  lemma KeyPrinted(input: Bytes, version: Walk, x: Certificate)
    requires Printable(x) && version.rc >= 0 && Holds(input, version.Past().idx, Fields(x))
    ensures var r := ToKey(input, version);
      r.rc >= 0 && r.len == 1 + |x.key| && Holds(input, r.idx, [0] + x.key)
  {
    hide Tlv, Skip, Open, Holds;
    var f6 := Tlv(SEQUENCE, KeyInfo(x)) + x.extensions;
    var f5 := Tlv(SEQUENCE, x.subject) + f6;
    var f4 := Tlv(SEQUENCE, x.validity) + f5;
    var f3 := Tlv(SEQUENCE, x.issuer) + f4;
    var f2 := Tlv(SEQUENCE, x.algorithm) + f3;
    var w := version.Past();
    SkipPrinted(input, w, INTEGER, x.serial, f2);
    w := Skip(input, w, INTEGER);
    SkipPrinted(input, w, SEQUENCE, x.algorithm, f3);
    w := Skip(input, w, SEQUENCE);
    SkipPrinted(input, w, SEQUENCE, x.issuer, f4);
    w := Skip(input, w, SEQUENCE);
    SkipPrinted(input, w, SEQUENCE, x.validity, f5);
    w := Skip(input, w, SEQUENCE);
    SkipPrinted(input, w, SEQUENCE, x.subject, f6);
    w := Skip(input, w, SEQUENCE);
    HoldsSplit(input, w.idx, Tlv(SEQUENCE, KeyInfo(x)), x.extensions);
    OpenPrinted(input, w, SEQUENCE, KeyInfo(x));
    w := Open(input, w, SEQUENCE);
    SkipPrinted(input, w, SEQUENCE, x.keyAlgorithm, Tlv(BIT_STRING, [0] + x.key));
    w := Skip(input, w, SEQUENCE);
    OpenPrinted(input, w, BIT_STRING, [0] + x.key);
  }

  lemma SignaturePrinted(input: Bytes, w: Walk, x: Certificate)
    requires Printable(x) && w.rc >= 0 && Holds(input, w.idx, Signature(x))
    ensures var r := ToSignature(input, w);
      r.rc >= 0 && r.len == 1 + |x.signature| && Holds(input, r.idx, [0] + x.signature)
  {
    hide Tlv, Skip, Open, Holds;
    var a := SignatureAlgorithm(x);
    HoldsSplit(input, w.idx, Tlv(SEQUENCE, a), Tlv(BIT_STRING, [0] + x.signature));
    OpenPrinted(input, w, SEQUENCE, a);
    var w1 := Open(input, w, SEQUENCE);
    SkipPrinted(input, w1, OBJECT_ID, x.signatureOid, Tlv(NULL, []));
    var w2 := Skip(input, w1, OBJECT_ID);
    OpenPrinted(input, w2, NULL, []);
    var w3 := Skip(input, w2, NULL);
    assert w3.idx == w.idx + |Tlv(SEQUENCE, a)|;
    OpenPrinted(input, w3, BIT_STRING, [0] + x.signature);
  }

  /** The walk finds exactly the signed part, the public key and the signature that were printed, whatever follows. */
  lemma DecodePrinted(x: Certificate, trailing: Bytes)
    requires Printable(x)
    ensures var input := Print(x) + trailing;
      var r := Decode(input);
      && r.Ok? && r.x.tbs.Of(input) == ToBeSigned(x) && r.x.publicKey.Of(input) == x.key
      && r.x.signature.Of(input) == x.signature
  {
    hide Tlv, Skip, Open, Holds, ToVersion, ToKey, ToSignature, Bits, Fields;
    var input := Print(x) + trailing;
    var w0 := Walk(0, 0, 0);
    assert Holds(input, 0, Print(x)) by { PrintedFirst(Print(x), trailing); }
    OpenPrinted(input, w0, SEQUENCE, ToBeSigned(x) + Signature(x));
    var outer := Open(input, w0, SEQUENCE);
    var body := SignedBody(x);
    HoldsSplit(input, outer.idx, ToBeSigned(x), Signature(x));
    OpenPrinted(input, outer, SEQUENCE, body);
    var tbs := Open(input, outer, SEQUENCE);
    VersionPrinted(input, tbs, x, Fields(x));
    KeyPrinted(input, ToVersion(input, tbs), x);
    var key := ToKey(input, ToVersion(input, tbs));
    BitsPrinted(input, key, x.key);
    var size := tbs.len + (tbs.idx - outer.idx);
    assert size == |ToBeSigned(x)|;
    var start := key.(idx := outer.idx + size);
    SignaturePrinted(input, start, x);
    BitsPrinted(input, ToSignature(input, start), x.signature);
    HeldSlice(input, outer.idx, ToBeSigned(x));
  }

  lemma PrintedFirst(a: Bytes, b: Bytes)
    ensures Holds(a + b, 0, a)
  {
  }

  lemma HeldSlice(input: Bytes, idx: nat, bs: Bytes)
    requires Holds(input, idx, bs)
    ensures Slice(idx, |bs|).Inside(|input|) && Slice(idx, |bs|).Of(input) == bs
  {
  }
}
