/** The public area of a TPM object: its printer and its clamping parser (tpm2_packet.c). */
module PublicArea {
  import opened Octets
  import opened Tpm
  import opened Packets

  // ---- values: a union field is present when the tag selects it ----

  datatype SymDef = SymDef(algorithm: u16, keyBits: u16, mode: u16) {
    /** Fields the algorithm does not marshal are zero, as the parser leaves them. */
    predicate Canonical() {
      && (algorithm == ALG_XOR ==> mode == 0)
      && (algorithm == ALG_NULL ==> keyBits == 0 && mode == 0)
    }
  }

  datatype Scheme = NoScheme | Scheme(alg: u16, hashAlg: u16) {
    predicate Valid() { Scheme? ==> alg != ALG_NULL }
  }

  datatype Parms =
    | KeyedHashParms(scheme: Scheme)
    | SymCipherParms(sym: SymDef)
    | RsaParms(sym: SymDef, scheme: Scheme, keyBits: u16, exponent: u32)
    | EccParms(sym: SymDef, scheme: Scheme, curve: u16, kdf: Scheme)
    | AsymParms(sym: SymDef, scheme: Scheme)
  {
    predicate Valid() {
      && (!KeyedHashParms? ==> sym.Canonical())
      && (!SymCipherParms? ==> scheme.Valid())
      && (EccParms? ==> kdf.Valid())
    }
  }

  datatype Unique = DigestId(id: Bytes) | RsaId(n: Bytes) | PointId(x: Bytes, y: Bytes) | NoId {
    predicate OnWire() {
      match this
      case DigestId(b) => |b| < 0x1_0000
      case RsaId(b) => |b| < 0x1_0000
      case PointId(x, y) => |x| < 0x1_0000 && |y| < 0x1_0000
      case NoId => true
    }

    function Clamp(): (r: Unique) {
      match this
      case DigestId(b) => DigestId(Take(b, MAX_DIGEST))
      case RsaId(b) => RsaId(Take(b, MAX_RSA))
      case PointId(x, y) => PointId(Take(x, MAX_ECC), Take(y, MAX_ECC))
      case NoId => NoId
    }
  }

  datatype Area = Area(typ: u16, nameAlg: u16, attrs: u32, authPolicy: Bytes, parms: Parms, unique: Unique) {
    predicate Tagged() {
      if typ == ALG_KEYEDHASH then parms.KeyedHashParms? && unique.DigestId?
      else if typ == ALG_SYMCIPHER then parms.SymCipherParms? && unique.DigestId?
      else if typ == ALG_RSA then parms.RsaParms? && unique.RsaId?
      else if typ == ALG_ECC then parms.EccParms? && unique.PointId?
      else parms.AsymParms? && unique.NoId?
    }

    /** A public area that has a wire form: byte strings may exceed what the host can hold. */
    predicate OnWire() { Tagged() && parms.Valid() && |authPolicy| < 0x1_0000 && unique.OnWire() }

    function Clamp(): (r: Area) {
      this.(authPolicy := Take(authPolicy, MAX_DIGEST), unique := unique.Clamp())
    }

    /** Every field fits the host's buffers. */
    predicate InCapacity() { OnWire() && Clamp() == this }
  }

  // ---- the wire form ----

  function EncSym(s: SymDef): (r: Bytes) {
    if s.algorithm == ALG_XOR then U16(s.algorithm) + U16(s.keyBits)
    else if s.algorithm == ALG_NULL then U16(s.algorithm)
    else U16(s.algorithm) + U16(s.keyBits) + U16(s.mode)
  }

  function EncScheme(s: Scheme): (r: Bytes) {
    match s
    case NoScheme => U16(ALG_NULL)
    case Scheme(a, h) => U16(a) + U16(h)
  }

  function EncParms(p: Parms): (r: Bytes) {
    match p
    case KeyedHashParms(scheme) => EncScheme(scheme)
    case SymCipherParms(sym) => EncSym(sym)
    case RsaParms(sym, scheme, bits, e) => EncSym(sym) + EncScheme(scheme) + U16(bits) + U32(e)
    case EccParms(sym, scheme, curve, kdf) => EncSym(sym) + EncScheme(scheme) + U16(curve) + EncScheme(kdf)
    case AsymParms(sym, scheme) => EncSym(sym) + EncScheme(scheme)
  }

  function EncUnique(u: Unique): (r: Bytes)
    requires u.OnWire()
  {
    match u
    case DigestId(b) => Sized(b)
    case RsaId(b) => Sized(b)
    case PointId(x, y) => Sized(x) + Sized(y)
    case NoId => []
  }

  function EncArea(a: Area): (r: Bytes)
    requires a.OnWire()
  {
    U16(a.typ) + U16(a.nameAlg) + U32(a.attrs) + Sized(a.authPolicy) + EncParms(a.parms) + EncUnique(a.unique)
  }

  // ---- what the appenders do to a packet, room or no room ----

  function AppSym(st: PState, s: SymDef): (r: PState)
    requires st.Valid()
    ensures r.Valid() && |r.buf| == |st.buf| && r.size == st.size
    ensures st.pos <= r.pos && (r.pos == st.pos || r.pos <= st.size)
  {
    var s1 := App(st, U16(s.algorithm));
    if s.algorithm == ALG_NULL then s1
    else
      var s2 := App(s1, U16(s.keyBits));
      if s.algorithm == ALG_XOR then s2 else App(s2, U16(s.mode))
  }

  function AppScheme(st: PState, s: Scheme): (r: PState)
    requires st.Valid()
    ensures r.Valid() && |r.buf| == |st.buf| && r.size == st.size
    ensures st.pos <= r.pos && (r.pos == st.pos || r.pos <= st.size)
  {
    match s
    case NoScheme => App(st, U16(ALG_NULL))
    case Scheme(a, h) => App(App(st, U16(a)), U16(h))
  }

  function AppParms(st: PState, p: Parms): (r: PState)
    requires st.Valid()
    ensures r.Valid() && |r.buf| == |st.buf| && r.size == st.size
    ensures st.pos <= r.pos && (r.pos == st.pos || r.pos <= st.size)
  {
    match p
    case KeyedHashParms(scheme) => AppScheme(st, scheme)
    case SymCipherParms(sym) => AppSym(st, sym)
    case RsaParms(sym, scheme, bits, e) => App(App(AppScheme(AppSym(st, sym), scheme), U16(bits)), U32(e))
    case EccParms(sym, scheme, curve, kdf) => AppScheme(App(AppScheme(AppSym(st, sym), scheme), U16(curve)), kdf)
    case AsymParms(sym, scheme) => AppScheme(AppSym(st, sym), scheme)
  }

  function AppUnique(st: PState, u: Unique): (r: PState)
    requires st.Valid() && u.OnWire()
    ensures r.Valid() && |r.buf| == |st.buf| && r.size == st.size
    ensures st.pos <= r.pos && (r.pos == st.pos || r.pos <= st.size)
  {
    match u
    case DigestId(b) => AppSized(st, b)
    case RsaId(b) => AppSized(st, b)
    case PointId(x, y) => AppSized(AppSized(st, x), y)
    case NoId => st
  }

  function AppArea(st: PState, a: Area): (r: PState)
    requires st.Valid() && a.OnWire()
    ensures r.Valid() && |r.buf| == |st.buf| && r.size == st.size
    ensures st.pos <= r.pos && (r.pos == st.pos || r.pos <= st.size)
  {
    var s1 := AppSized(App(App(App(st, U16(a.typ)), U16(a.nameAlg)), U32(a.attrs)), a.authPolicy);
    AppUnique(AppParms(s1, a.parms), a.unique)
  }

  /** The packet and the size it records for pub->size. */
  function AppPublic(st: PState, a: Area): (r: (PState, nat))
    requires st.Valid() && a.OnWire()
  {
    Place(AppArea(App(st, Zeros(2)), a), st.pos, 2)
  }

  lemma AppSymFits(st: PState, s: SymDef)
    requires st.Valid() && st.pos + |EncSym(s)| <= st.size
    ensures AppSym(st, s) == App(st, EncSym(s))
  {
    if s.algorithm != ALG_NULL {
      AppApp(st, U16(s.algorithm), U16(s.keyBits));
      if s.algorithm != ALG_XOR {
        AppApp(st, U16(s.algorithm) + U16(s.keyBits), U16(s.mode));
      }
    }
  }

  lemma AppSchemeFits(st: PState, s: Scheme)
    requires st.Valid() && st.pos + |EncScheme(s)| <= st.size
    ensures AppScheme(st, s) == App(st, EncScheme(s))
  {
    if s.Scheme? { AppApp(st, U16(s.alg), U16(s.hashAlg)); }
  }

  lemma AppSymSchemeFits(st: PState, sym: SymDef, scheme: Scheme)
    requires st.Valid() && st.pos + |EncSym(sym)| + |EncScheme(scheme)| <= st.size
    ensures AppScheme(AppSym(st, sym), scheme) == App(st, EncSym(sym) + EncScheme(scheme))
  {
    AppSymFits(st, sym);
    AppSchemeFits(App(st, EncSym(sym)), scheme);
    AppApp(st, EncSym(sym), EncScheme(scheme));
  }

  lemma AppParmsFits(st: PState, p: Parms)
    requires st.Valid() && st.pos + |EncParms(p)| <= st.size
    ensures AppParms(st, p) == App(st, EncParms(p))
  {
    match p
    case KeyedHashParms(scheme) => AppSchemeFits(st, scheme);
    case SymCipherParms(sym) => AppSymFits(st, sym);
    case RsaParms(sym, scheme, bits, e) =>
      var ss := EncSym(sym) + EncScheme(scheme);
      AppSymSchemeFits(st, sym, scheme);
      AppApp(st, ss, U16(bits));
      AppApp(st, ss + U16(bits), U32(e));
    case EccParms(sym, scheme, curve, kdf) =>
      var ss := EncSym(sym) + EncScheme(scheme);
      AppSymSchemeFits(st, sym, scheme);
      AppApp(st, ss, U16(curve));
      AppSchemeFits(App(st, ss + U16(curve)), kdf);
      AppApp(st, ss + U16(curve), EncScheme(kdf));
    case AsymParms(sym, scheme) => AppSymSchemeFits(st, sym, scheme);
  }

  lemma AppUniqueFits(st: PState, u: Unique)
    requires st.Valid() && u.OnWire() && st.pos + |EncUnique(u)| <= st.size
    ensures AppUnique(st, u) == App(st, EncUnique(u))
  {
    match u
    case DigestId(b) => AppSizedFits(st, b);
    case RsaId(b) => AppSizedFits(st, b);
    case PointId(x, y) =>
      AppSizedFits(st, x);
      AppSizedFits(App(st, Sized(x)), y);
      AppApp(st, Sized(x), Sized(y));
    case NoId => SpliceSelf(st.buf, st.pos, 0);
  }

  /** With room in the buffer the appenders print the wire form. */
  lemma AppAreaFits(st: PState, a: Area)
    requires st.Valid() && a.OnWire() && st.pos + |EncArea(a)| <= st.size
    ensures AppArea(st, a) == App(st, EncArea(a))
  {
    var h2 := U16(a.typ) + U16(a.nameAlg);
    var h3 := h2 + U32(a.attrs);
    var h4 := h3 + Sized(a.authPolicy);
    var h5 := h4 + EncParms(a.parms);
    AppApp(st, U16(a.typ), U16(a.nameAlg));
    AppApp(st, h2, U32(a.attrs));
    AppSizedFits(App(st, h3), a.authPolicy);
    AppApp(st, h3, Sized(a.authPolicy));
    AppParmsFits(App(st, h4), a.parms);
    AppApp(st, h4, EncParms(a.parms));
    AppUniqueFits(App(st, h5), a.unique);
    AppApp(st, h5, EncUnique(a.unique));
  }

  lemma AppPublicFits(st: PState, a: Area)
    requires st.Valid() && a.OnWire() && st.pos + 2 + |EncArea(a)| <= st.size && |EncArea(a)| < 0x1_0000
    ensures AppPublic(st, a) == (App(st, Sized(EncArea(a))), |EncArea(a)|)
  {
    AppAreaFits(App(st, Zeros(2)), a);
    MarkedPlace(st, 2, EncArea(a));
  }

  // ---- what the parsers return, wherever the packet ends ----

  function GetSym(st: PState): (r: (SymDef, PState))
    requires st.Valid()
    ensures r.1.Valid() && r.1.buf == st.buf && r.1.size == st.size
  {
    Pow256Values();
    var (alg, s1) := GetU(st, 2);
    if alg == ALG_NULL then (SymDef(alg, 0, 0), s1)
    else
      var (bits, s2) := GetU(s1, 2);
      if alg == ALG_XOR then (SymDef(alg, bits, 0), s2)
      else
        var (mode, s3) := GetU(s2, 2);
        (SymDef(alg, bits, mode), s3)
  }

  function GetScheme(st: PState): (r: (Scheme, PState))
    requires st.Valid()
    ensures r.1.Valid() && r.1.buf == st.buf && r.1.size == st.size
  {
    Pow256Values();
    var (alg, s1) := GetU(st, 2);
    if alg == ALG_NULL then (NoScheme, s1)
    else
      var (h, s2) := GetU(s1, 2);
      (Scheme(alg, h), s2)
  }

  function GetParms(st: PState, typ: u16): (r: (Parms, PState))
    requires st.Valid()
    ensures r.1.Valid() && r.1.buf == st.buf && r.1.size == st.size
  {
    Pow256Values();
    if typ == ALG_KEYEDHASH then
      var (scheme, s1) := GetScheme(st);
      (KeyedHashParms(scheme), s1)
    else
      var (sym, s1) := GetSym(st);
      if typ == ALG_SYMCIPHER then (SymCipherParms(sym), s1)
      else
        var (scheme, s2) := GetScheme(s1);
        if typ == ALG_RSA then
          var (bits, s3) := GetU(s2, 2);
          var (e, s4) := GetU(s3, 4);
          (RsaParms(sym, scheme, bits, e), s4)
        else if typ == ALG_ECC then
          var (curve, s3) := GetU(s2, 2);
          var (kdf, s4) := GetScheme(s3);
          (EccParms(sym, scheme, curve, kdf), s4)
        else (AsymParms(sym, scheme), s2)
  }

  function GetUnique(st: PState, typ: u16): (r: (Unique, PState))
    requires st.Valid()
    ensures r.1.Valid() && r.1.buf == st.buf && r.1.size == st.size
  {
    if typ == ALG_KEYEDHASH || typ == ALG_SYMCIPHER then
      var (b, s1) := GetSized(st, MAX_DIGEST);
      (DigestId(b), s1)
    else if typ == ALG_RSA then
      var (b, s1) := GetSized(st, MAX_RSA);
      (RsaId(b), s1)
    else if typ == ALG_ECC then
      var (x, s1) := GetSized(st, MAX_ECC);
      var (y, s2) := GetSized(s1, MAX_ECC);
      (PointId(x, y), s2)
    else (NoId, st)
  }

  function GetArea(st: PState): (r: (Area, PState))
    requires st.Valid()
    ensures r.1.Valid() && r.1.buf == st.buf && r.1.size == st.size
  {
    Pow256Values();
    var (typ, s1) := GetU(st, 2);
    var (nameAlg, s2) := GetU(s1, 2);
    var (attrs, s3) := GetU(s2, 4);
    var (policy, s4) := GetSized(s3, MAX_DIGEST);
    var (parms, s5) := GetParms(s4, typ);
    var (unique, s6) := GetUnique(s5, typ);
    (Area(typ, nameAlg, attrs, policy, parms, unique), s6)
  }

  function GetPublic(st: PState): (r: (u16, Option<Area>, PState))
    requires st.Valid()
  {
    Pow256Values();
    var (n, s1) := GetU(st, 2);
    if n > 0 then
      var (a, s2) := GetArea(s1);
      (n, Some(a), s2)
    else (n, None, s1)
  }

  lemma GetSymAt(st: PState, s: SymDef)
    requires s.Canonical() && st.At(EncSym(s))
    ensures GetSym(st) == (s, st.Skip(|EncSym(s)|))
  {
    var a, k, m := U16(s.algorithm), U16(s.keyBits), U16(s.mode);
    if s.algorithm == ALG_NULL {
      GetUAt(st, a);
    } else if s.algorithm == ALG_XOR {
      AtSplit(st, a, k);
      GetUAt(st, a); GetUAt(st.Skip(2), k);
    } else {
      AtSplit(st, a + k, m); AtSplit(st, a, k);
      GetUAt(st, a); GetUAt(st.Skip(2), k); GetUAt(st.Skip(4), m);
    }
  }

  lemma GetSchemeAt(st: PState, s: Scheme)
    requires s.Valid() && st.At(EncScheme(s))
    ensures GetScheme(st) == (s, st.Skip(|EncScheme(s)|))
  {
    match s
    case NoScheme => GetUAt(st, U16(ALG_NULL));
    case Scheme(a, h) =>
      AtSplit(st, U16(a), U16(h));
      GetUAt(st, U16(a)); GetUAt(st.Skip(2), U16(h));
  }

  lemma GetSymSchemeAt(st: PState, sym: SymDef, scheme: Scheme)
    requires sym.Canonical() && scheme.Valid() && st.At(EncSym(sym) + EncScheme(scheme))
    ensures GetSym(st) == (sym, st.Skip(|EncSym(sym)|))
    ensures GetScheme(st.Skip(|EncSym(sym)|)) == (scheme, st.Skip(|EncSym(sym) + EncScheme(scheme)|))
  {
    AtSplit(st, EncSym(sym), EncScheme(scheme));
    GetSymAt(st, sym);
    GetSchemeAt(st.Skip(|EncSym(sym)|), scheme);
  }

  predicate ParmsTagged(typ: u16, p: Parms) {
    if typ == ALG_KEYEDHASH then p.KeyedHashParms?
    else if typ == ALG_SYMCIPHER then p.SymCipherParms?
    else if typ == ALG_RSA then p.RsaParms?
    else if typ == ALG_ECC then p.EccParms?
    else p.AsymParms?
  }

  lemma GetParmsAt(st: PState, typ: u16, p: Parms)
    requires ParmsTagged(typ, p) && p.Valid() && st.At(EncParms(p))
    ensures GetParms(st, typ) == (p, st.Skip(|EncParms(p)|))
  {
    hide U16, U32, GetU, GetSym, GetScheme, EncSym, EncScheme, PState.At, Nat;
    match p
    case KeyedHashParms(scheme) => GetSchemeAt(st, scheme);
    case SymCipherParms(sym) => GetSymAt(st, sym);
    case RsaParms(sym, scheme, bits, e) =>
      var ss := EncSym(sym) + EncScheme(scheme);
      AtSplit(st, ss + U16(bits), U32(e));
      AtSplit(st, ss, U16(bits));
      GetSymSchemeAt(st, sym, scheme);
      GetUAt(st.Skip(|ss|), U16(bits));
      GetUAt(st.Skip(|ss| + 2), U32(e));
    case EccParms(sym, scheme, curve, kdf) =>
      var ss := EncSym(sym) + EncScheme(scheme);
      AtSplit(st, ss + U16(curve), EncScheme(kdf));
      AtSplit(st, ss, U16(curve));
      GetSymSchemeAt(st, sym, scheme);
      GetUAt(st.Skip(|ss|), U16(curve));
      GetSchemeAt(st.Skip(|ss| + 2), kdf);
    case AsymParms(sym, scheme) => GetSymSchemeAt(st, sym, scheme);
  }

  lemma GetUniqueAt(st: PState, a: Area)
    requires a.OnWire() && st.At(EncUnique(a.unique))
    ensures GetUnique(st, a.typ) == (a.unique.Clamp(), st.Skip(|EncUnique(a.unique)|))
  {
    match a.unique
    case DigestId(b) => GetSizedAt(st, b, MAX_DIGEST);
    case RsaId(b) => GetSizedAt(st, b, MAX_RSA);
    case PointId(x, y) =>
      AtSplit(st, Sized(x), Sized(y));
      GetSizedAt(st, x, MAX_ECC);
      GetSizedAt(st.Skip(|Sized(x)|), y, MAX_ECC);
    case NoId =>
  }

  /** On any wire image the parser ends where the image ends, oversized fields or not, and keeps each field up to its
      capacity. */
  lemma GetAreaAt(st: PState, a: Area)
    requires a.OnWire() && st.At(EncArea(a))
    ensures GetArea(st) == (a.Clamp(), st.Skip(|EncArea(a)|))
  {
    hide U16, U32, Sized, EncParms, EncUnique, GetU, GetBytes, GetSized, GetParms, GetUnique, PState.At, Nat;
    var h2 := U16(a.typ) + U16(a.nameAlg);
    var h3 := h2 + U32(a.attrs);
    var h4 := h3 + Sized(a.authPolicy);
    var h5 := h4 + EncParms(a.parms);
    AtSplit(st, h5, EncUnique(a.unique));
    AtSplit(st, h4, EncParms(a.parms));
    AtSplit(st, h3, Sized(a.authPolicy));
    AtSplit(st, h2, U32(a.attrs));
    AtSplit(st, U16(a.typ), U16(a.nameAlg));
    GetUAt(st, U16(a.typ));
    GetUAt(st.Skip(2), U16(a.nameAlg));
    GetUAt(st.Skip(4), U32(a.attrs));
    GetSizedAt(st.Skip(8), a.authPolicy, MAX_DIGEST);
    GetParmsAt(st.Skip(|h4|), a.typ, a.parms);
    GetUniqueAt(st.Skip(|h5|), a);
  }

  /** The same with the size in front, which the parser only compares with zero. */
  lemma GetPublicAt(st: PState, n: u16, a: Area)
    requires n > 0 && a.OnWire() && st.At(U16(n) + EncArea(a))
    ensures GetPublic(st) == (n, Some(a.Clamp()), st.Skip(2 + |EncArea(a)|))
  {
    hide U16, GetU, GetArea, EncArea, PState.At, Nat;
    AtSplit(st, U16(n), EncArea(a));
    GetUAt(st, U16(n));
    GetAreaAt(st.Skip(2), a);
  }

  // ---- the appenders and parsers ----

  method AppendSymmetric(p: Packet, s: SymDef)
    requires p.Valid()
    modifies p`pos, p.buf
    ensures p.Valid() && p.State() == AppSym(old(p.State()), s)
  {
    p.AppendU16(s.algorithm);
    if s.algorithm == ALG_XOR {
      p.AppendU16(s.keyBits);
    } else if s.algorithm != ALG_NULL {
      p.AppendU16(s.keyBits);
      p.AppendU16(s.mode);
    }
  }

  method ParseSymmetric(p: Packet) returns (s: SymDef)
    requires p.Valid()
    modifies p`pos
    ensures p.Valid() && (s, p.State()) == GetSym(old(p.State()))
  {
    var alg := p.ParseU16();
    s := SymDef(alg, 0, 0);
    if alg == ALG_XOR {
      var bits := p.ParseU16();
      s := s.(keyBits := bits);
    } else if alg != ALG_NULL {
      var bits := p.ParseU16();
      var mode := p.ParseU16();
      s := s.(keyBits := bits, mode := mode);
    }
  }

  /** The five scheme appenders of the source differ only in the union they read the hash algorithm from. */
  method AppendScheme(p: Packet, s: Scheme)
    requires p.Valid()
    modifies p`pos, p.buf
    ensures p.Valid() && p.State() == AppScheme(old(p.State()), s)
  {
    match s
    case NoScheme => p.AppendU16(ALG_NULL);
    case Scheme(alg, hashAlg) =>
      p.AppendU16(alg);
      p.AppendU16(hashAlg);
  }

  method ParseScheme(p: Packet) returns (s: Scheme)
    requires p.Valid()
    modifies p`pos
    ensures p.Valid() && (s, p.State()) == GetScheme(old(p.State()))
  {
    s := NoScheme;
    var alg := p.ParseU16();
    if alg != ALG_NULL {
      var hashAlg := p.ParseU16();
      s := Scheme(alg, hashAlg);
    }
  }

  method AppendPublicParms(p: Packet, parms: Parms)
    requires p.Valid()
    modifies p`pos, p.buf
    ensures p.Valid() && p.State() == AppParms(old(p.State()), parms)
  {
    match parms
    case KeyedHashParms(scheme) => AppendScheme(p, scheme);
    case SymCipherParms(sym) => AppendSymmetric(p, sym);
    case RsaParms(sym, scheme, bits, e) =>
      AppendSymmetric(p, sym);
      AppendScheme(p, scheme);
      p.AppendU16(bits);
      p.AppendU32(e);
    case EccParms(sym, scheme, curve, kdf) =>
      AppendSymmetric(p, sym);
      AppendScheme(p, scheme);
      p.AppendU16(curve);
      AppendScheme(p, kdf);
    case AsymParms(sym, scheme) =>
      AppendSymmetric(p, sym);
      AppendScheme(p, scheme);
  }

  method ParsePublicParms(p: Packet, typ: u16) returns (parms: Parms)
    requires p.Valid()
    modifies p`pos
    ensures p.Valid() && (parms, p.State()) == GetParms(old(p.State()), typ)
  {
    if typ == ALG_KEYEDHASH {
      var scheme := ParseScheme(p);
      parms := KeyedHashParms(scheme);
    } else if typ == ALG_SYMCIPHER {
      var sym := ParseSymmetric(p);
      parms := SymCipherParms(sym);
    } else {
      var sym := ParseSymmetric(p);
      var scheme := ParseScheme(p);
      if typ == ALG_RSA {
        var bits := p.ParseU16();
        var e := p.ParseU32();
        parms := RsaParms(sym, scheme, bits, e);
      } else if typ == ALG_ECC {
        var curve := p.ParseU16();
        var kdf := ParseScheme(p);
        parms := EccParms(sym, scheme, curve, kdf);
      } else {
        parms := AsymParms(sym, scheme);
      }
    }
  }

  method AppendEccPoint(p: Packet, x: Bytes, y: Bytes)
    requires p.Valid() && |x| < 0x1_0000 && |y| < 0x1_0000
    modifies p`pos, p.buf
    ensures p.Valid() && p.State() == AppUnique(old(p.State()), PointId(x, y))
  {
    p.AppendSized(x);
    p.AppendSized(y);
  }

  method ParseEccPoint(p: Packet) returns (x: Bytes, y: Bytes)
    requires p.Valid()
    modifies p`pos
    ensures p.Valid() && (PointId(x, y), p.State()) == GetUnique(old(p.State()), ALG_ECC)
  {
    x := p.ParseSized(MAX_ECC);
    y := p.ParseSized(MAX_ECC);
  }

  method AppendPublicArea(p: Packet, a: Area)
    requires p.Valid() && a.OnWire()
    modifies p`pos, p.buf
    ensures p.Valid() && p.State() == AppArea(old(p.State()), a)
  {
    p.AppendU16(a.typ);
    p.AppendU16(a.nameAlg);
    p.AppendU32(a.attrs);
    p.AppendSized(a.authPolicy);
    AppendPublicParms(p, a.parms);
    match a.unique
    case DigestId(b) => p.AppendSized(b);
    case RsaId(b) => p.AppendSized(b);
    case PointId(x, y) => AppendEccPoint(p, x, y);
    case NoId =>
  }

  method AppendPublic(p: Packet, a: Area) returns (size: nat)
    requires p.Valid() && a.OnWire()
    modifies p`pos, p.buf
    ensures p.Valid() && (p.State(), size) == AppPublic(old(p.State()), a)
  {
    var mark := p.MarkU16();
    AppendPublicArea(p, a);
    size := p.PlaceSize(mark, 2);
  }

  method ParsePublic(p: Packet) returns (size: u16, a: Option<Area>)
    requires p.Valid()
    modifies p`pos
    ensures p.Valid() && (size, a, p.State()) == GetPublic(old(p.State()))
  {
    a := None;
    size := p.ParseU16();
    if size > 0 {
      var typ := p.ParseU16();
      var nameAlg := p.ParseU16();
      var attrs := p.ParseU32();
      var policy := p.ParseSized(MAX_DIGEST);
      var parms := ParsePublicParms(p, typ);
      var unique := NoId;
      if typ == ALG_KEYEDHASH || typ == ALG_SYMCIPHER {
        var b := p.ParseSized(MAX_DIGEST);
        unique := DigestId(b);
      } else if typ == ALG_RSA {
        var b := p.ParseSized(MAX_RSA);
        unique := RsaId(b);
      } else if typ == ALG_ECC {
        var x, y := ParseEccPoint(p);
        unique := PointId(x, y);
      }
      a := Some(Area(typ, nameAlg, attrs, policy, parms, unique));
    }
  }

  // ---- TPM2_AppendPublic and TPM2_ParsePublic (tpm2.c) ----

  /** sizeof(TPM2B_PUBLIC) with the default capacities. */
  const SIZEOF_PUBLIC := 616

  /** Everything the host can hold fits a buffer of that size, so the public entry point never drops a field. */
  lemma InCapacityFits(a: Area)
    requires a.InCapacity()
    ensures 2 + |EncArea(a)| <= SIZEOF_PUBLIC
  {
    hide U16, U32;
    assert |a.authPolicy| <= MAX_DIGEST;
    assert |EncParms(a.parms)| <= 16;
    assert |EncUnique(a.unique)| <= 2 + MAX_RSA;
  }

  /** The sized public area of an object the host can hold. */
  function PublicBytes(a: Area): (r: Bytes)
    requires a.InCapacity()
    ensures |r| <= SIZEOF_PUBLIC
  {
    InCapacityFits(a);
    Sized(EncArea(a))
  }

  /** Parsing what was appended gives the value back, consumes exactly what was written, and that is the recorded size
      plus two. */
  lemma PublicRoundTrip(buf: Bytes, size: nat, a: Area)
    requires a.InCapacity() && SIZEOF_PUBLIC <= size <= |buf|
    ensures var (st, n) := AppPublic(PState(buf, 0, size), a);
      var (m, b, st') := GetPublic(st.(pos := 0));
      st.pos == n + 2 && m == n && b == Some(a) && st' == st
  {
    hide U16, U32, EncArea, AppPublic, AppArea, GetPublic, App;
    InCapacityFits(a);
    var st0 := PState(buf, 0, size);
    AppPublicFits(st0, a);
    AppAt(st0, Sized(EncArea(a)));
    AppEnd(st0, Sized(EncArea(a)));
    AreaNotEmpty(a);
    GetPublicAt(App(st0, Sized(EncArea(a))).(pos := 0), |EncArea(a)|, a);
  }

  lemma AppEnd(st: PState, bs: Bytes)
    requires st.Valid() && st.pos + |bs| <= st.size
    ensures App(st, bs).pos == st.pos + |bs|
  {
  }

  lemma AreaNotEmpty(a: Area)
    requires a.OnWire()
    ensures |EncArea(a)| >= 8
  {
    hide U16, U32, Sized, EncParms, EncUnique;
  }

  method AppendPublicTo(buf: array<byte>, size: nat, a: Area) returns (rc: int, sizeUsed: nat, pubSize: nat)
    requires size <= buf.Length && a.InCapacity()
    modifies buf
    ensures rc == if size < SIZEOF_PUBLIC then RC_FAILURE else RC_SUCCESS
    ensures rc != RC_SUCCESS ==> buf[..] == old(buf[..])
    ensures rc == RC_SUCCESS ==> sizeUsed == pubSize + 2 && buf[..] == Splice(old(buf[..]), 0, PublicBytes(a))
  {
    hide EncArea, AppArea, U16;
    sizeUsed, pubSize := 0, 0;
    if size < SIZEOF_PUBLIC { return RC_FAILURE, 0, 0; }
    InCapacityFits(a);
    AppPublicFits(PState(buf[..], 0, size), a);
    var p := new Packet(buf, 0, size);
    pubSize := AppendPublic(p, a);
    return RC_SUCCESS, p.pos, pubSize;
  }

  method ParsePublicFrom(buf: array<byte>, size: nat) returns (sizeUsed: nat, pubSize: u16, a: Option<Area>)
    requires size <= buf.Length
    ensures (pubSize, a, PState(buf[..], sizeUsed, size)) == GetPublic(PState(buf[..], 0, size))
  {
    var p := new Packet(buf, 0, size);
    pubSize, a := ParsePublic(p);
    sizeUsed := p.pos;
  }
}
