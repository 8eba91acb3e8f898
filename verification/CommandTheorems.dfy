/** What the two passes over the auth area guarantee together. */
module CommandTheorems {
  import opened Octets
  import opened Tpm
  import opened Packets
  import opened Sessions
  import opened ParamEnc
  import opened Commands

  // ---- the count of authorisations ----

  predicate MoreFlags(f: Flags, g: Flags) {
    && (f.enc2 || f.enc4 ==> g.enc2 || g.enc4) && (f.dec2 || f.dec4 ==> g.dec2 || g.dec4)
    && (f.user1 || f.admin || f.dup ==> g.user1 || g.admin || g.dup) && (f.user2 ==> g.user2)
  }

  predicate MoreAttrs(s: AuthSession, t: AuthSession) {
    && s.handle == t.handle
    && (HasBit(s.attrs, SESSION_DECRYPT) ==> HasBit(t.attrs, SESSION_DECRYPT))
    && (HasBit(s.attrs, SESSION_ENCRYPT) ==> HasBit(t.attrs, SESSION_ENCRYPT))
    && (HasBit(s.attrs, SESSION_AUDIT) ==> HasBit(t.attrs, SESSION_AUDIT))
  }

  /** More command flags and more session attributes never lower the count, whatever slot the search broke off at. */
  lemma {:induction false} CountMonotone(
    ss: seq<AuthSession>, tt: seq<AuthSession>, f: Flags, g: Flags, slot: nat, m: nat, n: nat)
    requires slot <= |ss| == |tt| && m <= n && MoreFlags(f, g)
    requires forall i :: slot <= i < |ss| ==> MoreAttrs(ss[i], tt[i])
    ensures CountFrom(ss, Some(f), slot, m) <= CountFrom(tt, Some(g), slot, n)
    decreases |ss| - slot
  {
    hide HasBit, IsHmacSession, IsPolicySession;
    if slot < |ss| {
      assert MoreAttrs(ss[slot], tt[slot]);
      var a := Accepts(Some(f), slot, ss[slot], m);
      if a || !Stops(Some(f), slot, ss[slot], m) {
        var b := Accepts(Some(g), slot, tt[slot], n);
        CountMonotone(ss, tt, f, g, slot + 1, if a then m + 1 else m, if b then n + 1 else n);
      }
    }
  }

  lemma {:induction false} LaterSlotsCount(
    ss: seq<AuthSession>, tt: seq<AuthSession>, info: Option<Flags>, slot: nat, n: nat)
    requires slot <= |ss| == |tt| && forall i :: slot <= i < |ss| ==> ss[i] == tt[i]
    ensures CountFrom(ss, info, slot, n) == CountFrom(tt, info, slot, n)
    decreases |ss| - slot
  {
    hide Accepts, Stops;
    if slot < |ss| {
      LaterSlotsCount(ss, tt, info, slot + 1, n);
      LaterSlotsCount(ss, tt, info, slot + 1, n + 1);
    }
  }

  /** An HMAC session in slot 0 counts for no more than an idle one: the count is the same with either. */
  lemma HmacFirstNotCounted(ss: seq<AuthSession>, f: Flags, idle: AuthSession)
    requires |ss| == MAX_SESSION_NUM && IsHmacSession(ss[0].handle)
    requires !idle.IsPassword() && !IsPolicySession(idle.handle)
    ensures CountFrom(ss, Some(f), 0, 0) == CountFrom(ss[0 := idle], Some(f), 0, 0)
  {
    LaterSlotsCount(ss, ss[0 := idle], Some(f), 1, 0);
  }

  /** With a password in slot 0 and an HMAC session in slot 1 the count is 0 unless the command needs its first
      authorisation; then it is the password, the session exactly if it encrypts a parameter the command has, decrypts
      one the response has, or audits, and the same for an HMAC session behind it. */
  lemma PasswordThenHmac(ss: seq<AuthSession>, f: Flags)
    requires |ss| == MAX_SESSION_NUM && ss[0].handle == 0x4000_0009 && IsHmacSession(ss[1].handle)
    ensures CountFrom(ss, Some(f), 0, 0) ==
            if !(f.user1 || f.admin || f.dup) then 0
            else 1 + (if Serving(ss[1].attrs, f) then 1 else 0)
                   + (if IsHmacSession(ss[2].handle) && Serving(ss[2].attrs, f) then 1 else 0)
  {
    hide HasBit;
    var one := if Serving(ss[1].attrs, f) then 2 else 1;
    if f.user1 || f.admin || f.dup {
      assert CountFrom(ss, Some(f), 0, 0) == CountFrom(ss, Some(f), 1, 1);
      assert CountFrom(ss, Some(f), 1, 1) == CountFrom(ss, Some(f), 2, one);
      assert CountFrom(ss, Some(f), 3, one) == one && CountFrom(ss, Some(f), 3, one + 1) == one + 1;
    }
  }

  /** Decrypt serves a command with a sized first parameter, encrypt a response with one, audit any command. */
  predicate Serving(attrs: byte, f: Flags) {
    || (HasBit(attrs, 0x20) && (f.enc2 || f.enc4))
    || (HasBit(attrs, 0x40) && (f.dec2 || f.dec4))
    || HasBit(attrs, 0x80)
  }

  /** Without command information nothing is counted, whatever the sessions. */
  lemma NothingCountedWithoutInfo(ss: seq<AuthSession>)
    ensures CountFrom(ss, None, 0, 0) == 0
  {
  }

  /** A session is sent with the attributes it has, but never asks for encryption of a parameter the command or the
      response does not have. */
  lemma SentAttrsBits(s: AuthSession, flags: Flags)
    requires s.IsKeyed()
    ensures HasBit(SentAttrs(s, flags), SESSION_DECRYPT) <==> HasBit(s.attrs, SESSION_DECRYPT) && flags.EncWidth() > 0
    ensures HasBit(SentAttrs(s, flags), SESSION_ENCRYPT) <==> HasBit(s.attrs, SESSION_ENCRYPT) && flags.DecWidth() > 0
    ensures SentAttrs(s, flags) % SESSION_DECRYPT == s.attrs % SESSION_DECRYPT
    ensures HasBit(SentAttrs(s, flags), SESSION_AUDIT) <==> HasBit(s.attrs, SESSION_AUDIT)
  {
  }

  // ---- reservation against filling ----

  /** Bytes CommandProcess writes for a session. */
  function FillSize(s: AuthSession): (r: nat) {
    9 + |s.nonceCaller| + if s.IsPassword() then |s.auth| else if s.IsKeyed() then DigestSize(s.authHash) else 0
  }

  function FillSum(sess: seq<AuthSession>, n: nat): (r: nat)
    requires n <= |sess|
  {
    if n == 0 then 0 else FillSum(sess, n - 1) + FillSize(sess[n - 1])
  }

  /** The condition a caller has to meet for one slot. */
  predicate SlotAgrees(s: AuthSession) {
    if s.IsPassword() then s.nonceCaller == []
    else s.IsKeyed() ==> s.policyAuth || |s.auth| == 0 || |s.auth| == DigestSize(s.authHash)
  }

  lemma ReservedIffAgrees(s: AuthSession)
    ensures Reserved(s) == FillSize(s) <==> SlotAgrees(s)
  {
  }

  lemma {:induction false} SumsAgree(sess: seq<AuthSession>, n: nat)
    requires n <= |sess| && forall i :: 0 <= i < n ==> SlotAgrees(sess[i])
    ensures ReservedSum(sess, n) == FillSum(sess, n)
  {
    if n > 0 {
      ReservedIffAgrees(sess[n - 1]);
      SumsAgree(sess, n - 1);
    }
  }

  /** A slot that is filled without error is one authorisation of the expected size at the position. */
  lemma FillSlotSize(c: Suite, l: Layout, reply: RngReply, s: AuthSession, st: PState)
    requires st.Valid() && l.Inside(st.size) && s.Fits() && reply.Answers(|s.nonceCaller|)
    requires st.pos + FillSize(s) <= st.size
    ensures var f := FillSlot(c, l, reply, s, st);
      FillSize(f.session) == FillSize(s) && (f.rc == RC_SUCCESS ==> f.st.pos == st.pos + FillSize(s))
  {
    hide Splice, Encrypt, CpHash, AuthHmac, Cipher.Error, AppAuthCommand, EncAuthCommand, HasBit, DigestSize;
    if s.IsPassword() || reply.Nonce? {
      var s' := if s.IsPassword() then s else Refresh(s, reply.bytes);
      var (rc, buf') := Encrypted(c, l, s', st.buf);
      if rc == RC_SUCCESS && !(s'.IsKeyed() && DigestSize(s'.authHash) == 0) {
        var a := Authorise(c, l, s', buf'[l.paramOff..l.cmdSz]);
        assert |EncAuthCommand(a)| == FillSize(s);
        AppAuthCommandFits(st.(buf := buf'), a);
        AppWhole(st.(buf := buf'), EncAuthCommand(a));
      }
    }
  }

  lemma {:induction false} FillSumKept(ss: seq<AuthSession>, tt: seq<AuthSession>, n: nat)
    requires n <= |ss| == |tt| && forall i :: 0 <= i < n ==> FillSize(ss[i]) == FillSize(tt[i])
    ensures FillSum(ss, n) == FillSum(tt, n)
  {
    if n > 0 { FillSumKept(ss, tt, n - 1); }
  }

  lemma FillSumSplit(sess: seq<AuthSession>, i: nat, n: nat)
    requires i <= n <= |sess|
    ensures FillSum(sess, i) <= FillSum(sess, n)
    decreases n
  {
    if i < n { FillSumSplit(sess, i, n - 1); }
  }

  lemma {:induction false} FillSlotsSize(c: Suite, l: Layout, rng: Rng, i: nat, sess: seq<AuthSession>, st: PState)
    requires i <= l.info.authCnt <= |sess| && AllFit(sess) && st.Valid() && l.Inside(st.size)
    requires st.pos + (FillSum(sess, l.info.authCnt) - FillSum(sess, i)) <= st.size
    ensures var f := FillSlots(c, l, rng, i, sess, st);
      f.rc == RC_SUCCESS ==> f.st.pos == st.pos + (FillSum(sess, l.info.authCnt) - FillSum(sess, i))
    decreases l.info.authCnt - i
  {
    hide FillSlot, FillSize, Layout.Inside;
    var n := l.info.authCnt;
    if i < n {
      var f := FillSlot(c, l, rng(i, |sess[i].nonceCaller|), sess[i], st);
      FillSumSplit(sess, i + 1, n);
      FillSlotSize(c, l, rng(i, |sess[i].nonceCaller|), sess[i], st);
      var sess' := sess[i := f.session];
      FillSumKept(sess, sess', n);
      FillSumKept(sess, sess', i + 1);
      if f.rc == RC_SUCCESS { FillSlotsSize(c, l, rng, i + 1, sess', f.st); }
    }
  }

  /** Once every slot is filled, the command succeeds exactly when the size field holds what the slots take;
      otherwise the result is BUFFER_E. */
  lemma SucceedsIffReserved(c: Suite, rng: Rng, sess: seq<AuthSession>, st: PState, info: CmdInfo, cc: u32, cmdSz: nat)
    requires WellFormed(st, info, sess, cmdSz)
    requires AuthSzPos(info) + 4 + FillSum(sess, info.authCnt) <= st.size
    ensures var f := Filling(c, rng, sess, st, info, cc, cmdSz);
      var r := ProcessCommand(c, rng, sess, st, info, cc, cmdSz);
      r.rc == if f.rc != RC_SUCCESS then f.rc
              else if AuthSzOf(st.buf, info) == FillSum(sess, info.authCnt) then RC_SUCCESS else BUFFER_E
  {
    hide FillSlots, LayoutOf, FillSum, AuthSzOf, Nat;
    var l := LayoutOf(st, info, sess, cc, cmdSz);
    var m := App(st.(pos := AuthSzPos(info)), Zeros(4));
    AppWhole(st.(pos := AuthSzPos(info)), Zeros(4));
    FillSumZero(sess);
    FillSlotsSize(c, l, rng, 0, sess, m);
  }

  lemma FillSumZero(sess: seq<AuthSession>)
    ensures FillSum(sess, 0) == 0
  {
  }

  // ---- what a successful command leaves alone ----

  /** Equal but for the stretches [lo, hi) and [x, y). */
  predicate SameBut(a: Bytes, b: Bytes, lo: nat, hi: nat, x: nat, y: nat) {
    |a| == |b| && forall j :: 0 <= j < |a| && !(lo <= j < hi) && !(x <= j < y) ==> a[j] == b[j]
  }

  lemma AppSame(st: PState, bs: Bytes, lo: nat, x: nat, y: nat, orig: Bytes)
    requires st.Valid() && lo <= st.pos && SameBut(orig, st.buf, lo, st.pos, x, y)
    ensures SameBut(orig, App(st, bs).buf, lo, App(st, bs).pos, x, y)
  {
  }

  lemma AppAuthCommandSame(st: PState, a: AuthCommand, lo: nat, x: nat, y: nat, orig: Bytes)
    requires st.Valid() && a.Fits() && lo <= st.pos && SameBut(orig, st.buf, lo, st.pos, x, y)
    ensures var r := AppAuthCommand(st, a); SameBut(orig, r.buf, lo, r.pos, x, y)
  {
    hide App, SameBut, U16, U32;
    var s1 := App(st, U32(a.handle));
    var s2 := App(s1, U16(|a.nonce|));
    var s3 := App(s2, a.nonce);
    var s4 := App(s3, U8(a.attrs));
    var s5 := App(s4, U16(|a.hmac|));
    AppSame(st, U32(a.handle), lo, x, y, orig);
    AppSame(s1, U16(|a.nonce|), lo, x, y, orig);
    AppSame(s2, a.nonce, lo, x, y, orig);
    AppSame(s3, U8(a.attrs), lo, x, y, orig);
    AppSame(s4, U16(|a.hmac|), lo, x, y, orig);
    AppSame(s5, a.hmac, lo, x, y, orig);
  }

  function EncEnd(l: Layout): (r: nat) { l.EncOff() + if l.encSz.Some? then l.encSz.value else 0 }

  lemma FillSlotSame(c: Suite, l: Layout, reply: RngReply, s: AuthSession, st: PState, lo: nat, orig: Bytes)
    requires st.Valid() && l.Inside(st.size) && s.Fits() && reply.Answers(|s.nonceCaller|)
    requires lo <= st.pos && SameBut(orig, st.buf, lo, st.pos, l.EncOff(), EncEnd(l))
    ensures var f := FillSlot(c, l, reply, s, st); SameBut(orig, f.st.buf, lo, f.st.pos, l.EncOff(), EncEnd(l))
  {
    hide Encrypt, CpHash, AuthHmac, Cipher.Error, AppAuthCommand, HasBit, DigestSize, Splice;
    if s.IsPassword() || reply.Nonce? {
      var s' := if s.IsPassword() then s else Refresh(s, reply.bytes);
      var (rc, buf') := Encrypted(c, l, s', st.buf);
      assert SameBut(orig, buf', lo, st.pos, l.EncOff(), EncEnd(l));
      if rc == RC_SUCCESS && !(s'.IsKeyed() && DigestSize(s'.authHash) == 0) {
        var a := Authorise(c, l, s', buf'[l.paramOff..l.cmdSz]);
        AppAuthCommandSame(st.(buf := buf'), a, lo, l.EncOff(), EncEnd(l), orig);
      }
    }
  }

  lemma {:induction false} FillSlotsSame(
    c: Suite, l: Layout, rng: Rng, i: nat, sess: seq<AuthSession>, st: PState, lo: nat, orig: Bytes)
    requires i <= l.info.authCnt <= |sess| && AllFit(sess) && st.Valid() && l.Inside(st.size)
    requires lo <= st.pos && SameBut(orig, st.buf, lo, st.pos, l.EncOff(), EncEnd(l))
    ensures var f := FillSlots(c, l, rng, i, sess, st); SameBut(orig, f.st.buf, lo, f.st.pos, l.EncOff(), EncEnd(l))
    decreases l.info.authCnt - i
  {
    hide FillSlot, SameBut, Layout.Inside, EncEnd;
    if i < l.info.authCnt {
      var reply := rng(i, |sess[i].nonceCaller|);
      var f := FillSlot(c, l, reply, sess[i], st);
      FillSlotSame(c, l, reply, sess[i], st, lo, orig);
      if f.rc == RC_SUCCESS { FillSlotsSame(c, l, rng, i + 1, sess[i := f.session], f.st, lo, orig); }
    }
  }

  /** Whatever the sessions, a command that succeeds keeps header, handles, the auth size field and every parameter byte
      outside the first parameter; only the reserved auth area and that parameter change. */
  lemma SuccessKeepsTheRest(c: Suite, rng: Rng, sess: seq<AuthSession>, st: PState, info: CmdInfo, cc: u32, cmdSz: nat)
    requires WellFormed(st, info, sess, cmdSz)
    ensures var l := LayoutOf(st, info, sess, cc, cmdSz);
      var r := ProcessCommand(c, rng, sess, st, info, cc, cmdSz);
      r.rc == RC_SUCCESS ==> SameBut(st.buf, r.st.buf, AuthSzPos(info) + 4, l.paramOff, l.EncOff(), EncEnd(l))
  {
    hide FillSlots, LayoutOf, BE, Nat, Pow256;
    var l := LayoutOf(st, info, sess, cc, cmdSz);
    var mark := AuthSzPos(info);
    var r := ProcessCommand(c, rng, sess, st, info, cc, cmdSz);
    if r.rc == RC_SUCCESS {
      var m := App(st.(pos := mark), Zeros(4));
      AppWhole(st.(pos := mark), Zeros(4));
      var f := FillSlots(c, l, rng, 0, sess, m);
      assert SameBut(st.buf, m.buf, mark, m.pos, l.EncOff(), EncEnd(l));
      FillSlotsSame(c, l, rng, 0, sess, m, mark, st.buf);
      BEOfNat(st.buf[mark..mark + 4]);
      RestoresField(st.buf, f.st.buf, r.st.buf, mark, l.paramOff, l.EncOff(), EncEnd(l));
    }
  }

  lemma RestoresField(orig: Bytes, filled: Bytes, placed: Bytes, mark: nat, hi: nat, x: nat, y: nat)
    requires mark + 4 <= hi && mark + 4 <= |filled| && SameBut(orig, filled, mark, hi, x, y)
    requires placed == Splice(filled, mark, orig[mark..mark + 4])
    ensures SameBut(orig, placed, mark + 4, hi, x, y)
  {
    forall j | 0 <= j < |orig| && !(mark + 4 <= j < hi) && !(x <= j < y) ensures orig[j] == placed[j] {
      if mark <= j < mark + 4 { assert placed[mark..mark + 4][j - mark] == orig[mark..mark + 4][j - mark]; }
    }
  }
}
