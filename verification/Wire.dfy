/** The exact bytes an authorised command puts on the wire when one of its sessions is keyed and the others are
    passwords. */
module Wire {
  import opened Octets
  import opened Tpm
  import opened Packets
  import opened Sessions
  import opened ParamEnc
  import opened Commands
  import opened CommandTheorems

  /** Slot k of the n slots in use holds an HMAC or policy session, every other one a password. */
  predicate OneKeyed(sess: seq<AuthSession>, n: nat, k: nat) {
    && k < n <= |sess| && sess[k].IsKeyed()
    && forall i :: 0 <= i < n && i != k ==> sess[i].IsPassword()
  }

  /** The session as it authorises this command. */
  function Fresh(rng: Rng, i: nat, s: AuthSession): (r: AuthSession)
    ensures s.Fits() ==> r.Fits()
    ensures FillSize(r) == FillSize(s)
    ensures r == s.(nonceCaller := r.nonceCaller)
  {
    var reply := rng(i, |s.nonceCaller|);
    if s.IsPassword() || reply.RngError? then s else Refresh(s, reply.bytes)
  }

  /** The first parameter, behind its size field, lies inside the parameters. */
  predicate Holds(l: Layout, params: Bytes) {
    l.encSz.Some? ==> l.info.flags.EncWidth() + l.encSz.value <= |params|
  }

  /** Parameters with the first one encrypted for session s, if it asks for that. */
  function SentParams(c: Suite, l: Layout, s: AuthSession, params: Bytes): (r: Bytes)
    requires Holds(l, params)
    ensures |r| == |params|
  {
    var w := l.info.flags.EncWidth();
    if !Encrypts(l, s) || CipherOf(s).Error(l.encSz.value).Some? then params
    else Splice(params, w, Encrypt(c, CipherOf(s), s.nonceCaller, s.nonceTPM, params[w..w + l.encSz.value]))
  }

  /** Nothing stops the keyed session: the generator answers, the hash is supported, the cipher can do what is asked. */
  predicate Able(rng: Rng, l: Layout, k: nat, s: AuthSession) {
    && rng(k, |s.nonceCaller|).Nonce?
    && DigestSize(s.authHash) > 0
    && (Encrypts(l, s) ==> CipherOf(s).Error(l.encSz.value) == None)
  }

  /** The authorisations of slots i to the last one in use, one behind the other; the sessions have their fresh
      nonces. */
  function AuthBytes(c: Suite, l: Layout, sess: seq<AuthSession>, i: nat, sent: Bytes): (r: Bytes)
    requires i <= l.info.authCnt <= |sess| && AllFit(sess)
    decreases l.info.authCnt - i
  {
    if i == l.info.authCnt then []
    else EncAuthCommand(Authorise(c, l, sess[i], sent)) + AuthBytes(c, l, sess, i + 1, sent)
  }

  /** Encrypting in the buffer is encrypting the parameters. */
  lemma EncryptedParams(c: Suite, l: Layout, s: AuthSession, buf: Bytes)
    requires l.Inside(|buf|) && s.IsKeyed()
    requires Encrypts(l, s) ==> CipherOf(s).Error(l.encSz.value) == None
    ensures var (rc, buf') := Encrypted(c, l, s, buf);
      && rc == RC_SUCCESS && buf'[..l.paramOff] == buf[..l.paramOff]
      && buf'[l.paramOff..l.cmdSz] == SentParams(c, l, s, buf[l.paramOff..l.cmdSz])
  {
    hide Encrypt, Cipher.Error, HasBit;
    if Encrypts(l, s) {
      var params := buf[l.paramOff..l.cmdSz];
      var w, n := l.info.flags.EncWidth(), l.encSz.value;
      SliceSlice(buf, l.paramOff, l.cmdSz, w, w + n);
      SpliceInside(buf, l.paramOff, l.cmdSz, w, Encrypt(c, CipherOf(s), s.nonceCaller, s.nonceTPM, params[w..w + n]));
    }
  }

  lemma SpliceInside(buf: Bytes, lo: nat, hi: nat, off: nat, data: Bytes)
    requires lo + off + |data| <= hi <= |buf|
    ensures Splice(buf, lo + off, data)[lo..hi] == Splice(buf[lo..hi], off, data)
    ensures Splice(buf, lo + off, data)[..lo] == buf[..lo]
  {
    var a, b := Splice(buf, lo + off, data)[lo..hi], Splice(buf[lo..hi], off, data);
    forall i | 0 <= i < |a| ensures a[i] == b[i] {
      if off <= i < off + |data| {
        assert Splice(buf, lo + off, data)[lo + off..lo + off + |data|][i - off] == data[i - off];
        assert b[off..off + |data|][i - off] == data[i - off];
      }
    }
  }

  /** One turn of the loop, seen on the wire. */
  lemma FillSlotWire(c: Suite, l: Layout, rng: Rng, i: nat, s: AuthSession, st: PState)
    requires st.Valid() && l.Inside(st.size) && s.Fits() && st.pos + FillSize(s) <= l.paramOff
    requires s.IsPassword() || (s.IsKeyed() && Able(rng, l, i, Fresh(rng, i, s)))
    ensures var s' := Fresh(rng, i, s);
      var sent :=
        if s.IsPassword() then st.buf[l.paramOff..l.cmdSz] else SentParams(c, l, s', st.buf[l.paramOff..l.cmdSz]);
      var e := EncAuthCommand(Authorise(c, l, s', sent));
      var f := FillSlot(c, l, rng(i, |s.nonceCaller|), s, st);
      && f.rc == RC_SUCCESS && f.session == s' && |e| == FillSize(s) && f.st.pos == st.pos + |e|
      && f.st.buf[..st.pos] == st.buf[..st.pos] && f.st.buf[st.pos..f.st.pos] == e
      && f.st.buf[l.paramOff..l.cmdSz] == sent
  {
    hide Encrypt, CpHash, AuthHmac, Cipher.Error, AppAuthCommand, EncAuthCommand, HasBit, DigestSize, Splice,
         SentParams, App;
    var reply := rng(i, |s.nonceCaller|);
    assert reply.Answers(|s.nonceCaller|);
    var s' := Fresh(rng, i, s);
    if s.IsKeyed() { EncryptedParams(c, l, s', st.buf); }
    var (rc, buf') := Encrypted(c, l, s', st.buf);
    var st1 := st.(buf := buf');
    assert buf'[..st.pos] == buf'[..l.paramOff][..st.pos] == st.buf[..st.pos];
    var sent := buf'[l.paramOff..l.cmdSz];
    var a := Authorise(c, l, s', sent);
    var e := EncAuthCommand(a);
    assert |e| == FillSize(s);
    AppAuthCommandFits(st1, a);
    AppWhole(st1, e);
    SpliceFrame(buf', st.pos, e, l.paramOff, l.cmdSz);
    SpliceFrame(buf', st.pos, e, 0, st.pos);
  }

  /** Passwords do not depend on the parameters. */
  lemma PasswordAuthorisation(c: Suite, l: Layout, s: AuthSession, p: Bytes, q: Bytes)
    requires s.Fits() && s.IsPassword()
    ensures Authorise(c, l, s, p) == Authorise(c, l, s, q)
  {
  }

  /** The rest of the loop: after holds the sessions as they end up. */
  lemma {:induction false} FillSlotsWire(
    c: Suite, l: Layout, rng: Rng, k: nat, i: nat, sess: seq<AuthSession>, after: seq<AuthSession>, st: PState,
    params: Bytes)
    requires i <= l.info.authCnt <= |sess| == |after| && OneKeyed(after, l.info.authCnt, k) && AllFit(sess)
    requires AllFit(after)
    requires forall j :: 0 <= j < |sess| && (j != k || i > k) ==> sess[j] == after[j]
    requires i <= k ==> sess[k].IsKeyed() && after[k] == Fresh(rng, k, sess[k]) && Able(rng, l, k, after[k])
    requires st.Valid() && l.Inside(st.size) && |params| == l.cmdSz - l.paramOff
    requires st.pos + (FillSum(after, l.info.authCnt) - FillSum(after, i)) <= l.paramOff
    requires st.buf[l.paramOff..l.cmdSz] == if i <= k then params else SentParams(c, l, after[k], params)
    ensures var f := FillSlots(c, l, rng, i, sess, st);
      var sent := SentParams(c, l, after[k], params);
      && f.rc == RC_SUCCESS && f.sess == after
      && f.st.pos == st.pos + (FillSum(after, l.info.authCnt) - FillSum(after, i))
      && st.pos <= f.st.pos && f.st.buf[..st.pos] == st.buf[..st.pos]
      && f.st.buf[st.pos..f.st.pos] == AuthBytes(c, l, after, i, sent)
      && f.st.buf[l.paramOff..l.cmdSz] == sent
    decreases l.info.authCnt - i
  {
    hide FillSlot, FillSize, FillSum, SentParams, Able, EncAuthCommand, Authorise, Fresh;
    var n := l.info.authCnt;
    var sent := SentParams(c, l, after[k], params);
    FillSumSplit(after, i, n);
    if i < n {
      FillSumSplit(after, i + 1, n);
      FillSumNext(after, i);
      assert Fresh(rng, i, sess[i]) == after[i] by { if i != k { PasswordStays(rng, i, sess[i]); } }
      FillSlotWire(c, l, rng, i, sess[i], st);
      var f := FillSlot(c, l, rng(i, |sess[i].nonceCaller|), sess[i], st);
      if i != k { PasswordAuthorisation(c, l, after[i], st.buf[l.paramOff..l.cmdSz], sent); }
      var sess' := sess[i := f.session];
      FillSlotsWire(c, l, rng, k, i + 1, sess', after, f.st, params);
      var g := FillSlots(c, l, rng, i + 1, sess', f.st);
      Glue(st.buf, f.st.buf, g.st.buf, st.pos, f.st.pos, g.st.pos);
    } else {
      assert sess == after;
    }
  }

  lemma FillSumNext(sess: seq<AuthSession>, i: nat)
    requires i < |sess|
    ensures FillSum(sess, i + 1) == FillSum(sess, i) + FillSize(sess[i])
  {
  }

  lemma PasswordStays(rng: Rng, i: nat, s: AuthSession)
    requires s.IsPassword()
    ensures Fresh(rng, i, s) == s
  {
  }

  lemma Glue(a: Bytes, b: Bytes, d: Bytes, p: nat, q: nat, r: nat)
    requires p <= q <= r <= |a| == |b| == |d|
    requires b[..p] == a[..p] && d[..q] == b[..q]
    ensures d[..p] == a[..p] && d[p..r] == b[p..q] + d[q..r]
  {
    assert d[..p] == d[..q][..p] && b[..p] == b[..q][..p];
    assert d[p..q] == d[..q][p..] == b[..q][p..] == b[p..q];
    assert d[p..r] == d[p..q] + d[q..r];
  }

  /** What goes out when the size field agrees with the sessions: header, handles and size field as they were, the
      authorisations over the parameters as they are sent, and those parameters. */
  lemma CommandWire(c: Suite, rng: Rng, k: nat, sess: seq<AuthSession>, st: PState, info: CmdInfo, cc: u32, cmdSz: nat)
    requires WellFormed(st, info, sess, cmdSz) && OneKeyed(sess, info.authCnt, k)
    requires AuthSzOf(st.buf, info) == FillSum(sess, info.authCnt)
    requires Able(rng, LayoutOf(st, info, sess, cc, cmdSz), k, Fresh(rng, k, sess[k]))
    ensures var l := LayoutOf(st, info, sess, cc, cmdSz);
      var after := sess[k := Fresh(rng, k, sess[k])];
      && Holds(l, st.buf[l.paramOff..cmdSz])
      && var sent := SentParams(c, l, after[k], st.buf[l.paramOff..cmdSz]);
      var r := ProcessCommand(c, rng, sess, st, info, cc, cmdSz);
      && r.rc == RC_SUCCESS && r.sess == after && AllFit(after)
      && r.st.buf[..cmdSz] == st.buf[..AuthSzPos(info) + 4] + AuthBytes(c, l, after, 0, sent) + sent
  {
    hide LayoutOf, FillSlots, SentParams, AuthBytes, Able, FillSum, Fresh, Nat, BE, Pow256, EncSzOf, Splice;
    var l := LayoutOf(st, info, sess, cc, cmdSz);
    var after := sess[k := Fresh(rng, k, sess[k])];
    var mark := AuthSzPos(info);
    var m := App(st.(pos := mark), Zeros(4));
    FilledWire(c, l, rng, k, sess, st, mark);
    BEOfNat(st.buf[mark..mark + 4]);
    AppWhole(st.(pos := mark), Zeros(4));
    Rewritten(st.buf, FillSlots(c, l, rng, 0, sess, m).st.buf, mark, l.paramOff, cmdSz);
  }

  lemma FilledWire(c: Suite, l: Layout, rng: Rng, k: nat, sess: seq<AuthSession>, st: PState, mark: nat)
    requires st.Valid() && l.Inside(st.size) && OneKeyed(sess, l.info.authCnt, k) && AllFit(sess)
    requires mark + 4 + FillSum(sess, l.info.authCnt) == l.paramOff
    requires Able(rng, l, k, Fresh(rng, k, sess[k]))
    ensures var f := FillSlots(c, l, rng, 0, sess, App(st.(pos := mark), Zeros(4)));
      var after := sess[k := Fresh(rng, k, sess[k])];
      var sent := SentParams(c, l, after[k], st.buf[l.paramOff..l.cmdSz]);
      && f.rc == RC_SUCCESS && f.sess == after && f.st.pos == l.paramOff
      && f.st.buf[..mark + 4] == Splice(st.buf, mark, Zeros(4))[..mark + 4]
      && f.st.buf[mark + 4..l.paramOff] == AuthBytes(c, l, after, 0, sent)
      && f.st.buf[l.paramOff..l.cmdSz] == sent
  {
    hide FillSlots, SentParams, AuthBytes, Able, FillSum, Fresh, FillSize, App, Splice;
    var after := sess[k := Fresh(rng, k, sess[k])];
    AppWhole(st.(pos := mark), Zeros(4));
    SpliceFrame(st.buf, mark, Zeros(4), l.paramOff, l.cmdSz);
    FillSumZero(after);
    FillSumKept(sess, after, l.info.authCnt);
    FillSlotsWire(c, l, rng, k, 0, sess, after, App(st.(pos := mark), Zeros(4)), st.buf[l.paramOff..l.cmdSz]);
  }

  /** The cleared size field is written back as it was. */
  lemma Rewritten(orig: Bytes, filled: Bytes, mark: nat, p: nat, q: nat)
    requires mark + 4 <= p <= q <= |orig| == |filled|
    requires filled[..mark + 4] == Splice(orig, mark, Zeros(4))[..mark + 4]
    ensures Splice(filled, mark, orig[mark..mark + 4])[..q] == orig[..mark + 4] + filled[mark + 4..p] + filled[p..q]
  {
    var r := Splice(filled, mark, orig[mark..mark + 4]);
    assert r[..mark] == filled[..mark + 4][..mark] == orig[..mark];
    assert r[mark..mark + 4] == orig[mark..mark + 4];
    assert r[mark + 4..q] == filled[mark + 4..q] == filled[mark + 4..p] + filled[p..q];
    assert r[..q] == r[..mark] + r[mark..mark + 4] + r[mark + 4..q];
    assert orig[..mark + 4] == orig[..mark] + orig[mark..mark + 4];
  }
}
