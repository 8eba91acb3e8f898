/** A command built by the wrappers' pattern meets every assumption of the fill pass. */
module ExchangeTheorems {
  import opened Octets
  import opened Tpm
  import opened Packets
  import opened Sessions
  import opened Commands
  import opened CommandTheorems
  import opened Exchange

  /** The authorisations the reservation pass counts, and the sessions it leaves behind. */
  function Counted(sess: seq<AuthSession>, info: CmdInfo): (r: nat)
    ensures r <= |sess|
  {
    CountFrom(sess, Some(info.flags), 0, 0)
  }

  function Prepared(sess: seq<AuthSession>, info: CmdInfo): (r: seq<AuthSession>)
    ensures |r| == |sess|
    ensures AllFit(sess) ==> AllFit(r)
  {
    PrepareFirst(sess, Counted(sess, info))
  }

  lemma Reservation(st: PState, sess: seq<AuthSession>, info: CmdInfo)
    requires st.Valid() && st.pos + Reserves(sess, info) <= st.size < 0x1_0000_0000 && Counted(sess, info) > 0
    ensures var n := Counted(sess, info);
      var sum := ReservedSum(Prepared(sess, info), n);
      var r := AppendAuthTo(st, sess, info);
      && r.sess == Prepared(sess, info) && r.info == info.(authCnt := n) && r.tag == ST_SESSIONS
      && sum < 0x1_0000_0000
      && r.st == PState(Splice(st.buf, st.pos, U32(sum)), st.pos + 4 + sum, st.size)
  {
    hide Zeros, Splice, BE, ReservedSum;
    var sum := ReservedSum(Prepared(sess, info), Counted(sess, info));
    AppWhole(st, Zeros(4));
    SpliceOver(st.buf, st.pos, Zeros(4), U32(sum));
  }

  /** The bytes of a built command, with a gap where the authorisations will go. */
  lemma Built(st: PState, sess: seq<AuthSession>, cmd: Command)
    requires Room(st, sess, cmd) && Counted(sess, cmd.info) > 0
    ensures var n := Counted(sess, cmd.info);
      var sum := ReservedSum(Prepared(sess, cmd.info), n);
      var b := Build(st, sess, cmd);
      var head := AuthSzPos(cmd.info) + 4;
      && b.sess == Prepared(sess, cmd.info) && b.info == cmd.info.(authCnt := n) && b.tag == ST_SESSIONS
      && sum < 0x1_0000_0000 && b.st.size == st.size && |b.st.buf| == |st.buf|
      && b.st.pos == head + sum + |cmd.Params()| <= st.size
      && b.st.buf[..head] == Header(ST_SESSIONS, b.st.pos, cmd.cc) + HandleBytes(cmd.handles) + U32(sum)
      && b.st.buf[head + sum..b.st.pos] == cmd.Params()
  {
    hide AppendAuthTo, ReservedSum, HandleBytes, Splice, U32, U16, Command.Params, Header, Prepared, Counted,
         Finalize, App;
    var n := Counted(sess, cmd.info);
    var sum := ReservedSum(Prepared(sess, cmd.info), n);
    var s1 := App(st, HandleBytes(cmd.handles));
    AppWhole(st, HandleBytes(cmd.handles));
    Reservation(s1, sess, cmd.info);
    var s2 := AppendAuthTo(s1, sess, cmd.info).st;
    AppWhole(s2, cmd.Params());
    var s3 := App(s2, cmd.Params());
    FinalizeWhole(s3, ST_SESSIONS, cmd.cc);
    Laid(st.buf, Header(ST_SESSIONS, s3.pos, cmd.cc), HandleBytes(cmd.handles), U32(sum), sum, cmd.Params());
  }

  /** Four writes to one buffer, the last one in front of the others. */
  lemma Laid(buf: Bytes, h: Bytes, a: Bytes, b: Bytes, gap: nat, d: Bytes)
    requires |h| + |a| + |b| + gap + |d| <= |buf|
    ensures var p := |h| + |a| + |b|;
      var r := Splice(Splice(Splice(Splice(buf, |h|, a), |h| + |a|, b), p + gap, d), 0, h);
      && r[..p] == h + a + b && r[p + gap..p + gap + |d|] == d
  {
    SpliceSplice(buf, |h|, a, b);
    LaidThree(Splice(buf, |h|, a + b), h, a + b, gap, d);
    assert h + (a + b) == h + a + b;
  }

  lemma LaidThree(buf: Bytes, h: Bytes, ab: Bytes, gap: nat, d: Bytes)
    requires |h| + |ab| + gap + |d| <= |buf| && buf[|h|..|h| + |ab|] == ab
    ensures var p := |h| + |ab|;
      var r := Splice(Splice(buf, p + gap, d), 0, h);
      && r[..p] == h + ab && r[p + gap..p + gap + |d|] == d
  {
    var p := |h| + |ab|;
    var b1 := Splice(buf, p + gap, d);
    var r := Splice(b1, 0, h);
    SpliceFrame(b1, 0, h, |h|, p);
    SpliceFrame(buf, p + gap, d, |h|, p);
    SpliceFrame(b1, 0, h, p + gap, p + gap + |d|);
    assert r[..p] == r[..|h|] + r[|h|..p];
  }

  lemma {:induction false} HandleBytesAt(hs: seq<u32>, i: nat)
    requires i < |hs|
    ensures HandleBytes(hs)[4 * i..4 * i + 4] == U32(hs[i])
  {
    hide U32;
    var p := hs[..|hs| - 1];
    if i < |hs| - 1 {
      HandleBytesAt(p, i);
      assert HandleBytes(hs)[4 * i..4 * i + 4] == HandleBytes(p)[4 * i..4 * i + 4];
    }
  }

  /** What the fill pass reads back is what the wrapper put in. */
  lemma ReadsBack(b: PState, cmd: Command, sum: u32)
    requires b.Valid() && cmd.Shaped()
    requires b.pos == AuthSzPos(cmd.info) + 4 + sum + |cmd.Params()| <= b.size < 0x1_0000_0000
    requires b.buf[..AuthSzPos(cmd.info) + 4] ==
      Header(ST_SESSIONS, b.pos, cmd.cc) + HandleBytes(cmd.handles) + U32(sum)
    requires b.buf[AuthSzPos(cmd.info) + 4 + sum..b.pos] == cmd.Params()
    ensures TagOf(b) == ST_SESSIONS && CodeOf(b) == cmd.cc && AuthSzOf(b.buf, cmd.info) == sum
    ensures EncSzOf(b, cmd.info) == if cmd.info.flags.EncWidth() == 0 then None else Some(|cmd.first|)
    ensures forall i :: 0 <= i < |cmd.handles| ==> HandleAt(b, i) == cmd.handles[i]
  {
    hide U16, U32, HandleBytes, Nat, BE, Pow256;
    var head := AuthSzPos(cmd.info) + 4;
    var top := b.buf[..head];
    SliceSlice(b.buf, 0, head, 0, 2);
    assert top[0..2] == U16(ST_SESSIONS);
    SliceSlice(b.buf, 0, head, 6, 10);
    assert top[6..10] == U32(cmd.cc);
    SliceSlice(b.buf, 0, head, head - 4, head);
    assert top[head - 4..head] == U32(sum);
    forall i | 0 <= i < |cmd.handles| ensures HandleAt(b, i) == cmd.handles[i] {
      var x := HEADER_SIZE + 4 * i;
      HandleBytesAt(cmd.handles, i);
      SliceSlice(b.buf, 0, head, x, x + 4);
      SliceSlice(top, 10, head - 4, 4 * i, 4 * i + 4);
      assert top[10..head - 4] == HandleBytes(cmd.handles);
    }
    var w := cmd.info.flags.EncWidth();
    SliceSlice(b.buf, head + sum, b.pos, 0, w);
    NatOfBE(w, |cmd.first|);
    assert cmd.Params()[0..w] == BE(w, |cmd.first|);
  }

  lemma AgreesPrepared(s: AuthSession)
    requires SlotAgrees(s)
    ensures SlotAgrees(Prepare(s))
  {
  }

  /** A built command is well formed for the fill pass. */
  lemma BuiltWellFormed(st: PState, sess: seq<AuthSession>, cmd: Command)
    requires Room(st, sess, cmd) && Counted(sess, cmd.info) > 0 && AllFit(sess)
    ensures var b := Build(st, sess, cmd);
      && WellFormed(b.st, b.info, b.sess, b.st.pos)
      && AuthSzOf(b.st.buf, b.info) == ReservedSum(b.sess, b.info.authCnt)
      && TagOf(b.st) == ST_SESSIONS && CodeOf(b.st) == cmd.cc
      && EncSzOf(b.st, b.info) == (if cmd.info.flags.EncWidth() == 0 then None else Some(|cmd.first|))
      && forall i :: 0 <= i < |cmd.handles| ==> HandleAt(b.st, i) == cmd.handles[i]
  {
    hide Build, ReservedSum, HandleBytes, Header, U32, TagOf, CodeOf, HandleAt, AuthSzOf, EncSzOf, Nat, BE, Pow256,
         Counted, Prepared;
    var b := Build(st, sess, cmd);
    Built(st, sess, cmd);
    var sum := ReservedSum(b.sess, b.info.authCnt);
    ReadsBack(b.st, cmd, sum);
    SameReads(b.st, cmd.info, b.info);
  }

  /** The number of authorisations plays no part in where things are read. */
  lemma SameReads(st: PState, info: CmdInfo, info': CmdInfo)
    requires st.Valid() && info' == info.(authCnt := info'.authCnt) && AuthSzPos(info) + 4 <= |st.buf|
    ensures AuthSzOf(st.buf, info') == AuthSzOf(st.buf, info) && EncSzOf(st, info') == EncSzOf(st, info)
  {
    hide Nat, GetU;
  }

  /** Reserve and fill agree: when every counted slot meets its condition, the reserved size is what the fill pass
      writes, so that pass never ends in a size mismatch. */
  lemma ReserveFillAgree(c: Suite, rng: Rng, st: PState, sess: seq<AuthSession>, cmd: Command)
    requires Room(st, sess, cmd) && Counted(sess, cmd.info) > 0 && AllFit(sess)
    requires forall i :: 0 <= i < Counted(sess, cmd.info) ==> SlotAgrees(sess[i])
    ensures var b := Build(st, sess, cmd);
      && WellFormed(b.st, b.info, b.sess, b.st.pos)
      && ProcessCommand(c, rng, b.sess, b.st, b.info, cmd.cc, b.st.pos).rc ==
         Filling(c, rng, b.sess, b.st, b.info, cmd.cc, b.st.pos).rc
  {
    hide Build, ReservedSum, FillSum, Filling, ProcessCommand, Prepare, SlotAgrees, Counted, App, TagOf, CodeOf,
         HandleAt, EncSzOf;
    var b := Build(st, sess, cmd);
    Built(st, sess, cmd);
    BuiltWellFormed(st, sess, cmd);
    var n := Counted(sess, cmd.info);
    forall i | 0 <= i < n ensures SlotAgrees(b.sess[i]) { AgreesPrepared(sess[i]); }
    SumsAgree(b.sess, n);
    SucceedsIffReserved(c, rng, b.sess, b.st, b.info, cmd.cc, b.st.pos);
  }
}
