/** The device behind the TIS register interface (tpm2_tis.c): what it sees of the accesses, the signals by which it
    lets itself be accessed, and what a device owes that answers in time. It is whatever the environment makes of
    it. */
module TisDevice {
  import opened Octets
  import opened Tpm
  import opened Packets
  import opened Exchange

  const MAX_SPI_FRAMESIZE := 64
  const TIMEOUT_TRIES := 1_000_000

  const STS_VALID: byte := 0x80
  const STS_COMMAND_READY: byte := 0x40
  const STS_GO: byte := 0x20
  const STS_DATA_AVAIL: byte := 0x10
  const STS_DATA_EXPECT: byte := 0x08

  function LittleEndian(d: Bytes): (r: nat)
    requires |d| == 2
  {
    var lo: nat, hi: nat := d[0], d[1];
    lo + 256 * hi
  }

  datatype Reg = Sts | Burst | Fifo

  /** A register access as it happened, under the hold-th time this process obtained the lock. */
  datatype Access = Access(hold: nat, write: bool, reg: Reg, data: Bytes, rc: int) {
    predicate IsGo() { write && reg == Sts && data == [STS_GO] }

    predicate IsReady() { write && reg == Sts && data == [STS_COMMAND_READY] && rc == RC_SUCCESS }

    /** Neither data nor the order to execute. */
    predicate Quiet() { reg != Fifo && !IsGo() }

    predicate IsCount() { !write && reg == Burst }

    function BurstCount(): (r: nat) { if |data| == 2 then LittleEndian(data) else 0 }

    predicate Shows(status: byte, mask: byte) {
      !write && reg == Sts && rc == RC_SUCCESS && |data| == 1 && And(data[0], status) == mask
    }
  }

  /** The device: its reply to a read or a write depends in any way on everything that happened before. */
  type ReadFn = f: (seq<Access>, Reg, nat) -> (int, Bytes)
    | forall l: seq<Access>, r: Reg, n: nat :: |f(l, r, n).1| == n
    witness (l: seq<Access>, r: Reg, n: nat) => (0, Zeros(n))

  type WriteFn = (seq<Access>, Reg, Bytes) -> int

  // ---- what the device has seen ----

  /** Bytes it got before it was told to execute, bytes it gave after that; spoiled by anything out of turn. */
  datatype View = View(got: Bytes, go: bool, given: Bytes, spoiled: bool)

  function See(v: View, a: Access): (r: View) {
    if a.Quiet() then v
    else if a.rc != RC_SUCCESS then v.(spoiled := true)
    else if a.IsGo() then v.(go := true, spoiled := v.spoiled || v.go)
    else if a.write then v.(got := v.got + a.data, spoiled := v.spoiled || v.go)
    else v.(given := v.given + a.data, spoiled := v.spoiled || !v.go)
  }

  function Seen(log: seq<Access>): (r: View) {
    if log == [] then View([], false, [], false) else See(Seen(log[..|log| - 1]), log[|log| - 1])
  }

  predicate AllQuiet(log: seq<Access>) { forall i :: 0 <= i < |log| ==> log[i].Quiet() }

  lemma {:induction false} SeenQuiet(a: seq<Access>, b: seq<Access>)
    requires AllQuiet(b)
    ensures Seen(a + b) == Seen(a)
  {
    if b == [] {
      assert a + b == a;
    } else {
      var c := b[..|b| - 1];
      SeenQuiet(a, c);
      assert (a + b)[..|a + b| - 1] == a + c;
    }
  }

  lemma SeenOne(a: seq<Access>, x: Access)
    ensures Seen(a + [x]) == See(Seen(a), x)
  {
    assert (a + [x])[..|a|] == a;
  }

  // ---- when the device lets itself be accessed ----

  /** The accesses end with reads of the burst count, if any, behind a status read that shows these bits. */
  predicate Shown(log: seq<Access>, status: byte, mask: byte) {
    && log != []
    && var x := log[|log| - 1];
    if x.IsCount() then Shown(log[..|log| - 1], status, mask) else x.Shows(status, mask)
  }

  /** The burst count was just read, and n bytes are no more than it or the frame allows, and not none. */
  predicate InBurst(log: seq<Access>, n: nat) {
    log != [] && log[|log| - 1].IsCount() && 1 <= n <= Min(log[|log| - 1].BurstCount(), MAX_SPI_FRAMESIZE)
  }

  /** The device showed that it is ready for a command, or, after the first piece of one, that it expects more. */
  predicate Asked(log: seq<Access>) {
    || Shown(log, STS_DATA_EXPECT, STS_DATA_EXPECT)
    || (NoData(log) && Shown(log, STS_COMMAND_READY, STS_COMMAND_READY))
  }

  predicate NoData(log: seq<Access>) { forall i :: 0 <= i < |log| ==> log[i].reg != Fifo }

  predicate MayRead(log: seq<Access>, reg: Reg, n: nat) {
    reg == Fifo ==> InBurst(log, n) && Shown(log, STS_DATA_AVAIL, STS_DATA_AVAIL)
  }

  predicate MayWrite(log: seq<Access>, reg: Reg, data: Bytes) {
    && (reg == Fifo ==> InBurst(log, |data|) && Asked(log))
    && (reg == Sts && data == [STS_GO] ==> log != [] && log[|log| - 1].Shows(STS_DATA_EXPECT + STS_VALID, STS_VALID))
  }

  predicate Allowed(log: seq<Access>, x: Access) {
    if x.write then MayWrite(log, x.reg, x.data) else MayRead(log, x.reg, |x.data|)
  }

  /** Data are read only once the device showed that they are there, and written only when it asked for them, in pieces
      the frame and the burst count just read allow; execution is ordered right after the device showed that it holds
      a complete command. */
  predicate Paced(log: seq<Access>) { forall i :: 0 <= i < |log| ==> Allowed(log[..i], log[i]) }

  predicate AllUnder(log: seq<Access>, hold: nat) { forall i :: 0 <= i < |log| ==> log[i].hold == hold }

  lemma PacedQuiet(a: seq<Access>, b: seq<Access>)
    requires Paced(a) && AllQuiet(b)
    ensures Paced(a + b)
  {
    hide InBurst, Asked, Shown;
    forall i | 0 <= i < |a + b| ensures Allowed((a + b)[..i], (a + b)[i]) {
      if i < |a| {
        assert (a + b)[..i] == a[..i] && Allowed(a[..i], a[i]);
      } else {
        assert (a + b)[i] == b[i - |a|];
      }
    }
  }

  lemma PacedOne(a: seq<Access>, x: Access)
    requires Paced(a) && Allowed(a, x)
    ensures Paced(a + [x])
  {
    hide Allowed;
    var b := a + [x];
    forall i | 0 <= i < |b| ensures Allowed(b[..i], b[i]) {
      assert b[..i] == a[..i];
      if i < |a| { assert Allowed(a[..i], a[i]); } else { assert a[..i] == a; }
    }
  }

  predicate AllReads(log: seq<Access>, reg: Reg) { forall i :: 0 <= i < |log| ==> log[i].reg == reg && !log[i].write }

  /** Reading the burst count does not make the device take back what it showed. */
  lemma {:induction false} StillShown(a: seq<Access>, b: seq<Access>, status: byte, mask: byte)
    requires Shown(a, status, mask) && AllReads(b, Burst)
    ensures Shown(a + b, status, mask)
    decreases |b|
  {
    if b == [] {
      assert a + b == a;
    } else {
      StillShown(a, b[..|b| - 1], status, mask);
      assert (a + b)[..|a + b| - 1] == a + b[..|b| - 1];
    }
  }

  lemma StillAsked(a: seq<Access>, b: seq<Access>)
    requires Asked(a) && AllReads(b, Burst)
    ensures Asked(a + b)
  {
    hide Shown;
    forall s: byte, m: byte | Shown(a, s, m) ensures Shown(a + b, s, m) { StillShown(a, b, s, m); }
  }

  /** A stretch of the log: what the device saw in it, properly paced, all under one hold. */
  predicate Trace(log: seq<Access>, start: nat, hold: nat, v: View) {
    start <= |log| && Seen(log[start..]) == v && Paced(log[start..]) && AllUnder(log[start..], hold)
  }

  lemma TraceQuiet(log: seq<Access>, log': seq<Access>, start: nat, hold: nat, v: View)
    requires Trace(log, start, hold, v) && log <= log'
    requires AllQuiet(log'[|log|..]) && AllUnder(log'[|log|..], hold)
    ensures Trace(log', start, hold, v)
  {
    var a, b := log[start..], log'[|log|..];
    assert log'[start..] == log'[..|log|][start..] + b == a + b;
    SeenQuiet(a, b);
    PacedQuiet(a, b);
  }

  lemma TraceOne(log: seq<Access>, x: Access, start: nat, hold: nat, v: View)
    requires Trace(log, start, hold, v) && x.hold == hold && start < |log|
    requires Allowed(log[start..], x)
    ensures Trace(log + [x], start, hold, See(v, x))
  {
    hide See, Seen, Allowed;
    var a := log[start..];
    assert (log + [x])[start..] == a + [x];
    SeenOne(a, x);
    PacedOne(a, x);
  }

  // ---- a device that answers in time ----

  /** The bits of the status register, and their values, by which the device says that the next step may come. */
  function Due(v: View, cmd: Bytes): (r: (byte, byte)) {
    if v.go then (STS_DATA_AVAIL, STS_DATA_AVAIL)
    else if v.got == [] then (STS_COMMAND_READY, STS_COMMAND_READY)
    else if v.got != cmd then (STS_DATA_EXPECT, STS_DATA_EXPECT)
    else (STS_DATA_EXPECT + STS_VALID, STS_VALID)
  }

  const PATIENCE := TIMEOUT_TRIES - 1

  /** How often the register was read in a row by now. */
  function Polls(log: seq<Access>, reg: Reg): (r: nat) {
    if log == [] || log[|log| - 1].write || log[|log| - 1].reg != reg then 0 else 1 + Polls(log[..|log| - 1], reg)
  }

  predicate Readied(log: seq<Access>) { exists i :: 0 <= i < |log| && log[i].IsReady() }

  /** What the device owes after the accesses t, which follow those of base, while it is given cmd and is to answer
      with resp: it takes every access that keeps to its signals; before a host that polls one register runs out of
      tries it shows a burst count, or the status of the next step (ready for a command once it was told to get ready,
      available data as long as there are any); and the bytes read from it are the next ones of the answer. Of accesses
      against its signals nothing is known. */
  ghost predicate Owes(r: ReadFn, w: WriteFn, base: seq<Access>, t: seq<Access>, cmd: Bytes, resp: Bytes) {
    var v := Seen(t);
    Paced(t) && !v.spoiled ==>
      && (forall reg: Reg, n: nat :: MayRead(t, reg, n) ==> r(base + t, reg, n).0 == RC_SUCCESS)
      && (forall reg: Reg, d: Bytes :: MayWrite(t, reg, d) ==> w(base + t, reg, d) == RC_SUCCESS)
      && (Polls(t, Burst) >= PATIENCE ==> LittleEndian(r(base + t, Burst, 2).1) > 0)
      && (Polls(t, Sts) >= PATIENCE && (!v.go && v.got == [] ==> Readied(t)) && (v.go ==> |v.given| < |resp|) ==>
            And(r(base + t, Sts, 1).1[0], Due(v, cmd).0) == Due(v, cmd).1)
      && (forall n: nat :: MayRead(t, Fifo, n) && v.go && v.got == cmd && |v.given| + n <= |resp| ==>
            r(base + t, Fifo, n).1 == resp[|v.given|..|v.given| + n])
  }

  ghost predicate Punctual(r: ReadFn, w: WriteFn, base: seq<Access>, cmd: Bytes, resp: Bytes) {
    forall t: seq<Access> :: Owes(r, w, base, t, cmd, resp)
  }

  /** A response the host can take: as long as it announces, and no longer than the packet. */
  predicate Fair(resp: Bytes, size: nat) {
    HEADER_SIZE <= |resp| < MAX_RESPONSE && |resp| <= size && Nat(resp[2..6]) == |resp|
  }

  predicate ShowsAt(r: ReadFn, log: seq<Access>, n: nat, status: byte, mask: byte) {
    var x := r(log, Sts, 1);
    x.0 == RC_SUCCESS && (n >= PATIENCE ==> And(x.1[0], status) == mask)
  }

  predicate CountsAt(r: ReadFn, log: seq<Access>, n: nat) {
    var x := r(log, Burst, 2);
    x.0 == RC_SUCCESS && (n >= PATIENCE ==> LittleEndian(x.1) > 0)
  }

  /** Polled from here on the register will show these bits, or a burst count, within the tries. */
  ghost predicate WillShow(r: ReadFn, log: seq<Access>, status: byte, mask: byte) {
    forall b: seq<Access> :: AllReads(b, Sts) ==> ShowsAt(r, log + b, |b|, status, mask)
  }

  ghost predicate WillCount(r: ReadFn, log: seq<Access>) {
    forall b: seq<Access> :: AllReads(b, Burst) ==> CountsAt(r, log + b, |b|)
  }

  lemma FairHeader(buf: Bytes, resp: Bytes, size: nat)
    requires Fair(resp, size) && HEADER_SIZE <= |buf| && buf[..HEADER_SIZE] == resp[..HEADER_SIZE]
    ensures HEADER_SIZE <= |resp| && Announced(buf) == |resp| && Reach(Announced(buf)) == |resp|
    ensures |resp| < MAX_RESPONSE && |resp| <= size
  {
    hide Nat;
    assert buf[2..6] == buf[..HEADER_SIZE][2..6] == resp[..HEADER_SIZE][2..6] == resp[2..6];
  }

  lemma FairSize(resp: Bytes, size: nat)
    ensures Fair(resp, size) ==> HEADER_SIZE <= |resp|
  {
  }

  lemma {:induction false} PollsAdd(a: seq<Access>, b: seq<Access>, reg: Reg)
    requires AllReads(b, reg)
    ensures Polls(a + b, reg) >= |b|
    decreases |b|
  {
    if b != [] {
      PollsAdd(a, b[..|b| - 1], reg);
      assert (a + b)[..|a + b| - 1] == a + b[..|b| - 1];
    }
  }

  /** What is owed after some more reads of one register other than the data. */
  lemma OwesPolled(r: ReadFn, w: WriteFn, log: seq<Access>, start: nat, hold: nat, v: View, cmd: Bytes, resp: Bytes,
      b: seq<Access>, reg: Reg)
    requires start <= |log| && Punctual(r, w, log[..start], cmd, resp) && Trace(log, start, hold, v) && !v.spoiled
    requires AllReads(b, reg) && reg != Fifo
    ensures var t := log[start..] + b;
      && log[..start] + t == log + b && Owes(r, w, log[..start], t, cmd, resp)
      && Seen(t) == v && Paced(t) && Polls(t, reg) >= |b| && (Readied(log[start..]) ==> Readied(t))
  {
    hide Owes, Seen, Paced, Polls;
    var a := log[start..];
    assert log == log[..start] + a;
    assert log[..start] + (a + b) == log + b;
    assert AllQuiet(b);
    SeenQuiet(a, b);
    PacedQuiet(a, b);
    PollsAdd(a, b, reg);
    if Readied(a) {
      var i :| 0 <= i < |a| && a[i].IsReady();
      assert (a + b)[i].IsReady();
    }
  }

  lemma StatusComes(r: ReadFn, w: WriteFn, log: seq<Access>, start: nat, hold: nat, v: View, cmd: Bytes, resp: Bytes)
    requires start <= |log| && Punctual(r, w, log[..start], cmd, resp) && Trace(log, start, hold, v) && !v.spoiled
    requires (!v.go && v.got == [] ==> Readied(log[start..])) && (v.go ==> |v.given| < |resp|)
    ensures WillShow(r, log, Due(v, cmd).0, Due(v, cmd).1)
  {
    hide Punctual, Seen, Paced, Polls, And, Trace, Due, Readied;
    forall b: seq<Access> | AllReads(b, Sts) ensures ShowsAt(r, log + b, |b|, Due(v, cmd).0, Due(v, cmd).1) {
      OwesPolled(r, w, log, start, hold, v, cmd, resp, b, Sts);
      assert MayRead(log[start..] + b, Sts, 1);
    }
  }

  lemma CountComes(r: ReadFn, w: WriteFn, log: seq<Access>, start: nat, hold: nat, v: View, cmd: Bytes, resp: Bytes)
    requires start <= |log| && Punctual(r, w, log[..start], cmd, resp) && Trace(log, start, hold, v) && !v.spoiled
    ensures WillCount(r, log)
  {
    hide Punctual, Seen, Paced, Polls, And, Trace, Due, Readied;
    forall b: seq<Access> | AllReads(b, Burst) ensures CountsAt(r, log + b, |b|) {
      OwesPolled(r, w, log, start, hold, v, cmd, resp, b, Burst);
      assert MayRead(log[start..] + b, Burst, 2);
    }
  }

  lemma AccessTaken(r: ReadFn, w: WriteFn, log: seq<Access>, start: nat, hold: nat, v: View, cmd: Bytes, resp: Bytes)
    requires start <= |log| && Punctual(r, w, log[..start], cmd, resp) && Trace(log, start, hold, v) && !v.spoiled
    ensures forall reg: Reg, n: nat :: MayRead(log[start..], reg, n) ==> r(log, reg, n).0 == RC_SUCCESS
    ensures forall reg: Reg, d: Bytes :: MayWrite(log[start..], reg, d) ==> w(log, reg, d) == RC_SUCCESS
    ensures forall n: nat :: MayRead(log[start..], Fifo, n) && v.go && v.got == cmd && |v.given| + n <= |resp| ==>
      r(log, Fifo, n).1 == resp[|v.given|..|v.given| + n]
  {
    hide Punctual, Seen, Paced, Polls, And, Trace, Due, Readied, MayRead, MayWrite;
    OwesPolled(r, w, log, start, hold, v, cmd, resp, [], Sts);
    assert log[start..] + [] == log[start..] && log + [] == log;
  }

  lemma QuietTrans(a: seq<Access>, b: seq<Access>, d: seq<Access>, hold: nat)
    requires a <= b <= d && AllQuiet(b[|a|..]) && AllQuiet(d[|b|..])
    requires AllUnder(b[|a|..], hold) && AllUnder(d[|b|..], hold)
    ensures AllQuiet(d[|a|..]) && AllUnder(d[|a|..], hold)
  {
    assert d[|a|..] == b[|a|..] + d[|b|..];
  }

  lemma StatusTaken(r: ReadFn, w: WriteFn, log: seq<Access>, hold: nat, cmd: Bytes, resp: Bytes)
    requires Punctual(r, w, log, cmd, resp)
    ensures r(log, Sts, 1).0 == RC_SUCCESS
  {
    hide Punctual, Seen, Paced;
    EmptyTrace(log, hold);
    assert log[..|log|] == log;
    AccessTaken(r, w, log, |log|, hold, View([], false, [], false), cmd, resp);
    assert MayRead(log[|log|..], Sts, 1);
  }

  lemma ReadyTaken(r: ReadFn, w: WriteFn, base: seq<Access>, log: seq<Access>, hold: nat, cmd: Bytes, resp: Bytes)
    requires Punctual(r, w, base, cmd, resp) && base <= log
    requires AllQuiet(log[|base|..]) && AllUnder(log[|base|..], hold)
    ensures w(log, Sts, [STS_COMMAND_READY]) == RC_SUCCESS
  {
    hide Punctual, Seen, Paced;
    EmptyTrace(base, hold);
    TraceQuiet(base, log, |base|, hold, View([], false, [], false));
    assert log[..|base|] == base;
    AccessTaken(r, w, log, |base|, hold, View([], false, [], false), cmd, resp);
    assert MayWrite(log[|base|..], Sts, [STS_COMMAND_READY]);
  }

  lemma ReadyComes(r: ReadFn, w: WriteFn, base: seq<Access>, log: seq<Access>, hold: nat, cmd: Bytes, resp: Bytes)
    requires Punctual(r, w, base, cmd, resp) && base < log && log[|log| - 1].IsReady()
    requires AllQuiet(log[|base|..]) && AllUnder(log[|base|..], hold)
    ensures WillShow(r, log, STS_COMMAND_READY, STS_COMMAND_READY)
  {
    hide Punctual, Seen, Paced, WillShow;
    EmptyTrace(base, hold);
    TraceQuiet(base, log, |base|, hold, View([], false, [], false));
    assert log[..|base|] == base;
    assert log[|base|..][|log| - 1 - |base|] == log[|log| - 1];
    StatusComes(r, w, log, |base|, hold, View([], false, [], false), cmd, resp);
  }

  lemma AskedFirst(t: seq<Access>)
    requires AllQuiet(t) && t != [] && t[|t| - 1].Shows(STS_COMMAND_READY, STS_COMMAND_READY)
    ensures Asked(t)
  {
    hide And;
  }

  lemma ShownSince(log: seq<Access>, start: nat, status: byte, mask: byte)
    requires start < |log| && log[|log| - 1].Shows(status, mask)
    ensures Shown(log[start..], status, mask)
  {
    hide And;
  }

  lemma AskedMore(log: seq<Access>, start: nat)
    requires start < |log| && log[|log| - 1].Shows(STS_DATA_EXPECT, STS_DATA_EXPECT)
    ensures Asked(log[start..])
  {
    hide And;
  }

  lemma ReadyBit(a: byte)
    ensures And(a, STS_COMMAND_READY) != 0 ==> And(a, STS_COMMAND_READY) == STS_COMMAND_READY
  {
    hide AndBits;
    assert Pow2(6) == STS_COMMAND_READY;
    AndOneBit(8, a, 6);
  }

  lemma {:induction false} AndOneBit(n: nat, a: nat, k: nat)
    ensures AndBits(n, a, Pow2(k)) in {0, Pow2(k)}
  {
    if n > 0 {
      if k > 0 { AndOneBit(n - 1, a / 2, k - 1); } else { AndBitsNone(n - 1, a / 2); }
    }
  }

  /** There are such devices, for every command and every answer, whatever went before. */
  lemma PunctualExists(base: seq<Access>, cmd: Bytes, resp: Bytes) returns (r: ReadFn, w: WriteFn)
    ensures Punctual(r, w, base, cmd, resp)
  {
    hide Seen, Paced, Polls, And, Readied, MayRead, MayWrite, Due, Prompt;
    r := PromptReads(base, cmd, resp);
    w := (log: seq<Access>, reg: Reg, d: Bytes) => RC_SUCCESS;
    forall t: seq<Access> ensures Owes(r, w, base, t, cmd, resp) {
      assert (base + t)[|base|..] == t;
      PromptShows(t, cmd, resp);
    }
  }

  function PromptReads(base: seq<Access>, cmd: Bytes, resp: Bytes): (r: ReadFn) {
    (log: seq<Access>, reg: Reg, n: nat) => PromptReply(base, cmd, resp, log, reg, n)
  }

  function PromptReply(base: seq<Access>, cmd: Bytes, resp: Bytes, log: seq<Access>, reg: Reg,
      n: nat): (r: (int, Bytes))
    ensures |r.1| == n
  {
    (RC_SUCCESS, if |log| < |base| then Zeros(n) else Prompt(log[|base|..], cmd, resp, reg, n))
  }

  function Prompt(t: seq<Access>, cmd: Bytes, resp: Bytes, reg: Reg, n: nat): (r: Bytes)
    ensures |r| == n
  {
    var v := Seen(t);
    if reg == Sts && n == 1 then [Due(v, cmd).1]
    else if reg == Burst && n == 2 then [MAX_SPI_FRAMESIZE, 0]
    else if reg == Fifo && |v.given| + n <= |resp| then resp[|v.given|..|v.given| + n]
    else Zeros(n)
  }

  lemma SignalBits()
    ensures And(0x10, 0x10) == 0x10 && And(0x40, 0x40) == 0x40 && And(0x08, 0x08) == 0x08 && And(0x80, 0x88) == 0x80
  {
    hide AndBits;
    Pow2Of8();
    AndBitsSelf(8, 0x10); AndBitsSelf(8, 0x40); AndBitsSelf(8, 0x08);
    HighBit();
  }

  lemma HighBit()
    ensures And(0x80, 0x88) == 0x80
  {
    assert AndBits(4, 0x08, 0x08) == 0x08 by { AndBitsSelf(4, 0x08); }
    assert AndBits(6, 0x20, 0x22) == 2 * AndBits(5, 0x10, 0x11) == 0x20;
  }

  lemma PromptShows(t: seq<Access>, cmd: Bytes, resp: Bytes)
    ensures var v := Seen(t);
      && And(Prompt(t, cmd, resp, Sts, 1)[0], Due(v, cmd).0) == Due(v, cmd).1
      && LittleEndian(Prompt(t, cmd, resp, Burst, 2)) > 0
      && forall n: nat :: |v.given| + n <= |resp| ==> Prompt(t, cmd, resp, Fifo, n) == resp[|v.given|..|v.given| + n]
  {
    hide Seen, And;
    SignalBits();
  }

  /** A piece within the count that was just read may be written where the device asked for data, or read where it
      showed them. */
  lemma PieceAllowed(before: seq<Access>, log: seq<Access>, start: nat, n: nat)
    requires start < |before| < |log| && before <= log && AllReads(log[|before|..], Burst)
    requires n <= Min(log[|log| - 1].BurstCount(), MAX_SPI_FRAMESIZE)
    ensures n > 0 && Asked(before[start..]) ==> forall d: Bytes :: |d| == n ==> MayWrite(log[start..], Fifo, d)
    ensures n > 0 && Shown(before[start..], STS_DATA_AVAIL, STS_DATA_AVAIL) ==> MayRead(log[start..], Fifo, n)
  {
    hide Shown, Asked;
    var a, b := before[start..], log[|before|..];
    assert log[start..] == a + b;
    assert log[start..][|log| - 1 - start] == log[|log| - 1] == b[|b| - 1];
    if Asked(a) { StillAsked(a, b); }
    if Shown(a, STS_DATA_AVAIL, STS_DATA_AVAIL) { StillShown(a, b, STS_DATA_AVAIL, STS_DATA_AVAIL); }
  }

  lemma EmptyTrace(log: seq<Access>, hold: nat)
    ensures Trace(log, |log|, hold, View([], false, [], false))
  {
    assert log[|log|..] == [];
  }
}
