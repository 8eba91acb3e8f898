/** One command over the TIS register interface (tpm2_tis.c): chunked transfers through a FIFO under the counted lock.
    Every register access is logged. */
module TisTransport {
  import opened Octets
  import opened Tpm
  import opened Packets
  import opened Exchange
  import opened TisDevice
  import TisLock

  /** What becomes of the attempt to take the semaphore. */
  datatype Gate = Passes | OpenFails | TimesOut

  function Touches(events: seq<TisLock.Event>): (r: nat) {
    if events == [] then 0
    else Touches(events[..|events| - 1]) + if events[|events| - 1] == TisLock.Touched then 1 else 0
  }

  /** Between a and b the process locked and unlocked in balance and accessed n registers. */
  predicate Works(a: seq<TisLock.Event>, b: seq<TisLock.Event>, n: int) {
    a <= b && TisLock.Balanced(b[|a|..]) && Touches(b[|a|..]) == n
  }

  lemma {:induction false} TouchesConcat(a: seq<TisLock.Event>, b: seq<TisLock.Event>)
    ensures Touches(a + b) == Touches(a) + Touches(b)
    decreases |b|
  {
    if b == [] {
      assert a + b == a;
    } else {
      TouchesConcat(a, b[..|b| - 1]);
      assert (a + b)[..|a + b| - 1] == a + b[..|b| - 1];
    }
  }

  lemma WorksNone(a: seq<TisLock.Event>)
    ensures Works(a, a, 0)
  {
    assert a[|a|..] == [];
  }

  lemma BalancedConcat(a: seq<TisLock.Event>, b: seq<TisLock.Event>)
    requires TisLock.Balanced(a) && TisLock.Balanced(b)
    ensures TisLock.Balanced(a + b)
  {
    TisLock.DepthConcat(a, b);
    forall i | 0 <= i <= |a + b| ensures TisLock.Depth((a + b)[..i]) >= 0 {
      if i <= |a| {
        assert (a + b)[..i] == a[..i];
      } else {
        assert (a + b)[..i] == a + b[..i - |a|];
        TisLock.DepthConcat(a, b[..i - |a|]);
      }
    }
  }

  lemma WorksTrans(a: seq<TisLock.Event>, b: seq<TisLock.Event>, c: seq<TisLock.Event>, n: int, m: int)
    requires Works(a, b, n) && Works(b, c, m)
    ensures Works(a, c, n + m)
  {
    hide TisLock.Balanced;
    var x, y := b[|a|..], c[|b|..];
    assert c[|a|..] == x + y;
    BalancedConcat(x, y);
    TouchesConcat(x, y);
  }

  lemma OneAccess(a: seq<TisLock.Event>)
    ensures Works(a, a + [TisLock.Enter] + [TisLock.Touched] + [TisLock.Leave], 1)
  {
    var e := [TisLock.Enter, TisLock.Touched, TisLock.Leave];
    assert (a + [TisLock.Enter] + [TisLock.Touched] + [TisLock.Leave])[|a|..] == e;
    assert e[..0] == [] && e[..1] == [TisLock.Enter] && e[..2] == [TisLock.Enter, TisLock.Touched] && e[..3] == e;
    assert e[..2][..1] == e[..1] && e[..1][..0] == [];
    assert TisLock.Depth(e[..1]) == 1 && TisLock.Depth(e[..2]) == 1 && TisLock.Depth(e) == 0;
    assert Touches(e[..1]) == 0 && Touches(e[..2]) == 1;
  }

  /** One command: the lock, balanced work, the unlock. */
  lemma Bracket(a: seq<TisLock.Event>, b: seq<TisLock.Event>, n: int)
    requires Works(a + [TisLock.Enter], b, n)
    ensures var c := b + [TisLock.Leave];
      a <= c && TisLock.Bracketed(c[|a|..]) && Touches(c[|a|..]) == n
  {
    hide TisLock.Balanced;
    var work := b[|a| + 1..];
    var c := b + [TisLock.Leave];
    var e := c[|a|..];
    assert e == [TisLock.Enter] + work + [TisLock.Leave];
    assert e[1..|e| - 1] == work;
    TouchesConcat([TisLock.Enter], work);
    TouchesConcat([TisLock.Enter] + work, [TisLock.Leave]);
    assert [TisLock.Enter][..0] == [] && [TisLock.Leave][..0] == [];
  }

  class Tis {
    const readReg: ReadFn
    const writeReg: WriteFn
    const gate: nat -> Gate
    var lockCount: nat
    var units: nat           // units of the semaphore this process has taken and not given back
    var holds: nat
    var tries: nat
    var log: seq<Access>
    var events: seq<TisLock.Event>   // what the process does to the lock, and its accesses

    ghost predicate Valid() reads this { units == if lockCount > 0 then 1 else 0 }

    constructor (r: ReadFn, w: WriteFn, g: nat -> Gate)
      ensures Valid() && lockCount == 0 && log == [] && events == []
    {
      readReg, writeReg, gate := r, w, g;
      lockCount, units, holds, tries, log, events := 0, 0, 0, 0, [], [];
    }

    /** TPM2_TIS_Lock. */
    method Lock() returns (rc: int)
      requires Valid()
      modifies this`lockCount, this`units, this`holds, this`tries, this`events
      ensures events == old(events) + if rc == RC_SUCCESS then [TisLock.Enter] else []
      ensures Valid() && (rc == RC_SUCCESS || rc == BAD_MUTEX_E || rc == WC_TIMEOUT_E)
      ensures lockCount == old(lockCount) + if rc == RC_SUCCESS then 1 else 0
      ensures old(lockCount) > 0 ==> rc == RC_SUCCESS && holds == old(holds)
      ensures old(lockCount) == 0 ==> holds == old(holds) + if rc == RC_SUCCESS then 1 else 0
      ensures gate(old(tries)) == Passes ==> rc == RC_SUCCESS
    {
      rc := RC_SUCCESS;
      if lockCount == 0 {
        var reply := gate(tries);
        tries := tries + 1;
        if reply == OpenFails { return BAD_MUTEX_E; }
        if reply == TimesOut {
          rc := WC_TIMEOUT_E;
        } else {
          units := units + 1;
          holds := holds + 1;
        }
      }
      if rc == RC_SUCCESS {
        lockCount := lockCount + 1;
        events := events + [TisLock.Enter];
      }
    }

    /** TPM2_TIS_Unlock, with the semaphore still there to be opened. */
    method Unlock()
      requires Valid() && lockCount > 0
      modifies this`lockCount, this`units, this`events
      ensures Valid() && lockCount == old(lockCount) - 1 && events == old(events) + [TisLock.Leave]
    {
      events := events + [TisLock.Leave];
      lockCount := lockCount - 1;
      if lockCount == 0 { units := units - 1; }
    }

    /** TPM2_TIS_Read inside a hold: locking again cannot fail. The data are there even when the access reports an
        error. */
    method Read(reg: Reg, len: nat) returns (rc: int, data: Bytes)
      requires Valid() && lockCount > 0
      modifies this`lockCount, this`units, this`holds, this`tries, this`log, this`events
      ensures Valid() && lockCount == old(lockCount) && holds == old(holds)
      ensures Works(old(events), events, |log| - |old(log)|)
      ensures len == 0 || len > MAX_SPI_FRAMESIZE ==> rc == BAD_FUNC_ARG && data == [] && log == old(log)
      ensures 0 < len <= MAX_SPI_FRAMESIZE ==>
        && |data| == len && log == old(log) + [Access(holds, false, reg, data, rc)]
        && (rc, data) == readReg(old(log), reg, len)
    {
      WorksNone(events);
      if len == 0 || len > MAX_SPI_FRAMESIZE { return BAD_FUNC_ARG, []; }
      rc := Lock();
      if rc != RC_SUCCESS { return rc, []; }
      rc, data := readReg(log, reg, len).0, readReg(log, reg, len).1;
      log := log + [Access(holds, false, reg, data, rc)];
      events := events + [TisLock.Touched];
      Unlock();
      OneAccess(old(events));
    }

    /** TPM2_TIS_Write inside a hold. */
    method Write(reg: Reg, data: Bytes) returns (rc: int)
      requires Valid() && lockCount > 0
      modifies this`lockCount, this`units, this`holds, this`tries, this`log, this`events
      ensures Valid() && lockCount == old(lockCount) && holds == old(holds)
      ensures Works(old(events), events, |log| - |old(log)|)
      ensures |data| == 0 || |data| > MAX_SPI_FRAMESIZE ==> rc == BAD_FUNC_ARG && log == old(log)
      ensures 0 < |data| <= MAX_SPI_FRAMESIZE ==>
        log == old(log) + [Access(holds, true, reg, data, rc)] && rc == writeReg(old(log), reg, data)
    {
      WorksNone(events);
      if |data| == 0 || |data| > MAX_SPI_FRAMESIZE { return BAD_FUNC_ARG; }
      rc := Lock();
      if rc != RC_SUCCESS { return; }
      rc := writeReg(log, reg, data);
      log := log + [Access(holds, true, reg, data, rc)];
      events := events + [TisLock.Touched];
      Unlock();
      OneAccess(old(events));
    }

    /** Everything a helper adds to the log is quiet and under the current hold. */
    twostate predicate Quietly()
      reads this
    {
      && lockCount == old(lockCount) && holds == old(holds) && old(log) <= log
      && AllQuiet(log[|old(log)|..]) && AllUnder(log[|old(log)|..], holds)
      && Works(old(events), events, |log| - |old(log)|)
    }

    method WaitForStatus(status: byte, mask: byte) returns (rc: int)
      requires Valid() && lockCount > 0
      modifies this`lockCount, this`units, this`holds, this`tries, this`log, this`events
      ensures Valid() && Quietly()
      ensures rc == RC_SUCCESS ==> |log| > |old(log)| && log[|log| - 1].Shows(status, mask)
      ensures |log| - |old(log)| <= TIMEOUT_TRIES
      ensures WillShow(readReg, old(log), status, mask) ==> rc == RC_SUCCESS
    {
      hide And, Works;
      WorksNone(events);
      var timeout := TIMEOUT_TRIES;
      var data;
      rc := RC_SUCCESS;
      while timeout > 0
        invariant Valid() && lockCount > 0 && Quietly() && 0 <= timeout && rc == RC_SUCCESS
        invariant |log| - |old(log)| == TIMEOUT_TRIES - timeout && AllReads(log[|old(log)|..], Sts)
        invariant WillShow(readReg, old(log), status, mask) ==> timeout > 0
      {
        ghost var e, n, b := events, |log|, log[|old(log)|..];
        assert log == old(log) + b;
        rc, data := Read(Sts, 1);
        WorksTrans(old(events), e, events, n - |old(log)|, 1);
        if rc == RC_SUCCESS && And(data[0], status) == mask { return; }
        if rc != RC_SUCCESS { return; }
        timeout := timeout - 1;
      }
      return RC_TIMEOUT;
    }

    /** A count that was read is clamped to the frame size and is there even when the read reports an error. */
    method GetBurstCount() returns (rc: int, burstCount: nat)
      requires Valid() && lockCount > 0
      modifies this`lockCount, this`units, this`holds, this`tries, this`log, this`events
      ensures Valid() && Quietly() && burstCount <= MAX_SPI_FRAMESIZE
      ensures rc == RC_SUCCESS ==> burstCount > 0
      ensures |log| > |old(log)| && log[|log| - 1].reg == Burst && !log[|log| - 1].write
      ensures burstCount == Min(log[|log| - 1].BurstCount(), MAX_SPI_FRAMESIZE)
      ensures |log| - |old(log)| <= TIMEOUT_TRIES && AllReads(log[|old(log)|..], Burst)
      ensures WillCount(readReg, old(log)) ==> rc == RC_SUCCESS
    {
      hide Works;
      WorksNone(events);
      var timeout := TIMEOUT_TRIES;
      var data;
      burstCount := 0;
      rc := RC_SUCCESS;
      while true
        invariant Valid() && lockCount > 0 && Quietly() && 0 < timeout && rc == RC_SUCCESS
        invariant |log| - |old(log)| == TIMEOUT_TRIES - timeout && AllReads(log[|old(log)|..], Burst)
        decreases timeout
      {
        ghost var e, n, b := events, |log|, log[|old(log)|..];
        assert log == old(log) + b;
        rc, data := Read(Burst, 2);
        WorksTrans(old(events), e, events, n - |old(log)|, 1);
        burstCount := LittleEndian(data);
        if rc == RC_SUCCESS && burstCount > 0 { break; }
        if rc != RC_SUCCESS { break; }
        timeout := timeout - 1;
        if timeout <= 0 { break; }
      }
      if burstCount > MAX_SPI_FRAMESIZE { burstCount := MAX_SPI_FRAMESIZE; }
      if timeout <= 0 { return RC_TIMEOUT, burstCount; }
    }

    method Ready() returns (rc: int)
      requires Valid() && lockCount > 0
      modifies this`lockCount, this`units, this`holds, this`tries, this`log, this`events
      ensures Valid() && Quietly()
      ensures rc == RC_SUCCESS ==> |log| > |old(log)| && log[|log| - 1].IsReady()
      ensures |log| == |old(log)| + 1 && rc == writeReg(old(log), Sts, [STS_COMMAND_READY])
    {
      rc := Write(Sts, [STS_COMMAND_READY]);
    }

    /** Tells the device to expect a command and waits until it does. */
    method BecomeReady(ghost base: seq<Access>, ghost cmd: Bytes, ghost resp: Bytes) returns (rc: int)
      requires Valid() && lockCount > 0 && base <= log && AllQuiet(log[|base|..]) && AllUnder(log[|base|..], holds)
      modifies this`lockCount, this`units, this`holds, this`tries, this`log, this`events
      ensures Valid() && Quietly()
      ensures rc == RC_SUCCESS ==> |log| > |old(log)| && log[|log| - 1].Shows(STS_COMMAND_READY, STS_COMMAND_READY)
      ensures Punctual(readReg, writeReg, base, cmd, resp) ==> rc == RC_SUCCESS
    {
      hide And, Works, Punctual, WillShow;
      if Punctual(readReg, writeReg, base, cmd, resp) { ReadyTaken(readReg, writeReg, base, log, holds, cmd, resp); }
      rc := Ready();
      if rc != RC_SUCCESS { return; }
      ghost var e, n := events, |log|;
      if Punctual(readReg, writeReg, base, cmd, resp) { ReadyComes(readReg, writeReg, base, log, holds, cmd, resp); }
      rc := WaitForStatus(STS_COMMAND_READY, STS_COMMAND_READY);
      WorksTrans(old(events), e, events, n - |old(log)|, |log| - n);
    }

    /** Brings the device into the state in which it takes a command. */
    method MakeReady(ghost cmd: Bytes, ghost resp: Bytes) returns (rc: int)
      requires Valid() && lockCount > 0
      modifies this`lockCount, this`units, this`holds, this`tries, this`log, this`events
      ensures Valid() && Quietly() && |log| > |old(log)|
      ensures rc == RC_SUCCESS ==> Asked(log[|old(log)|..])
      ensures Punctual(readReg, writeReg, old(log), cmd, resp) ==> rc == RC_SUCCESS
    {
      hide And, Works, Punctual, Asked;
      var status;
      if Punctual(readReg, writeReg, log, cmd, resp) { StatusTaken(readReg, writeReg, log, holds, cmd, resp); }
      rc, status := Read(Sts, 1);
      if rc != RC_SUCCESS { return; }
      if And(status[0], STS_COMMAND_READY) == 0 {
        ghost var e, n := events, |log|;
        ghost var l1 := log;
        rc := BecomeReady(old(log), cmd, resp);
        WorksTrans(old(events), e, events, n - |old(log)|, |log| - n);
        QuietTrans(old(log), l1, log, holds);
      } else {
        ReadyBit(status[0]);
      }
      if rc == RC_SUCCESS { AskedFirst(log[|old(log)|..]); }
    }

    /** Waits for the signal that is due after what the device saw so far. */
    method Await(status: byte, mask: byte, ghost start: nat, ghost v: View, ghost cmd: Bytes,
        ghost resp: Bytes) returns (rc: int)
      requires Valid() && lockCount > 0 && start < |log| && Trace(log, start, holds, v)
      modifies this`lockCount, this`units, this`holds, this`tries, this`log, this`events
      ensures Valid() && lockCount == old(lockCount) && holds == old(holds) && old(log) <= log
      ensures Works(old(events), events, |log| - |old(log)|)
      ensures Trace(log, start, holds, v) && log[..start] == old(log[..start])
      ensures rc == RC_SUCCESS ==> log[|log| - 1].Shows(status, mask) && Shown(log[start..], status, mask)
      ensures Punctual(readReg, writeReg, old(log[..start]), cmd, resp) && !v.spoiled && Due(v, cmd) == (status, mask)
        && (if v.go then |v.given| < |resp| else v.got != [])
        ==> rc == RC_SUCCESS
    {
      hide And, Works, Punctual, WillShow, Trace, AllUnder, AllQuiet, Due, Readied, Shown;
      if Punctual(readReg, writeReg, log[..start], cmd, resp) && !v.spoiled && Due(v, cmd) == (status, mask)
         && (if v.go then |v.given| < |resp| else v.got != [])
      {
        StatusComes(readReg, writeReg, log, start, holds, v, cmd, resp);
      }
      rc := WaitForStatus(status, mask);
      TraceQuiet(old(log), log, start, holds, v);
      assert log[..start] == old(log[..start]);
      if rc == RC_SUCCESS { ShownSince(log, start, status, mask); }
    }

    /** The burst count between two transfers of data, for a device that may owe the answer resp to cmd. */
    method BurstFor(ghost start: nat, ghost v: View, ghost cmd: Bytes, ghost resp: Bytes)
      returns (rc: int, burstCount: nat)
      requires Valid() && lockCount > 0 && start < |log| && Trace(log, start, holds, v)
      modifies this`lockCount, this`units, this`holds, this`tries, this`log, this`events
      ensures Valid() && lockCount == old(lockCount) && holds == old(holds) && old(log) < log
      ensures Works(old(events), events, |log| - |old(log)|)
      ensures Trace(log, start, holds, v) && log[..start] == old(log[..start])
      ensures AllReads(log[|old(log)|..], Burst) && burstCount == Min(log[|log| - 1].BurstCount(), MAX_SPI_FRAMESIZE)
      ensures Punctual(readReg, writeReg, old(log[..start]), cmd, resp) && !v.spoiled ==>
        && rc == RC_SUCCESS && burstCount > 0
        && (forall n: nat :: MayRead(log[start..], Fifo, n) ==> readReg(log, Fifo, n).0 == RC_SUCCESS)
        && (forall d: Bytes :: MayWrite(log[start..], Fifo, d) ==> writeReg(log, Fifo, d) == RC_SUCCESS)
        && (forall n: nat :: MayRead(log[start..], Fifo, n) && v.go && v.got == cmd && |v.given| + n <= |resp| ==>
              readReg(log, Fifo, n).1 == resp[|v.given|..|v.given| + n])
    {
      hide Works, Punctual, WillCount, Trace, AllUnder, AllQuiet, MayRead, MayWrite;
      ghost var timely := Punctual(readReg, writeReg, log[..start], cmd, resp) && !v.spoiled;
      if timely { CountComes(readReg, writeReg, log, start, holds, v, cmd, resp); }
      rc, burstCount := GetBurstCount();
      TraceQuiet(old(log), log, start, holds, v);
      assert log[..start] == old(log[..start]);
      if timely { AccessTaken(readReg, writeReg, log, start, holds, v, cmd, resp); }
    }

    /** One piece of the command, no larger than the device has room for. */
    method WritePiece(p: Packet, pos: nat, ghost start: nat, ghost resp: Bytes) returns (rc: int, xferSz: nat)
      requires Valid() && lockCount > 0 && p.Valid() && pos < p.pos <= p.size
      requires Trace(log, start, holds, View(p.buf[..pos], false, [], false)) && start < |log| && Asked(log[start..])
      modifies this`lockCount, this`units, this`holds, this`tries, this`log, this`events
      ensures Valid() && lockCount == old(lockCount) && holds == old(holds)
      ensures Works(old(events), events, |log| - |old(log)|)
      ensures old(log) <= log
      ensures Punctual(readReg, writeReg, old(log[..start]), p.buf[..p.pos], resp) ==> rc == RC_SUCCESS
      ensures exists v :: Trace(log, start, holds, v)
      ensures rc == RC_SUCCESS ==> 0 < xferSz <= p.pos - pos
      ensures rc == RC_SUCCESS ==> Trace(log, start, holds, View(p.buf[..pos + xferSz], false, [], false))
    {
      hide Seen, See, Paced, AllUnder, AllQuiet, Access.Quiet, Works, Punctual, WillCount, Asked, Trace, AllReads;
      ghost var v, cmd := View(p.buf[..pos], false, [], false), p.buf[..p.pos];
      xferSz := 0;
      var burstCount;
      rc, burstCount := BurstFor(start, v, cmd, resp);
      if rc < 0 { return; }
      xferSz := p.pos - pos;
      if xferSz > burstCount { xferSz := burstCount; }
      ghost var l1, e := log, events;
      PieceAllowed(old(log), log, start, xferSz);
      var data := p.buf[pos..pos + xferSz];
      rc := Write(Fifo, data);
      WorksTrans(old(events), e, events, |l1| - |old(log)|, |log| - |l1|);
      if xferSz == 0 { return; }
      ghost var x := Access(holds, true, Fifo, data, rc);
      TraceOne(l1, x, start, holds, v);
      assert p.buf[..pos] + data == p.buf[..pos + xferSz];
      if rc == RC_SUCCESS { SeeWritten(x, p.buf[..pos]); }
    }

    /** The command goes out in order, and the device keeps asking for more until the last piece. */
    method WriteCommand(p: Packet, ghost start: nat, ghost resp: Bytes) returns (rc: int)
      requires Valid() && lockCount > 0 && p.Valid() && p.pos <= p.size
      requires Trace(log, start, holds, View([], false, [], false)) && start < |log| && Asked(log[start..])
      modifies this`lockCount, this`units, this`holds, this`tries, this`log, this`events
      ensures Valid() && lockCount == old(lockCount) && holds == old(holds)
      ensures Works(old(events), events, |log| - |old(log)|)
      ensures old(log) <= log && start < |log|
      ensures Punctual(readReg, writeReg, old(log[..start]), p.buf[..p.pos], resp) ==> rc == RC_SUCCESS
      ensures exists v :: Trace(log, start, holds, v)
      ensures rc == RC_SUCCESS ==> Trace(log, start, holds, View(p.buf[..p.pos], false, [], false))
    {
      hide Trace, Works, Punctual, Asked, Shown;
      WorksNone(events);
      rc := RC_SUCCESS;
      var pos := 0;
      assert p.buf[..pos] == [];
      ghost var cmd := p.buf[..p.pos];
      ghost var timely := Punctual(readReg, writeReg, log[..start], cmd, resp);
      while pos < p.pos
        invariant Valid() && lockCount == old(lockCount) && holds == old(holds)
        invariant 0 <= pos <= p.pos && rc == RC_SUCCESS
        invariant old(log) <= log && Works(old(events), events, |log| - |old(log)|)
        invariant Trace(log, start, holds, View(p.buf[..pos], false, [], false))
        invariant pos < p.pos ==> Asked(log[start..])
        invariant log[..start] == old(log[..start])
      {
        ghost var l0, e := log, events;
        var xferSz;
        rc, xferSz := WritePiece(p, pos, start, resp);
        assert log[..start] == l0[..start];
        WorksTrans(old(events), e, events, |l0| - |old(log)|, |log| - |l0|);
        if rc != RC_SUCCESS { return; }
        pos := pos + xferSz;
        if pos < p.pos {
          l0, e := log, events;
          assert |p.buf[..pos]| == pos && p.buf[..pos] != cmd;
          rc := Await(STS_DATA_EXPECT, STS_DATA_EXPECT, start, View(p.buf[..pos], false, [], false), cmd, resp);
          WorksTrans(old(events), e, events, |l0| - |old(log)|, |log| - |l0|);
          if rc != RC_SUCCESS { return; }
          AskedMore(log, start);
        }
      }
    }

    /** Waits until the device holds a complete command, then tells it to execute. */
    method Execute(ghost cmd: Bytes, ghost start: nat, ghost resp: Bytes) returns (rc: int)
      requires Valid() && lockCount > 0 && Trace(log, start, holds, View(cmd, false, [], false)) && start < |log|
      modifies this`lockCount, this`units, this`holds, this`tries, this`log, this`events
      ensures Valid() && lockCount == old(lockCount) && holds == old(holds)
      ensures Works(old(events), events, |log| - |old(log)|)
      ensures old(log) <= log
      ensures exists v :: Trace(log, start, holds, v)
      ensures rc == RC_SUCCESS ==> Trace(log, start, holds, View(cmd, true, [], false))
      ensures Punctual(readReg, writeReg, old(log[..start]), cmd, resp) && cmd != [] ==> rc == RC_SUCCESS
    {
      hide Seen, See, AllUnder, Access.Quiet, And, Works, Punctual, Trace, Shown;
      ghost var v := View(cmd, false, [], false);
      rc := Await(STS_DATA_EXPECT + STS_VALID, STS_VALID, start, v, cmd, resp);
      if rc != RC_SUCCESS { return; }
      ghost var l1, e := log, events;
      assert log[start..][|log| - 1 - start] == log[|log| - 1];
      assert MayWrite(log[start..], Sts, [STS_GO]);
      if Punctual(readReg, writeReg, log[..start], cmd, resp) {
        AccessTaken(readReg, writeReg, log, start, holds, v, cmd, resp);
      }
      rc := Write(Sts, [STS_GO]);
      WorksTrans(old(events), e, events, |l1| - |old(log)|, |log| - |l1|);
      ghost var x := Access(holds, true, Sts, [STS_GO], rc);
      TraceOne(l1, x, start, holds, View(cmd, false, [], false));
      if rc == RC_SUCCESS { SeeGo(x, cmd); }
    }

    /** One piece of the response, no larger than the device has ready. */
    method ReadPiece(p: Packet, pos: nat, rspSz: nat, ghost cmd: Bytes, ghost start: nat, ghost resp: Bytes)
      returns (rc: int, xferSz: nat)
      requires Valid() && lockCount > 0 && pos < rspSz <= p.buf.Length
      requires Trace(log, start, holds, View(cmd, true, p.buf[..pos], false)) && start < |log|
      modifies this`lockCount, this`units, this`holds, this`tries, this`log, this`events, p.buf
      ensures Valid() && lockCount == old(lockCount) && holds == old(holds)
      ensures Works(old(events), events, |log| - |old(log)|)
      ensures old(log) <= log
      ensures exists v :: Trace(log, start, holds, v)
      ensures p.buf[..pos] == old(p.buf[..pos]) && Kept(old(p.buf[..]), p.buf[..], rspSz)
      ensures rc == RC_SUCCESS ==> 0 < xferSz <= rspSz - pos
      ensures rc == RC_SUCCESS ==> Trace(log, start, holds, View(cmd, true, p.buf[..pos + xferSz], false))
      ensures log[..start] == old(log[..start])
      ensures Punctual(readReg, writeReg, old(log[..start]), cmd, resp)
        && rspSz <= |resp| && old(p.buf[..pos]) == resp[..pos]
        ==> rc == RC_SUCCESS && p.buf[..pos + xferSz] == resp[..pos + xferSz]
    {
      hide See, And, Works, Punctual, Trace, Shown, AllReads, Asked, Kept, Access.BurstCount, Access.Shows, AllUnder;
      ghost var v, before := View(cmd, true, p.buf[..pos], false), p.buf[..];
      KeptAll(before, rspSz);
      xferSz := 0;
      rc := Await(STS_DATA_AVAIL, STS_DATA_AVAIL, start, v, cmd, resp);
      if rc != RC_SUCCESS { return; }
      ghost var l1, e := log, events;
      var burstCount;
      rc, burstCount := BurstFor(start, v, cmd, resp);
      WorksTrans(old(events), e, events, |l1| - |old(log)|, |log| - |l1|);
      if rc < 0 { return; }
      xferSz := rspSz - pos;
      if xferSz > burstCount { xferSz := burstCount; }
      PieceAllowed(l1, log, start, xferSz);
      ghost var l2 := log;
      e := events;
      rc := TakePiece(p, pos, xferSz, cmd, start);
      WorksTrans(old(events), e, events, |l2| - |old(log)|, |log| - |l2|);
      KeptMore(before, p.buf[..], pos + xferSz, rspSz);
      assert p.buf[..pos + xferSz] == p.buf[..pos] + p.buf[pos..pos + xferSz];
    }

    /** Reads bytes that are there into the buffer, behind those read before. */
    method TakePiece(p: Packet, pos: nat, n: nat, ghost cmd: Bytes, ghost start: nat) returns (rc: int)
      requires Valid() && lockCount > 0 && pos + n <= p.buf.Length && n <= MAX_SPI_FRAMESIZE
      requires Trace(log, start, holds, View(cmd, true, p.buf[..pos], false)) && start < |log|
      requires n > 0 ==> MayRead(log[start..], Fifo, n)
      modifies this`lockCount, this`units, this`holds, this`tries, this`log, this`events, p.buf
      ensures Valid() && lockCount == old(lockCount) && holds == old(holds) && old(log) <= log
      ensures Works(old(events), events, |log| - |old(log)|)
      ensures exists v :: Trace(log, start, holds, v)
      ensures p.buf[..pos] == old(p.buf[..pos]) && Kept(old(p.buf[..]), p.buf[..], pos + n)
      ensures rc == RC_SUCCESS ==> n > 0 && Trace(log, start, holds, View(cmd, true, p.buf[..pos + n], false))
      ensures n > 0 ==> (rc, p.buf[pos..pos + n]) == readReg(old(log), Fifo, n)
    {
      hide See, Works, Trace, MayRead;
      ghost var v, before := View(cmd, true, p.buf[..pos], false), p.buf[..];
      var data;
      rc, data := Read(Fifo, n);
      if n == 0 { return; }
      ghost var x := Access(holds, false, Fifo, data, rc);
      TraceOne(old(log), x, start, holds, v);
      forall i | 0 <= i < n { p.buf[pos + i] := data[i]; }
      assert p.buf[pos..pos + n] == data && p.buf[..pos] == before[..pos];
      assert p.buf[..pos + n] == before[..pos] + data;
      if rc == RC_SUCCESS { SeeRead(x, cmd, before[..pos]); }
    }

    /** The size a complete header announces. */
    method Measure(p: Packet, ghost resp: Bytes) returns (announced: nat)
      requires HEADER_SIZE <= p.buf.Length
      ensures announced == Announced(p.buf[..])
      ensures Fair(resp, p.size) && |resp| >= HEADER_SIZE && p.buf[..HEADER_SIZE] == resp[..HEADER_SIZE] ==>
        announced == |resp| < MAX_RESPONSE && |resp| <= p.size
    {
      hide Nat;
      announced := Nat(p.buf[2..6]);
      assert p.buf[..][2..6] == p.buf[2..6] && p.buf[..][..HEADER_SIZE] == p.buf[..HEADER_SIZE];
      if Fair(resp, p.size) && p.buf[..HEADER_SIZE] == resp[..HEADER_SIZE] { FairHeader(p.buf[..], resp, p.size); }
    }

    /** The header is read first; once all of it is there it says, once, how much more to read. */
    method ReadResponse(p: Packet, ghost cmd: Bytes, ghost start: nat, ghost resp: Bytes) returns (rc: int, rspSz: nat)
      requires Valid() && lockCount > 0 && p.Valid() && HEADER_SIZE <= p.buf.Length
      requires Trace(log, start, holds, View(cmd, true, [], false)) && start < |log|
      modifies this`lockCount, this`units, this`holds, this`tries, this`log, this`events, p.buf
      ensures Valid() && lockCount == old(lockCount) && holds == old(holds)
      ensures Works(old(events), events, |log| - |old(log)|)
      ensures old(log) <= log
      ensures exists v :: Trace(log, start, holds, v)
      ensures Kept(old(p.buf[..]), p.buf[..], Reach(p.size))
      ensures rc == RC_SUCCESS ==>
        && rspSz == Announced(p.buf[..]) && rspSz < MAX_RESPONSE && rspSz <= p.size && Reach(rspSz) <= p.buf.Length
        && Trace(log, start, holds, View(cmd, true, p.buf[..Reach(rspSz)], false))
        && Kept(old(p.buf[..]), p.buf[..], Reach(rspSz))
      ensures Punctual(readReg, writeReg, old(log[..start]), cmd, resp) && Fair(resp, p.size) ==>
        rc == RC_SUCCESS && rspSz == |resp| && p.buf[..rspSz] == resp
    {
      hide Trace, Nat, Works, Punctual, Fair, Kept, Announced;
      ghost var timely := Punctual(readReg, writeReg, log[..start], cmd, resp) && Fair(resp, p.size);
      WorksNone(events);
      rc := RC_SUCCESS;
      FairSize(resp, p.size);
      rspSz := HEADER_SIZE;
      var pos := 0;
      assert p.buf[..pos] == [];
      ghost var orig, top := p.buf[..], Reach(p.size);
      KeptAll(orig, HEADER_SIZE);
      while pos < rspSz
        invariant Valid() && lockCount == old(lockCount) && holds == old(holds) && rc == RC_SUCCESS
        invariant old(log) <= log && start < |log| && Works(old(events), events, |log| - |old(log)|)
        invariant Reach(rspSz) <= p.buf.Length && Kept(orig, p.buf[..], Reach(rspSz))
        invariant pos < HEADER_SIZE ==> rspSz == HEADER_SIZE
        invariant pos >= HEADER_SIZE ==> rspSz == Announced(p.buf[..]) && rspSz < MAX_RESPONSE && rspSz <= p.size
        invariant 0 <= pos <= Reach(rspSz) <= top
        invariant Trace(log, start, holds, View(cmd, true, p.buf[..pos], false))
        invariant log[..start] == old(log[..start])
        invariant timely ==> pos <= |resp| && p.buf[..pos] == resp[..pos]
        invariant timely ==> HEADER_SIZE <= |resp| && rspSz == if pos < HEADER_SIZE then HEADER_SIZE else |resp|
        decreases MAX_RESPONSE + HEADER_SIZE - pos
      {
        ghost var before, l0, e := p.buf[..], log, events;
        var xferSz;
        rc, xferSz := ReadPiece(p, pos, rspSz, cmd, start, resp);
        WorksTrans(old(events), e, events, |l0| - |old(log)|, |log| - |l0|);
        KeptThrough(orig, before, p.buf[..], rspSz, Reach(rspSz));
        KeptMore(orig, p.buf[..], Reach(rspSz), top);
        if rc != RC_SUCCESS { return; }
        HeaderStays(before, p.buf[..], pos);
        pos := pos + xferSz;
        if pos == HEADER_SIZE {
          var announced := Measure(p, resp);
          if announced >= MAX_RESPONSE || announced > p.size { return RC_FAILURE, rspSz; }
          KeptMore(orig, p.buf[..], HEADER_SIZE, Reach(announced));
          rspSz := announced;
        }
      }
      assert pos == Reach(rspSz);
      KeptMore(orig, p.buf[..], Reach(rspSz), top);
    }

    /** The command goes to the device, which is then told to execute it. */
    method Deliver(p: Packet, ghost resp: Bytes) returns (rc: int)
      requires Valid() && lockCount > 0 && p.Valid() && p.pos <= p.size
      modifies this`lockCount, this`units, this`holds, this`tries, this`log, this`events
      ensures Valid() && lockCount == old(lockCount) && holds == old(holds)
      ensures Works(old(events), events, |log| - |old(log)|)
      ensures old(log) <= log && (rc == RC_SUCCESS ==> |old(log)| < |log|)
      ensures exists v :: Trace(log, |old(log)|, holds, v)
      ensures rc == RC_SUCCESS ==> Trace(log, |old(log)|, holds, View(p.buf[..p.pos], true, [], false))
      ensures Punctual(readReg, writeReg, old(log), p.buf[..p.pos], resp) && p.pos > 0 ==> rc == RC_SUCCESS
    {
      hide Trace, Works, Punctual, Asked;
      ghost var start, base, cmd := |log|, log, p.buf[..p.pos];
      EmptyTrace(log, holds);
      rc := MakeReady(cmd, resp);
      TraceQuiet(base, log, start, holds, View([], false, [], false));
      if rc != RC_SUCCESS { return; }
      ghost var l1, e := log, events;
      assert log[..start] == base;
      rc := WriteCommand(p, start, resp);
      WorksTrans(old(events), e, events, |l1| - |old(log)|, |log| - |l1|);
      if rc != RC_SUCCESS { return; }
      l1, e := log, events;
      assert log[..start] == base;
      rc := Execute(cmd, start, resp);
      WorksTrans(old(events), e, events, |l1| - |old(log)|, |log| - |l1|);
    }

    /** What SendCommand does while it has the lock. */
    method Transfer(p: Packet, ghost resp: Bytes) returns (rc: int)
      requires Valid() && lockCount > 0 && p.Valid() && p.pos <= p.size && HEADER_SIZE <= p.buf.Length
      modifies this`lockCount, this`units, this`holds, this`tries, this`log, this`events, p.buf
      ensures Valid() && lockCount == old(lockCount) && holds == old(holds)
      ensures Works(old(events), events, |log| - |old(log)|)
      ensures old(log) <= log
      ensures exists v :: Trace(log, |old(log)|, holds, v)
      ensures Kept(old(p.buf[..]), p.buf[..], Reach(p.size))
      ensures rc == RC_SUCCESS ==> Delivers(log, |old(log)|, holds, old(p.buf[..p.pos]), p.buf[..], p.size)
      ensures rc == RC_SUCCESS ==> Kept(old(p.buf[..]), p.buf[..], Reach(Announced(p.buf[..])))
      ensures Punctual(readReg, writeReg, old(log), old(p.buf[..p.pos]), resp) && p.pos > 0 && Fair(resp, p.size) ==>
        rc == RC_SUCCESS && p.buf[..|resp|] == resp
    {
      hide Trace, Announced, Works, Punctual, Fair, AllQuiet, AllUnder, Access.IsReady, Kept;
      ghost var start, base, cmd := |log|, log, p.buf[..p.pos];
      ghost var timely := Punctual(readReg, writeReg, base, cmd, resp) && p.pos > 0 && Fair(resp, p.size);
      KeptAll(p.buf[..], Reach(p.size));
      rc := Deliver(p, resp);
      if rc != RC_SUCCESS { return; }
      assert log[..start] == base;
      ghost var l1, e := log, events;
      var rspSz;
      rc, rspSz := ReadResponse(p, cmd, start, resp);
      WorksTrans(old(events), e, events, |l1| - |old(log)|, |log| - |l1|);
      if rc != RC_SUCCESS { return; }
      l1, e := log, events;
      if timely {
        assert log[..start] == base;
        DoneTaken(readReg, writeReg, log, start, holds, View(cmd, true, p.buf[..Reach(rspSz)], false), cmd, resp);
      }
      rc := Ready();
      WorksTrans(old(events), e, events, |l1| - |old(log)|, |log| - |l1|);
      TraceQuiet(l1, log, start, holds, View(cmd, true, p.buf[..Reach(rspSz)], false));
    }

    /** On success the device got the command byte for byte before it was told to execute, and the buffer holds what
        it gave back. On every path the lock count is what it was, and all accesses fall into one hold of the
        semaphore. */
    method SendCommand(p: Packet, ghost resp: Bytes) returns (rc: int)
      requires Valid() && p.Valid() && p.pos <= p.size && HEADER_SIZE <= p.buf.Length
      modifies this`lockCount, this`units, this`holds, this`tries, this`log, this`events, p.buf
      ensures Valid() && lockCount == old(lockCount)
      ensures old(log) <= log
      ensures exists v :: Trace(log, |old(log)|, holds, v)
      ensures holds == old(holds) && old(lockCount) == 0 ==>
        rc in {BAD_MUTEX_E, WC_TIMEOUT_E} && log == old(log) && events == old(events) && p.buf[..] == old(p.buf[..])
      ensures holds != old(holds) || old(lockCount) > 0 ==>
        && old(events) <= events && TisLock.Bracketed(events[|old(events)|..])
        && Touches(events[|old(events)|..]) == |log| - |old(log)|
      ensures p.buf[Reach(p.size)..] == old(p.buf[Reach(p.size)..])
      ensures rc == RC_SUCCESS ==> Delivers(log, |old(log)|, holds, old(p.buf[..p.pos]), p.buf[..], p.size)
      ensures rc == RC_SUCCESS ==> var n := Reach(Announced(p.buf[..])); p.buf[n..] == old(p.buf[..])[n..]
      ensures (old(lockCount) > 0 || gate(old(tries)) == Passes)
        && Punctual(readReg, writeReg, old(log), old(p.buf[..p.pos]), resp) && p.pos > 0 && Fair(resp, p.size)
        ==> rc == RC_SUCCESS && p.buf[..|resp|] == resp
    {
      hide Trace, Announced, Reach, Works, TisLock.Bracketed, Punctual, Fair;
      rc := Lock();
      if rc != RC_SUCCESS { EmptyTrace(log, holds); return; }
      rc := Transfer(p, resp);
      Bracket(old(events), events, |log| - |old(log)|);
      ghost var v :| Trace(log, |old(log)|, holds, v);
      Unlock();
      assert Trace(log, |old(log)|, holds, v);
    }

    /** The transport as the exchange above sees it: an answer that is delivered in the packet's size and lies in the
        front of the buffer, or an error and what had been read by then. An answer is what the device gave for exactly
        this command. */
    method Submit(p: Packet, ghost resp: Bytes) returns (rc: int, ghost a: Answer)
      requires Valid() && p.Valid() && p.pos <= p.size && HEADER_SIZE <= p.size
      modifies this`lockCount, this`units, this`holds, this`tries, this`log, this`events, p.buf
      ensures Valid() && lockCount == old(lockCount) && old(log) <= log
      ensures a.Delivered(p.size) && (a.Answer? <==> rc == RC_SUCCESS) && (a.Lost? ==> a.rc == rc)
      ensures p.buf[..] == Splice(old(p.buf[..]), 0, if a.Answer? then a.bytes else a.left)
      ensures a.Answer? ==> Trace(log, |old(log)|, holds, View(old(p.buf[..p.pos]), true, a.bytes, false))
      ensures (old(lockCount) > 0 || gate(old(tries)) == Passes)
        && Punctual(readReg, writeReg, old(log), old(p.buf[..p.pos]), resp) && p.pos > 0 && Fair(resp, p.size)
        ==> a == Answer(resp)
    {
      hide Trace, Announced, Punctual;
      rc := SendCommand(p, resp);
      ghost var n := if rc == RC_SUCCESS then Reach(Announced(p.buf[..])) else p.size;
      if Fair(resp, p.size) && |resp| <= p.buf.Length && p.buf[..|resp|] == resp {
        assert p.buf[..][..HEADER_SIZE] == p.buf[..|resp|][..HEADER_SIZE];
        FairHeader(p.buf[..], resp, p.size);
      }
      if rc == RC_SUCCESS {
        DeliversAnswer(log, |old(log)|, holds, old(p.buf[..p.pos]), p.buf[..], p.size);
        a := Answer(p.buf[..n]);
      } else {
        a := Lost(rc, p.buf[..n]);
      }
      assert p.buf[..] == p.buf[..n] + p.buf[n..];
    }
  }

  /** A completed exchange: the device's view of it, the response it announced, and its release. */
  predicate Delivers(log: seq<Access>, start: nat, hold: nat, cmd: Bytes, buf: Bytes, size: nat) {
    && HEADER_SIZE <= |buf| && Announced(buf) < MAX_RESPONSE && Announced(buf) <= size && Reach(Announced(buf)) <= |buf|
    && Trace(log, start, hold, View(cmd, true, buf[..Reach(Announced(buf))], false))
    && start < |log| && log[|log| - 1].IsReady()
  }

  /** A response taken from the front of the buffer is as long as the exchange above relies on. */
  lemma DeliversAnswer(log: seq<Access>, start: nat, hold: nat, cmd: Bytes, buf: Bytes, size: nat)
    requires Delivers(log, start, hold, cmd, buf, size) && HEADER_SIZE <= size
    ensures Answer(buf[..Reach(Announced(buf))]).Delivered(size)
  {
    hide Nat, Trace;
    var b := buf[..Reach(Announced(buf))];
    assert b[2..6] == buf[2..6];
  }

  lemma DoneTaken(r: ReadFn, w: WriteFn, log: seq<Access>, start: nat, hold: nat, v: View, cmd: Bytes, resp: Bytes)
    requires start <= |log| && Punctual(r, w, log[..start], cmd, resp) && Trace(log, start, hold, v) && !v.spoiled
    ensures w(log, Sts, [STS_COMMAND_READY]) == RC_SUCCESS
  {
    hide Punctual, Trace;
    AccessTaken(r, w, log, start, hold, v, cmd, resp);
    assert MayWrite(log[start..], Sts, [STS_COMMAND_READY]);
  }

  /** Nothing changed from this position on. */
  predicate Kept(a: Bytes, b: Bytes, at: nat) { at <= |a| == |b| && a[at..] == b[at..] }

  lemma KeptAll(a: Bytes, at: nat)
    requires at <= |a|
    ensures Kept(a, a, at)
  {
  }

  lemma KeptMore(a: Bytes, b: Bytes, lo: nat, hi: nat)
    requires Kept(a, b, lo) && lo <= hi <= |a|
    ensures Kept(a, b, hi)
  {
    assert a[hi..] == a[lo..][hi - lo..] && b[hi..] == b[lo..][hi - lo..];
  }

  lemma KeptThrough(a: Bytes, b: Bytes, d: Bytes, lo: nat, hi: nat)
    requires Kept(a, b, hi) && Kept(b, d, lo) && lo <= hi
    ensures Kept(a, d, hi)
  {
    KeptMore(b, d, lo, hi);
  }

  lemma HeaderStays(buf: Bytes, buf': Bytes, pos: nat)
    requires HEADER_SIZE <= |buf| == |buf'| && pos <= |buf| && buf'[..pos] == buf[..pos]
    ensures pos >= HEADER_SIZE ==> Announced(buf') == Announced(buf)
  {
    hide Nat;
    if pos >= HEADER_SIZE { assert buf'[2..6] == buf'[..pos][2..6] == buf[..pos][2..6] == buf[2..6]; }
  }

  lemma SeeGo(x: Access, got: Bytes)
    requires x.IsGo() && x.rc == RC_SUCCESS
    ensures See(View(got, false, [], false), x) == View(got, true, [], false)
  {
  }

  lemma SeeRead(x: Access, got: Bytes, given: Bytes)
    requires !x.write && x.reg == Fifo && x.rc == RC_SUCCESS
    ensures See(View(got, true, given, false), x) == View(got, true, given + x.data, false)
  {
  }

  lemma SeeWritten(x: Access, got: Bytes)
    requires x.write && x.reg == Fifo && x.rc == RC_SUCCESS
    ensures See(View(got, false, [], false), x) == View(got + x.data, false, [], false)
  {
  }
}
