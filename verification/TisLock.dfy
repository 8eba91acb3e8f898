/** Cross-process exclusion by the counted lock over a named semaphore (TPM2_TIS_Lock and TPM2_TIS_Unlock of
    tpm2_tis.c). Any number of processes take the code's own steps in any order; each step is what one of them does
    between two points at which another may run. */
module TisLock {

  /** Where a process is: outside both functions, past sem_open in Lock, past sem_timedwait but not yet counted, or in
      Unlock with the count at zero and the semaphore not yet posted. */
  datatype Pc = Outside | Opened | Got | Posting

  /** lockCount is the process's gLockCount. */
  datatype Proc = Proc(pc: Pc, lockCount: nat) {
    predicate Valid() { pc == Outside || lockCount == 0 }

    /** Does this process hold the semaphore's unit? */
    predicate Holds() { lockCount > 0 || pc == Got || pc == Posting }

    predicate InWindow() { pc == Got || pc == Posting }
  }

  /** A register access, by process pid, the hold-th time the semaphore was obtained. */
  datatype Access = Access(pid: nat, hold: nat)

  /** lost counts posts that failed because Unlock could not open the semaphore; holds and owner record who obtained the
      semaphore last, and log the register accesses in order. */
  datatype State = State(sem: nat, procs: seq<Proc>, lost: nat, holds: nat, owner: nat, log: seq<Access>)

  datatype Step =
    | Open(p: nat) | OpenFails(p: nat) | TimesOut(p: nat) | Obtain(p: nat) | Count(p: nat)
    | Nest(p: nat) | Unnest(p: nat) | Release(p: nat) | Post(p: nat) | PostFails(p: nat)
    | Touch(p: nat)

  predicate Init(s: State) {
    && s.sem == 1 && s.lost == 0 && s.holds == 0 && s.log == []
    && forall i :: 0 <= i < |s.procs| ==> s.procs[i] == Proc(Outside, 0)
  }

  predicate Enabled(s: State, a: Step) {
    a.p < |s.procs| &&
    var q := s.procs[a.p];
    match a
    case Open(_) => q.pc == Outside && q.lockCount == 0
    case OpenFails(_) => q.pc == Outside && q.lockCount == 0
    case TimesOut(_) => q.pc == Opened
    case Obtain(_) => q.pc == Opened && s.sem > 0
    case Count(_) => q.pc == Got
    case Nest(_) => q.pc == Outside && q.lockCount > 0
    case Unnest(_) => q.pc == Outside && q.lockCount > 1
    case Release(_) => q.pc == Outside && q.lockCount == 1
    case Post(_) => q.pc == Posting
    case PostFails(_) => q.pc == Posting
    case Touch(_) => q.pc == Outside && q.lockCount > 0
  }

  function Next(s: State, a: Step): (r: State)
    requires Enabled(s, a)
  {
    var q := s.procs[a.p];
    match a
    case Open(p) => s.(procs := s.procs[p := q.(pc := Opened)])
    case OpenFails(_) => s
    case TimesOut(p) => s.(procs := s.procs[p := q.(pc := Outside)])
    case Obtain(p) => s.(sem := s.sem - 1, procs := s.procs[p := q.(pc := Got)], holds := s.holds + 1, owner := p)
    case Count(p) => s.(procs := s.procs[p := Proc(Outside, q.lockCount + 1)])
    case Nest(p) => s.(procs := s.procs[p := q.(lockCount := q.lockCount + 1)])
    case Unnest(p) => s.(procs := s.procs[p := q.(lockCount := q.lockCount - 1)])
    case Release(p) => s.(procs := s.procs[p := Proc(Posting, q.lockCount - 1)])
    case Post(p) => s.(sem := s.sem + 1, procs := s.procs[p := q.(pc := Outside)])
    case PostFails(p) => s.(lost := s.lost + 1, procs := s.procs[p := q.(pc := Outside)])
    case Touch(p) => s.(log := s.log + [Access(p, s.holds)])
  }

  predicate Run(states: seq<State>, steps: seq<Step>) {
    && |states| == |steps| + 1 && Init(states[0])
    && forall i :: 0 <= i < |steps| ==> Enabled(states[i], steps[i]) && states[i + 1] == Next(states[i], steps[i])
  }

  // ---- counting ----

  function Holders(procs: seq<Proc>): (r: nat) {
    if procs == [] then 0 else Holders(procs[..|procs| - 1]) + if procs[|procs| - 1].Holds() then 1 else 0
  }

  function Locked(procs: seq<Proc>): (r: nat) {
    if procs == [] then 0 else Locked(procs[..|procs| - 1]) + if procs[|procs| - 1].lockCount > 0 then 1 else 0
  }

  lemma {:induction false} HoldersUpdate(procs: seq<Proc>, p: nat, q: Proc)
    requires p < |procs|
    ensures Holders(procs[p := q]) ==
      Holders(procs) + (if q.Holds() then 1 else 0) - (if procs[p].Holds() then 1 else 0)
  {
    var n := |procs| - 1;
    if p < n {
      HoldersUpdate(procs[..n], p, q);
      assert procs[p := q][..n] == procs[..n][p := q];
    } else {
      assert procs[p := q][..n] == procs[..n];
    }
  }

  lemma {:induction false} HoldersNone(procs: seq<Proc>)
    ensures Holders(procs) == 0 <==> forall i :: 0 <= i < |procs| ==> !procs[i].Holds()
  {
    if procs != [] { HoldersNone(procs[..|procs| - 1]); }
  }

  lemma {:induction false} HoldersOne(procs: seq<Proc>, p: nat, q: nat)
    requires p < q < |procs| && procs[p].Holds() && procs[q].Holds()
    ensures Holders(procs) >= 2
  {
    var n := |procs| - 1;
    if q < n { HoldersOne(procs[..n], p, q); } else { HoldersNone(procs[..n]); assert procs[..n][p].Holds(); }
  }

  lemma {:induction false} LockedAndWindows(procs: seq<Proc>)
    requires forall i :: 0 <= i < |procs| ==> procs[i].Valid()
    ensures Locked(procs) <= Holders(procs)
    ensures Locked(procs) == Holders(procs) <==> forall i :: 0 <= i < |procs| ==> !procs[i].InWindow()
  {
    if procs != [] { LockedAndWindows(procs[..|procs| - 1]); }
  }

  // ---- the invariant ----

  /** The unit is in the semaphore, with exactly one process, or lost for good. */
  predicate OneUnit(s: State) {
    && (forall i :: 0 <= i < |s.procs| ==> s.procs[i].Valid())
    && s.sem + Holders(s.procs) + s.lost == 1
    && (forall i :: 0 <= i < |s.procs| && s.procs[i].Holds() ==> i == s.owner)
  }

  /** Accesses are grouped by hold. */
  predicate Grouped(s: State) {
    && (forall i :: 0 <= i < |s.log| ==> s.log[i].hold <= s.holds)
    && (forall i :: 0 <= i < |s.log| && s.log[i].hold == s.holds ==> s.log[i].pid == s.owner)
    && (forall i, j :: 0 <= i <= j < |s.log| ==> s.log[i].hold <= s.log[j].hold)
    && (forall i, j :: 0 <= i <= j < |s.log| && s.log[i].hold == s.log[j].hold ==> s.log[i].pid == s.log[j].pid)
  }

  predicate Inv(s: State) { OneUnit(s) && Grouped(s) }

  lemma InitInv(s: State)
    requires Init(s)
    ensures Inv(s)
  {
    HoldersNone(s.procs);
  }

  lemma StepOneUnit(s: State, a: Step)
    requires OneUnit(s) && Enabled(s, a)
    ensures OneUnit(Next(s, a))
  {
    hide Holders;
    var s' := Next(s, a);
    if !a.OpenFails? && !a.Touch? { HoldersUpdate(s.procs, a.p, s'.procs[a.p]); }
    if a.Obtain? { HoldersNone(s.procs); }
  }

  lemma StepGrouped(s: State, a: Step)
    requires OneUnit(s) && Grouped(s) && Enabled(s, a)
    ensures Grouped(Next(s, a))
  {
    hide Holders;
  }

  /** A unit that is lost is held by no process, so that no step obtains it or accesses a register. */
  lemma LostStep(s: State, a: Step)
    requires OneUnit(s) && s.lost > 0 && Enabled(s, a)
    ensures !a.Obtain? && Next(s, a).log == s.log && Next(s, a).lost == s.lost
  {
    HoldersNone(s.procs);
  }

  lemma {:induction false} RunInv(states: seq<State>, steps: seq<Step>, n: nat)
    requires Run(states, steps) && n < |states|
    ensures Inv(states[n])
  {
    if n == 0 {
      InitInv(states[0]);
    } else {
      RunInv(states, steps, n - 1);
      StepOneUnit(states[n - 1], steps[n - 1]);
      StepGrouped(states[n - 1], steps[n - 1]);
    }
  }

  // ---- what it gives ----

  /** In every state of every run at most one process has a positive lock count, and no other is in a window. */
  lemma Exclusion(states: seq<State>, steps: seq<Step>, n: nat, p: nat, q: nat)
    requires Run(states, steps) && n < |states| && p < |states[n].procs| && q < |states[n].procs|
    requires states[n].procs[p].Holds() && states[n].procs[q].Holds()
    ensures p == q
  {
    RunInv(states, steps, n);
  }

  /** The semaphore's value plus the number of processes with a positive lock count is never more than 1, and it is 1
      exactly while no process is between taking or giving the unit and counting it, and no post has failed. */
  lemma SemaphorePlusLocked(states: seq<State>, steps: seq<Step>, n: nat)
    requires Run(states, steps) && n < |states|
    ensures var s := states[n];
      && s.sem + Locked(s.procs) <= 1
      && (s.sem + Locked(s.procs) == 1 <==>
            s.lost == 0 && forall i :: 0 <= i < |s.procs| ==> !s.procs[i].InWindow())
  {
    RunInv(states, steps, n);
    LockedAndWindows(states[n].procs);
  }

  /** Between the first and the last access of one hold, no access belongs to another process or to another hold. */
  lemma AccessesContiguous(states: seq<State>, steps: seq<Step>, n: nat, i: nat, j: nat, k: nat)
    requires Run(states, steps) && n < |states| && i <= j <= k < |states[n].log|
    requires states[n].log[i].hold == states[n].log[k].hold
    ensures states[n].log[j] == states[n].log[i]
  {
    RunInv(states, steps, n);
  }

  /** Inside a window the sum is 0: one process obtains the semaphore and has not counted yet. */
  lemma SumFailsInWindow()
    ensures exists states: seq<State>, steps: seq<Step> ::
      Run(states, steps) && states[|steps|].sem + Locked(states[|steps|].procs) == 0 && states[|steps|].lost == 0
  {
    var s0 := State(1, [Proc(Outside, 0)], 0, 0, 0, []);
    var s1 := Next(s0, Open(0));
    var s2 := Next(s1, Obtain(0));
    var states, steps := [s0, s1, s2], [Open(0), Obtain(0)];
    assert Run(states, steps);
    assert s2.procs[..0] == [];
    assert Locked(s2.procs) == 0;
  }

  /** Once a unit is lost every process is stopped for good: nothing is obtained or accessed in any later state. */
  lemma {:induction false} LostStops(states: seq<State>, steps: seq<Step>, n: nat, m: nat)
    requires Run(states, steps) && n <= m < |states| && states[n].lost > 0
    ensures states[m].log == states[n].log && states[m].holds == states[n].holds && states[m].lost == states[n].lost
    decreases m
  {
    if n < m {
      LostStops(states, steps, n, m - 1);
      RunInv(states, steps, m - 1);
      LostStep(states[m - 1], steps[m - 1]);
    }
  }

  // ---- one command among the steps of all processes ----

  /** What a process does that counts: locking, unlocking, and a register access. */
  datatype Event = Enter | Leave | Touched

  function Change(e: Event): (r: int) { match e case Enter => 1 case Leave => -1 case Touched => 0 }

  function Depth(events: seq<Event>): (r: int) {
    if events == [] then 0 else Depth(events[..|events| - 1]) + Change(events[|events| - 1])
  }

  /** Every lock is given back and none that was there before. */
  predicate Balanced(events: seq<Event>) {
    Depth(events) == 0 && forall i :: 0 <= i <= |events| ==> Depth(events[..i]) >= 0
  }

  /** The shape of one command: a lock, balanced work, and the unlock that belongs to the lock. */
  predicate Bracketed(events: seq<Event>) {
    && |events| >= 2 && events[0] == Enter && events[|events| - 1] == Leave
    && Balanced(events[1..|events| - 1])
  }

  lemma {:induction false} DepthConcat(a: seq<Event>, b: seq<Event>)
    ensures Depth(a + b) == Depth(a) + Depth(b)
    decreases |b|
  {
    if b == [] {
      assert a + b == a;
    } else {
      var n := |b| - 1;
      DepthConcat(a, b[..n]);
      assert (a + b)[..|a + b| - 1] == a + b[..n];
    }
  }

  function EventOf(a: Step, p: nat): (r: seq<Event>) {
    if a.p != p then []
    else match a
      case Count(_) => [Enter]
      case Nest(_) => [Enter]
      case Unnest(_) => [Leave]
      case Release(_) => [Leave]
      case Touch(_) => [Touched]
      case _ => []
  }

  /** What process p does in these steps, whatever the others do in between. */
  function EventsOf(steps: seq<Step>, p: nat): (r: seq<Event>) {
    if steps == [] then [] else EventsOf(steps[..|steps| - 1], p) + EventOf(steps[|steps| - 1], p)
  }

  lemma {:induction false} CountTracks(states: seq<State>, steps: seq<Step>, p: nat, m: nat, i: nat)
    requires Run(states, steps) && m <= i <= |steps| && p < |states[m].procs|
    ensures p < |states[i].procs|
    ensures states[i].procs[p].lockCount == states[m].procs[p].lockCount + Depth(EventsOf(steps[m..i], p))
    decreases i
  {
    hide Next, Enabled, Init, Depth, EventOf;
    assert EventsOf(steps[m..m], p) == [] && Depth([]) == 0 by { NoEvents(steps, p, m); }
    if m < i {
      CountTracks(states, steps, p, m, i - 1);
      assert steps[m..i][..i - 1 - m] == steps[m..i - 1];
      DepthConcat(EventsOf(steps[m..i - 1], p), EventOf(steps[i - 1], p));
      StepCounts(states[i - 1], steps[i - 1], p);
    }
  }

  lemma NoEvents(steps: seq<Step>, p: nat, m: nat)
    requires m <= |steps|
    ensures EventsOf(steps[m..m], p) == [] && Depth([]) == 0
  {
  }

  lemma StepCounts(s: State, a: Step, p: nat)
    requires Enabled(s, a) && p < |s.procs|
    ensures var s' := Next(s, a);
      p < |s'.procs| && s'.procs[p].lockCount == s.procs[p].lockCount + Depth(EventOf(a, p))
  {
    assert forall e: Event :: [e][..0] == [];
  }

  lemma {:induction false} EventsPrefix(steps: seq<Step>, p: nat, i: nat)
    requires i <= |steps|
    ensures EventsOf(steps[..i], p) <= EventsOf(steps, p)
    decreases |steps|
  {
    if i < |steps| {
      var n := |steps| - 1;
      EventsPrefix(steps[..n], p, i);
      assert steps[..n][..i] == steps[..i];
    } else {
      assert steps[..i] == steps;
    }
  }

  /** The events before a step are a proper prefix of all of them when the step is an access. */
  lemma AccessInside(steps: seq<Step>, p: nat, i: nat)
    requires i < |steps| && steps[i] == Touch(p) && Bracketed(EventsOf(steps, p))
    ensures 1 <= |EventsOf(steps[..i], p)| < |EventsOf(steps, p)| - 1
  {
    var e := EventsOf(steps, p);
    var q := |EventsOf(steps[..i], p)|;
    EventsPrefix(steps, p, i + 1);
    assert steps[..i + 1][..i] == steps[..i];
    assert EventsOf(steps[..i + 1], p)[q] == Touched == e[q];
  }

  lemma DepthInside(e: seq<Event>, q: nat)
    requires Bracketed(e) && 1 <= q < |e|
    ensures Depth(e[..q]) >= 1
  {
    var b := e[1..|e| - 1];
    assert e[..q] == [Enter] + b[..q - 1];
    DepthConcat([Enter], b[..q - 1]);
    assert [Enter][..0] == [];
  }

  /** Between two accesses of the span the process is inside its bracket. */
  lemma SpanDepth(span: seq<Step>, p: nat, x: nat, y: nat, z: nat)
    requires x <= y <= z < |span| && Bracketed(EventsOf(span, p)) && span[x] == Touch(p) && span[z] == Touch(p)
    ensures Depth(EventsOf(span[..y], p)) >= 1
  {
    hide Bracketed, EventsOf, Depth;
    var e := EventsOf(span, p);
    AccessInside(span, p, x);
    AccessInside(span, p, z);
    assert span[..y][..x] == span[..x] && span[..z][..y] == span[..y];
    EventsPrefix(span[..y], p, x);
    EventsPrefix(span[..z], p, y);
    EventsPrefix(span, p, y);
    assert EventsOf(span[..y], p) == e[..|EventsOf(span[..y], p)|];
    DepthInside(e, |EventsOf(span[..y], p)|);
  }

  /** While process p runs one command, from its lock to the unlock that belongs to it, no other process accesses a
      register between p's first and p's last access, whatever steps the others take in between. */
  lemma CommandUninterrupted(states: seq<State>, steps: seq<Step>, p: nat, m: nat, n: nat, x: nat, y: nat, z: nat)
    requires Run(states, steps) && m <= x <= y <= z < n <= |steps| && p < |states[m].procs|
    requires Bracketed(EventsOf(steps[m..n], p))
    requires steps[x] == Touch(p) && steps[z] == Touch(p) && steps[y].Touch?
    ensures steps[y].p == p
  {
    hide Bracketed, EventsOf, Depth, Next, Init;
    assert steps[m..n][..y - m] == steps[m..y];
    SpanDepth(steps[m..n], p, x - m, y - m, z - m);
    CountTracks(states, steps, p, m, y);
    Exclusion(states, steps, y, p, steps[y].p);
  }
}
