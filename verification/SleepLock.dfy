/**
  acquiresleep and releasesleep over sleep and wakeup, interleaved one spinlock
  action at a time by any number of processes. A process holds its own p->lock
  from inside sleep until the scheduler has switched away from it. With the lock
  or without it, a process may also sleep on some other channel, as the holder
  of a buffer does while it waits for the disk.
 */
module SleepLock {

  type Pid = nat   // index into proc[]

  datatype PC =
    | Outside          // not using the lock
    | AcqSpin          // about to acquire lk->lk, at first or after sleeping
    | AcqTest          // while (lk->locked)
    | SleepSpin        // in sleep, about to acquire p->lock
    | SleepRelease     // about to release lk->lk
    | SleepMark        // about to set p->chan and p->state
    | SleepSwitch      // in sched, p->lock not yet released by the scheduler
    | Asleep           // switched out
    | Resumed          // switched back in by the scheduler
    | AcqSet           // about to set lk->locked and lk->pid
    | AcqRelease       // about to release lk->lk
    | Inside           // between acquiresleep and releasesleep
    | RelSpin          // releasesleep: about to acquire lk->lk
    | RelClear         // about to clear lk->locked and lk->pid
    | Wake(next: nat)  // in wakeup, about to visit proc[next]
    | RelRelease       // about to release lk->lk
    | Nap(inside: bool, at: NapPC)   // in sleep on another channel, from Inside or from Outside

  /** As SleepMark, SleepSwitch, Asleep and Resumed, for another channel. */
  datatype NapPC = NapMark | NapSwitch | NapAsleep | NapResumed

  datatype RunState = Running | Runnable | Sleeping

  datatype Proc = Proc(pc: PC, run: RunState, onChan: bool, lockHeld: bool)

  datatype Holder = Nobody | Held(p: Pid)

  /** The process table, lk->lk, lk->locked and lk->pid (0 for none, else index + 1). */
  datatype State = State(procs: seq<Proc>, lk: Holder, locked: bool, pid: nat)

  /**
    Advance is the process's own next action; Doze is a call of sleep on another
    channel, with p->lock just taken; Rouse is a wakeup of that channel, which
    visits the process; Yield is a timer interrupt.
   */
  datatype Step = Advance(p: Pid) | Doze(p: Pid) | Rouse(p: Pid) | Schedule(p: Pid) | Yield(p: Pid) | Kill(p: Pid)

  predicate HoldsLk(pc: PC) {
    pc in {AcqTest, SleepSpin, SleepRelease, AcqSet, AcqRelease, RelClear, RelRelease} || pc.Wake?
  }

  predicate HoldsOwn(pc: PC) {
    pc in {SleepRelease, SleepMark, SleepSwitch, Resumed} || (pc.Nap? && pc.at != NapAsleep)
  }

  /** From setting lk->locked to clearing it. */
  predicate Owns(pc: PC) {
    pc in {AcqRelease, Inside, RelSpin, RelClear} || (pc.Nap? && pc.inside)
  }

  /** Interrupts are on, so the process may be preempted. */
  predicate Preemptible(pc: PC) {
    pc in {Outside, AcqSpin, Inside, RelSpin}
  }

  predicate Initial(s: State) {
    && s.lk == Nobody && !s.locked && s.pid == 0
    && forall p :: 0 <= p < |s.procs| ==> s.procs[p] == Proc(Outside, Runnable, false, false)
  }

  /** Asleep on another channel. */
  predicate Napping(q: Proc) {
    q.pc.Nap? && q.pc.at == NapAsleep && q.run == Sleeping
  }

  predicate Enabled(s: State, step: Step) {
    step.p < |s.procs| &&
    var q := s.procs[step.p];
    match step
    case Doze(p) => q.run == Running && q.pc in {Outside, Inside} && !q.lockHeld
    case Rouse(p) => Napping(q) && !q.lockHeld
    case Schedule(p) => q.run == Runnable && !q.lockHeld
    case Yield(p) => q.run == Running && Preemptible(q.pc) && !q.lockHeld
    case Kill(p) => !q.lockHeld
    case Advance(p) =>
      match q.pc
      case AcqSpin => q.run == Running && s.lk == Nobody
      case RelSpin => q.run == Running && s.lk == Nobody
      case SleepSpin => q.run == Running && !q.lockHeld
      case SleepSwitch => true
      case Asleep => false
      case Nap(_, at) => at == NapSwitch || (at != NapAsleep && q.run == Running)
      case Wake(i) => q.run == Running && (i < |s.procs| && i != p ==> !s.procs[i].lockHeld)
      case _ => q.run == Running
  }

  function WithProc(s: State, p: Pid, q: Proc): State
    requires p < |s.procs|
  {
    s.(procs := s.procs[p := q])
  }

  function Goto(s: State, p: Pid, pc: PC): State
    requires p < |s.procs|
  {
    WithProc(s, p, s.procs[p].(pc := pc))
  }

  /** wakeup's body for one process, under its p->lock. */
  function Visited(q: Proc): Proc {
    if q.run == Sleeping && q.onChan then q.(run := Runnable) else q
  }

  function Apply(s: State, step: Step): State
    requires Enabled(s, step)
  {
    var q := s.procs[step.p];
    match step
    case Doze(p) => WithProc(s, p, q.(lockHeld := true, pc := Nap(q.pc == Inside, NapMark)))
    case Rouse(p) => WithProc(s, p, q.(run := Runnable))
    case Schedule(p) =>
      if q.pc == Asleep then WithProc(s, p, q.(run := Running, lockHeld := true, pc := Resumed))
      else if q.pc.Nap? then WithProc(s, p, q.(run := Running, lockHeld := true, pc := Nap(q.pc.inside, NapResumed)))
      else WithProc(s, p, q.(run := Running))
    case Yield(p) => WithProc(s, p, q.(run := Runnable))
    case Kill(p) => WithProc(s, p, if q.run == Sleeping then q.(run := Runnable) else q)
    case Advance(p) =>
      match q.pc
      case Outside => Goto(s, p, AcqSpin)
      case AcqSpin => Goto(s, p, AcqTest).(lk := Held(p))
      case AcqTest => Goto(s, p, if s.locked then SleepSpin else AcqSet)
      case SleepSpin => WithProc(s, p, q.(lockHeld := true, pc := SleepRelease))
      case SleepRelease => Goto(s, p, SleepMark).(lk := Nobody)
      case SleepMark => WithProc(s, p, q.(onChan := true, run := Sleeping, pc := SleepSwitch))
      case SleepSwitch => WithProc(s, p, q.(lockHeld := false, pc := Asleep))
      case Asleep => s
      case Resumed => WithProc(s, p, q.(onChan := false, lockHeld := false, pc := AcqSpin))
      case AcqSet => Goto(s, p, AcqRelease).(locked := true, pid := p + 1)
      case AcqRelease => Goto(s, p, Inside).(lk := Nobody)
      case Inside => Goto(s, p, RelSpin)
      case RelSpin => Goto(s, p, RelClear).(lk := Held(p))
      case RelClear => Goto(s, p, Wake(0)).(locked := false, pid := 0)
      case Wake(i) =>
        if i >= |s.procs| then Goto(s, p, RelRelease)
        else if i == p then Goto(s, p, Wake(i + 1))
        else Goto(WithProc(s, i, Visited(s.procs[i])), p, Wake(i + 1))
      case RelRelease => Goto(s, p, Outside).(lk := Nobody)
      case Nap(inside, at) =>
        match at
        case NapMark => WithProc(s, p, q.(run := Sleeping, pc := Nap(inside, NapSwitch)))
        case NapSwitch => WithProc(s, p, q.(lockHeld := false, pc := Nap(inside, NapAsleep)))
        case NapAsleep => s
        case NapResumed => WithProc(s, p, q.(lockHeld := false, pc := if inside then Inside else Outside))
  }

  /** holdingsleep, called by process p. */
  predicate HoldingSleep(s: State, p: Pid) {
    s.locked && s.pid == p + 1
  }

  // ----- the invariant -----

  /** Asleep on the lock, or past the point of no return towards it. */
  predicate BoundToSleep(q: Proc) {
    q.pc in {SleepMark, SleepSwitch} || (q.pc == Asleep && q.run == Sleeping)
  }

  /** What a process's own fields say about where it is. */
  ghost predicate RunOk(q: Proc) {
    && (q.lockHeld <==> HoldsOwn(q.pc))
    && (q.onChan <==> q.pc in {SleepSwitch, Asleep, Resumed})
    && (q.run == Sleeping ==> q.pc in {SleepSwitch, Asleep} || (q.pc.Nap? && q.pc.at in {NapSwitch, NapAsleep}))
    && (q.pc == SleepSwitch || (q.pc.Nap? && q.pc.at == NapSwitch) ==> q.run == Sleeping)
    && (q.pc == Asleep || (q.pc.Nap? && q.pc.at == NapAsleep) ==> q.run != Running)
    && (q.run == Runnable ==> Preemptible(q.pc) || q.pc == Asleep || (q.pc.Nap? && q.pc.at == NapAsleep))
  }

  /** How the process's place and the lock's fields agree. */
  ghost predicate LockOk(s: State, p: Pid)
    requires p < |s.procs|
  {
    var pc := s.procs[p].pc;
    && (s.lk == Held(p) <==> HoldsLk(pc))
    && (Owns(pc) <==> HoldingSleep(s, p))
    && (pc in {SleepSpin, SleepRelease} ==> s.locked)
    && (pc in {AcqSet, RelRelease} || pc.Wake? ==> !s.locked)
    && (pc.Wake? ==> pc.next <= |s.procs|)
  }

  ghost predicate ProcOk(s: State, p: Pid)
    requires p < |s.procs|
  {
    RunOk(s.procs[p]) && LockOk(s, p)
  }

  /** A sleeper of a free lock is still ahead of the releaser that is waking sleepers. */
  ghost predicate WillBeWoken(s: State, p: Pid)
    requires p < |s.procs|
  {
    BoundToSleep(s.procs[p]) && !s.locked ==>
      s.lk.Held? && s.lk.p < |s.procs| && s.procs[s.lk.p].pc.Wake? && s.procs[s.lk.p].pc.next <= p
  }

  ghost predicate Inv(s: State) {
    && (s.lk.Held? ==> s.lk.p < |s.procs|)
    && (if s.locked then 1 <= s.pid <= |s.procs| else s.pid == 0)
    && forall p :: 0 <= p < |s.procs| ==> ProcOk(s, p) && WillBeWoken(s, p)
  }

  lemma NapKeepsRun(s: State, p: Pid)
    requires Enabled(s, Advance(p)) && RunOk(s.procs[p]) && s.procs[p].pc.Nap?
    ensures RunOk(Apply(s, Advance(p)).procs[p])
  {
  }

  lemma AdvanceKeepsRun(s: State, p: Pid)
    requires Enabled(s, Advance(p)) && RunOk(s.procs[p])
    ensures RunOk(Apply(s, Advance(p)).procs[p])
  {
    if s.procs[p].pc.Nap? { NapKeepsRun(s, p); }
  }

  lemma AdvanceKeepsLock(s: State, p: Pid)
    requires Enabled(s, Advance(p)) && LockOk(s, p)
    ensures LockOk(Apply(s, Advance(p)), p)
  {
  }

  lemma AdvanceKeepsOther(s: State, mover: Pid, p: Pid)
    requires Enabled(s, Advance(mover)) && p < |s.procs| && p != mover
    requires RunOk(s.procs[mover]) && LockOk(s, mover) && ProcOk(s, p)
    ensures ProcOk(Apply(s, Advance(mover)), p)
  {
    assert Apply(s, Advance(mover)).procs[p] in {s.procs[p], Visited(s.procs[p])};
  }

  lemma StepKeepsProc(s: State, step: Step, p: Pid)
    requires Inv(s) && Enabled(s, step) && p < |s.procs|
    ensures ProcOk(Apply(s, step), p)
  {
    assert ProcOk(s, p) && ProcOk(s, step.p);
    if step.Advance? {
      hide RunOk, LockOk, WillBeWoken;
      if step.p == p {
        AdvanceKeepsRun(s, p);
        AdvanceKeepsLock(s, p);
      } else {
        AdvanceKeepsOther(s, step.p, p);
      }
    } else {
      OutsideStepKeepsProc(s, step, p);
    }
  }

  lemma OutsideStepKeepsProc(s: State, step: Step, p: Pid)
    requires Enabled(s, step) && !step.Advance? && p < |s.procs| && ProcOk(s, p)
    ensures ProcOk(Apply(s, step), p)
  {
  }

  lemma StepKeepsWoken(s: State, step: Step, p: Pid)
    requires Inv(s) && Enabled(s, step) && p < |s.procs|
    ensures WillBeWoken(Apply(s, step), p)
  {
    assert ProcOk(s, p) && ProcOk(s, step.p) && WillBeWoken(s, p);
    if s.lk.Held? { assert ProcOk(s, s.lk.p); }
    if step.Advance? { AdvanceKeepsWoken(s, step.p, p); }
  }

  lemma AdvanceKeepsWoken(s: State, mover: Pid, p: Pid)
    requires Enabled(s, Advance(mover)) && p < |s.procs| && (s.lk.Held? ==> s.lk.p < |s.procs| && ProcOk(s, s.lk.p))
    requires ProcOk(s, mover) && ProcOk(s, p) && WillBeWoken(s, p)
    ensures WillBeWoken(Apply(s, Advance(mover)), p)
  {
  }

  lemma StepKeepsInv(s: State, step: Step)
    requires Inv(s) && Enabled(s, step)
    ensures Inv(Apply(s, step))
  {
    hide ProcOk, WillBeWoken;
    var s' := Apply(s, step);
    assert ProcOk(s, step.p);
    forall p | 0 <= p < |s'.procs|
      ensures ProcOk(s', p) && WillBeWoken(s', p)
    {
      StepKeepsProc(s, step, p);
      StepKeepsWoken(s, step, p);
    }
  }

  // ----- runs -----

  ghost predicate IsRun(states: seq<State>, steps: seq<Step>) {
    && |states| == |steps| + 1 && Initial(states[0])
    && forall i :: 0 <= i < |steps| ==> Enabled(states[i], steps[i]) && states[i + 1] == Apply(states[i], steps[i])
  }

  ghost predicate Reachable(s: State) {
    exists states, steps :: IsRun(states, steps) && states[|steps|] == s
  }

  lemma {:induction false} RunKeepsInv(states: seq<State>, steps: seq<Step>)
    requires IsRun(states, steps)
    ensures Inv(states[|steps|])
    decreases |steps|
  {
    var n := |steps|;
    if n > 0 {
      assert IsRun(states[..n], steps[..n - 1]);
      RunKeepsInv(states[..n], steps[..n - 1]);
      StepKeepsInv(states[n - 1], steps[n - 1]);
    }
  }

  /** At most one process is between acquiresleep and releasesleep, and holdingsleep knows which. */
  lemma MutualExclusion(s: State, p: Pid, q: Pid)
    requires Reachable(s) && p < |s.procs| && q < |s.procs|
    ensures Owns(s.procs[p].pc) && Owns(s.procs[q].pc) ==> p == q
    ensures Owns(s.procs[p].pc) <==> HoldingSleep(s, p)
    ensures !s.locked ==> s.pid == 0
  {
    var states, steps :| IsRun(states, steps) && states[|steps|] == s;
    RunKeepsInv(states, steps);
    assert ProcOk(s, p) && ProcOk(s, q);
  }

  /** Inside acquiresleep. */
  predicate Acquiring(pc: PC) {
    pc in {AcqSpin, AcqTest, SleepSpin, SleepRelease, SleepMark, SleepSwitch, Asleep, Resumed, AcqSet, AcqRelease}
  }

  /**
    acquiresleep returns to a process only with the lock, however often it slept
    in between; and the lock stays with it until its own releasesleep clears it.
   */
  lemma AcquireReturns(s: State, step: Step, p: Pid)
    requires Reachable(s) && Enabled(s, step) && p < |s.procs|
    ensures
      var s' := Apply(s, step);
      && |s'.procs| == |s.procs|
      && (Acquiring(s.procs[p].pc) && !Acquiring(s'.procs[p].pc) ==> s'.procs[p].pc == Inside && HoldingSleep(s', p))
      && (HoldingSleep(s, p) && !HoldingSleep(s', p) ==> step == Advance(p) && s.procs[p].pc == RelClear)
      && (s.procs[p].pc == Outside && s'.procs[p].pc != Outside ==> Acquiring(s'.procs[p].pc) || s'.procs[p].pc == Nap(false, NapMark))
  {
    var states, steps :| IsRun(states, steps) && states[|steps|] == s;
    RunKeepsInv(states, steps);
    assert ProcOk(s, p) && ProcOk(s, step.p);
    StepKeepsInv(s, step);
    assert ProcOk(Apply(s, step), p);
    hide Reachable, IsRun, Apply, RunOk, Inv;
    if step.p == p { OwnStep(s, step); } else { OthersStep(s, step, p); }
    if HoldingSleep(s, p) { KeepsHolding(s, step, p); }
  }

  /**
    A sleeper is woken by nothing but its own channel's wakeup or a kill: for the
    lock, the visit of a process that has just cleared it; for another channel,
    its Rouse. A kill always does.
   */
  lemma WokenBy(s: State, step: Step, p: Pid)
    requires Reachable(s) && Enabled(s, step) && p < |s.procs| && s.procs[p].run == Sleeping
    ensures
      var s' := Apply(s, step);
      && |s'.procs| == |s.procs|
      && (step == Kill(p) ==> s'.procs[p].run == Runnable)
      && (s'.procs[p].run != Sleeping && step != Kill(p) ==>
            if s.procs[p].pc.Nap? then step == Rouse(p)
            else step.Advance? && s.procs[step.p].pc == Wake(p) && s.lk == Held(step.p) && !s.locked)
  {
    var states, steps :| IsRun(states, steps) && states[|steps|] == s;
    RunKeepsInv(states, steps);
    assert ProcOk(s, p) && ProcOk(s, step.p);
    hide Reachable, IsRun, Apply, Inv, RunOk, LockOk;
    if step.p == p { WokenSelf(s, step); } else { WokenByOther(s, step, p); }
  }

  lemma WokenSelf(s: State, step: Step)
    requires Enabled(s, step) && RunOk(s.procs[step.p]) && s.procs[step.p].run == Sleeping
    ensures
      var s', p := Apply(s, step), step.p;
      && |s'.procs| == |s.procs|
      && (step == Kill(p) ==> s'.procs[p].run == Runnable)
      && (s'.procs[p].run != Sleeping && step != Kill(p) ==> s.procs[p].pc.Nap? && step == Rouse(p))
  {
  }

  lemma WokenByOther(s: State, step: Step, p: Pid)
    requires Enabled(s, step) && p < |s.procs| && p != step.p && LockOk(s, step.p) && RunOk(s.procs[p]) && s.procs[p].run == Sleeping
    ensures
      var s' := Apply(s, step);
      && |s'.procs| == |s.procs|
      && (s'.procs[p].run != Sleeping ==>
            !s.procs[p].pc.Nap? && step.Advance? && s.procs[step.p].pc == Wake(p) && s.lk == Held(step.p) && !s.locked)
  {
  }

  lemma OthersStep(s: State, step: Step, p: Pid)
    requires Enabled(s, step) && p < |s.procs| && step.p != p
    ensures |Apply(s, step).procs| == |s.procs| && Apply(s, step).procs[p].pc == s.procs[p].pc
  {
  }

  lemma OwnStep(s: State, step: Step)
    requires Enabled(s, step) && RunOk(s.procs[step.p])
    ensures
      var s', p := Apply(s, step), step.p;
      && |s'.procs| == |s.procs|
      && (Acquiring(s.procs[p].pc) ==> Acquiring(s'.procs[p].pc) || s'.procs[p].pc == Inside)
      && (s.procs[p].pc == Outside ==> s'.procs[p].pc in {Outside, AcqSpin, Nap(false, NapMark)})
  {
  }

  lemma KeepsHolding(s: State, step: Step, p: Pid)
    requires Enabled(s, step) && LockOk(s, step.p) && p < |s.procs| && HoldingSleep(s, p)
    ensures !HoldingSleep(Apply(s, step), p) ==> step == Advance(p) && s.procs[p].pc == RelClear
  {
  }

  /** While the inner spinlock is free, nobody sleeps on a free lock or is bound to. */
  lemma NoLostWakeup(s: State, p: Pid)
    requires Reachable(s) && s.lk == Nobody && !s.locked && p < |s.procs|
    ensures !BoundToSleep(s.procs[p])
  {
    var states, steps :| IsRun(states, steps) && states[|steps|] == s;
    RunKeepsInv(states, steps);
    assert WillBeWoken(s, p);
  }

  /** The spinlock holder, or a process it waits for, can always move. */
  lemma HolderCanMove(s: State) returns (step: Step)
    requires Inv(s) && s.lk.Held?
    ensures Enabled(s, step) && step.Advance?
  {
    var p := s.lk.p;
    var q := s.procs[p];
    assert ProcOk(s, p);
    step := Advance(p);
    if q.pc.Wake? && q.pc.next < |s.procs| && q.pc.next != p && s.procs[q.pc.next].lockHeld {
      assert ProcOk(s, q.pc.next);
      step := Advance(q.pc.next);
    }
  }

  /** From the first action of acquiresleep to the last of releasesleep. */
  predicate Using(pc: PC) {
    pc != Outside && (pc.Nap? ==> pc.inside)
  }

  /**
    No deadlock of its own: as long as some process is using the lock, some
    process can take its own next action or be scheduled to, without a timer
    tick, a kill or another channel's wakeup; or else the lock's holder, which is
    the process that holdingsleep names, sleeps on another channel, and that
    channel's wakeup is enabled.
   */
  lemma NoDeadlock(s: State, p: Pid) returns (step: Step)
    requires Reachable(s) && p < |s.procs| && Using(s.procs[p].pc)
    ensures Enabled(s, step)
    ensures step.Advance? || step.Schedule? || (step.Rouse? && HoldingSleep(s, step.p) && Napping(s.procs[step.p]))
  {
    var states, steps :| IsRun(states, steps) && states[|steps|] == s;
    RunKeepsInv(states, steps);
    hide IsRun, Reachable;
    if s.lk.Held? {
      step := HolderCanMove(s);
    } else {
      assert ProcOk(s, p) && WillBeWoken(s, p);
      var r := if BoundToSleep(s.procs[p]) && s.locked then s.pid - 1 else p;
      assert ProcOk(s, r);
      step := if s.procs[r].run == Runnable then Schedule(r) else if Napping(s.procs[r]) then Rouse(r) else Advance(r);
    }
  }

  lemma Extend(s: State, step: Step) returns (s': State)
    requires Reachable(s) && Enabled(s, step)
    ensures s' == Apply(s, step) && Reachable(s')
  {
    var states, steps :| IsRun(states, steps) && states[|steps|] == s;
    s' := Apply(s, step);
    assert IsRun(states + [s'], steps + [step]) && (states + [s'])[|steps + [step]|] == s';
  }

  const RESTING := Proc(Outside, Runnable, false, false)

  /** Process 0 takes the lock. */
  lemma HolderTests() returns (s: State)
    ensures Reachable(s) && s == State([Proc(AcqTest, Running, false, false), RESTING], Held(0), false, 0)
  {
    s := State([RESTING, RESTING], Nobody, false, 0);
    assert IsRun([s], []) && [s][0] == s;
    hide Reachable, IsRun;
    s := Extend(s, Schedule(0));
    s := Extend(s, Advance(0));
    assert s == State([Proc(AcqSpin, Running, false, false), RESTING], Nobody, false, 0);
    s := Extend(s, Advance(0));
  }

  lemma HolderEnters() returns (s: State)
    ensures Reachable(s) && s == State([Proc(Inside, Running, false, false), RESTING], Nobody, true, 1)
  {
    hide Reachable, IsRun;
    s := HolderTests();
    s := Extend(s, Advance(0));
    assert s == State([Proc(AcqSet, Running, false, false), RESTING], Held(0), false, 0);
    s := Extend(s, Advance(0));
    s := Extend(s, Advance(0));
  }

  /** It goes to sleep on another channel. */
  lemma HolderNaps() returns (s: State)
    ensures Reachable(s) && s == State([Proc(Nap(true, NapAsleep), Sleeping, false, false), RESTING], Nobody, true, 1)
  {
    hide Reachable, IsRun;
    s := HolderEnters();
    s := Extend(s, Doze(0));
    assert s == State([Proc(Nap(true, NapMark), Running, false, true), RESTING], Nobody, true, 1);
    s := Extend(s, Advance(0));
    s := Extend(s, Advance(0));
  }

  /** Process 1 asks for the lock and finds it taken. */
  lemma OtherWaits() returns (s: State)
    ensures Reachable(s)
    ensures s == State([Proc(Nap(true, NapAsleep), Sleeping, false, false), Proc(SleepSpin, Running, false, false)], Held(1), true, 1)
  {
    hide Reachable, IsRun;
    s := HolderNaps();
    var h := s.procs[0];
    s := Extend(s, Schedule(1));
    s := Extend(s, Advance(1));
    assert s == State([h, Proc(AcqSpin, Running, false, false)], Nobody, true, 1);
    s := Extend(s, Advance(1));
    s := Extend(s, Advance(1));
  }

  /** The holder's sleep elsewhere does block the others: here nobody can move by itself. */
  lemma HolderMayNap() returns (s: State)
    ensures Reachable(s) && |s.procs| == 2 && Using(s.procs[0].pc) && Using(s.procs[1].pc)
    ensures forall p :: 0 <= p < 2 ==> !Enabled(s, Advance(p)) && !Enabled(s, Schedule(p))
  {
    hide Reachable, IsRun;
    s := OtherWaits();
    var h := s.procs[0];
    s := Extend(s, Advance(1));
    s := Extend(s, Advance(1));
    assert s == State([h, Proc(SleepMark, Running, false, true)], Nobody, true, 1);
    s := Extend(s, Advance(1));
    s := Extend(s, Advance(1));
    assert s == State([h, Proc(Asleep, Sleeping, true, false)], Nobody, true, 1);
  }
}
