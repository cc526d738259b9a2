/**
 CPUs entering and leaving the kernel under the big kernel lock: trap entry
 (TPJOS/kern/trap.c), the spin lock (TPJOS/kern/spinlock.c), dispatch and deferred
 destroy (TPJOS/kern/env.c), halting (TPJOS/kern/sched.c) and the system calls that
 change env_status (TPJOS/kern/syscall.c).

 Any number of CPUs take steps in any order. A step is one access to shared memory
 outside the lock (`xchg`, a store to lk->cpu), or one kernel action inside it.
 */
module KernelLock {
  import opened Options
  import opened Scheduler

  /** Where a CPU is. The numbers are lines of trap.c, spinlock.c, env.c and sched.c. */
  datatype Pc =
    | Booting              // mp_main, before lock_kernel
    | User                 // running an environment
    | Idle                 // halted in sched_halt, lock released
    | Entry(user: bool)    // trap.c:310, from user mode or from the halt loop
    | Spin(again: bool, user: bool)     // spinlock.c:61; `again`: trap.c:322 will lock once more
    | Got(again: bool, user: bool)      // spinlock.c:74, lock taken, lk->cpu not yet set
    | Check                // trap.c:326
    | Dispatch             // trap.c:345
    | Finish               // trap.c:350
    | Yield                // sched_yield
    | Monitor              // sched.c:68, nothing left to run
    | Drop(next: Pc)       // spin_unlock, before lk->cpu is cleared
    | Release(next: Pc)    // spin_unlock, before the final xchg
    | Panic                // a debug check of spin_lock or spin_unlock, or an assertion, has failed

  /** One CPU; `halted` is cpu_status == CPU_HALTED. */
  datatype Cpu = Cpu(pc: Pc, cur: Option<nat>, halted: bool)

  datatype State = State(cpus: seq<Cpu>, envs: Envs, recving: set<nat>, locked: bool, owner: Option<nat>)

  /** What `trap_dispatch` may do for the current environment. */
  datatype Action =
    | Nothing                              // calls and interrupts that change no status
    | TimerOrYield                         // sched_yield
    | Exofork(env: nat)
    | SetStatus(env: nat, status: Status)
    | Destroy(env: nat)
    | IpcRecv
    | IpcSend(env: nat)

  function SetPc(s: State, c: nat, pc: Pc): State
    requires c < |s.cpus|
  {
    s.(cpus := s.cpus[c := s.cpus[c].(pc := pc)])
  }

  function SetCpu(s: State, c: nat, cpu: Cpu): State
    requires c < |s.cpus|
  {
    s.(cpus := s.cpus[c := cpu])
  }

  function SetEnv(s: State, e: nat, status: Status): State
    requires e < NENV
  {
    s.(envs := s.envs[e := status])
  }

  /** `holding`: the debug check of the lock. */
  predicate Holding(s: State, c: nat) {
    s.locked && s.owner == Some(c)
  }

  // ------------------------------------------------------------------
  // Steps outside the lock
  // ------------------------------------------------------------------

  /** An interrupt or exception in user mode, or an interrupt that ends a halt. */
  function Trap(s: State, c: nat): State
    requires c < |s.cpus| && (s.cpus[c].pc.User? || s.cpus[c].pc.Idle?)
  {
    SetPc(s, c, Entry(s.cpus[c].pc.User?))
  }

  /** trap.c:310: the xchg of cpu_status decides whether this trap ends a halt. */
  function EnterTrap(s: State, c: nat): State
    requires c < |s.cpus| && s.cpus[c].pc.Entry?
  {
    var cpu := s.cpus[c];
    var pc := if cpu.halted then Spin(cpu.pc.user, cpu.pc.user)
              else if cpu.pc.user then Spin(false, true)
              else Dispatch;
    SetCpu(s, c, Cpu(pc, cpu.cur, false))
  }

  /** One turn of the loop of `spin_lock`, with its check that the lock is not held already. */
  function TryLock(s: State, c: nat): State
    requires c < |s.cpus| && (s.cpus[c].pc.Spin? || s.cpus[c].pc.Booting?)
  {
    var pc := if s.cpus[c].pc.Booting? then Spin(false, false) else s.cpus[c].pc;
    if Holding(s, c) then SetPc(s, c, Panic)
    else if s.locked then SetPc(s, c, pc)
    else SetPc(s, c, Got(pc.again, pc.user)).(locked := true)
  }

  /** spinlock.c:76: record the holder, then go on with the trap. */
  function NoteOwner(s: State, c: nat): State
    requires c < |s.cpus| && s.cpus[c].pc.Got?
  {
    var pc := s.cpus[c].pc;
    SetPc(s, c, if pc.again then Spin(false, pc.user) else if pc.user then Check else Dispatch).(owner := Some(c))
  }

  /** spinlock.c:86-107: check the holder and clear it. */
  function ClearOwner(s: State, c: nat): State
    requires c < |s.cpus| && s.cpus[c].pc.Drop?
  {
    if Holding(s, c) then SetPc(s, c, Release(s.cpus[c].pc.next)).(owner := None) else SetPc(s, c, Panic)
  }

  /** spinlock.c:115. */
  function Unlock(s: State, c: nat): State
    requires c < |s.cpus| && s.cpus[c].pc.Release?
  {
    SetPc(s, c, s.cpus[c].pc.next).(locked := false)
  }

  // ------------------------------------------------------------------
  // Steps inside the lock
  // ------------------------------------------------------------------

  predicate CurOk(s: State, c: nat) {
    c < |s.cpus| && (s.cpus[c].cur.Some? ==> s.cpus[c].cur.value < NENV)
  }

  /** trap.c:324-331: a zombie is freed, anything else is served. */
  function CheckZombie(s: State, c: nat): State
    requires CurOk(s, c)
  {
    var cur := s.cpus[c].cur;
    if cur.None? then SetPc(s, c, Panic)
    else if s.envs[cur.value] == Dying then SetEnv(SetCpu(s, c, s.cpus[c].(pc := Yield, cur := None)), cur.value, Free)
    else SetPc(s, c, Dispatch)
  }

  /** env_destroy (env.c:480-496). */
  function EnvDestroy(s: State, c: nat, e: nat): State
    requires CurOk(s, c) && e < NENV
  {
    if s.envs[e] == Running && s.cpus[c].cur != Some(e) then SetEnv(SetPc(s, c, Finish), e, Dying)
    else if s.cpus[c].cur == Some(e) then SetEnv(SetCpu(s, c, s.cpus[c].(pc := Yield, cur := None)), e, Free)
    else SetEnv(SetPc(s, c, Finish), e, Free)
  }

  predicate CanAct(s: State, c: nat, a: Action) {
    && CurOk(s, c) && s.cpus[c].pc.Dispatch?
    && (!a.Nothing? && !a.TimerOrYield? ==> s.cpus[c].cur.Some?)
    && match a
       case Exofork(e) => e < NENV && s.envs[e] == Free
       case SetStatus(e, status) => e < NENV && s.envs[e] != Free && (status == Runnable || status == NotRunnable)
       case Destroy(e) => e < NENV && s.envs[e] != Free
       case IpcSend(e) => e < NENV && s.envs[e] != Free && e in s.recving
       case _ => true
  }

  function Act(s: State, c: nat, a: Action): State
    requires CanAct(s, c, a)
  {
    match a
    case Nothing => SetPc(s, c, Finish)
    case TimerOrYield => SetPc(s, c, Yield)
    case Exofork(e) => SetEnv(SetPc(s, c, Finish), e, NotRunnable).(recving := s.recving - {e})
    case SetStatus(e, status) => SetEnv(SetPc(s, c, Finish), e, status)
    case Destroy(e) => EnvDestroy(s, c, e)
    case IpcRecv =>
      var e := s.cpus[c].cur.value;
      SetEnv(SetPc(s, c, Yield), e, NotRunnable).(recving := s.recving + {e})
    case IpcSend(e) => SetEnv(SetPc(s, c, Finish), e, Runnable).(recving := s.recving - {e})
  }

  /** env_run (env.c:551-560), up to the unlock. */
  function EnvRun(s: State, c: nat, e: nat): State
    requires CurOk(s, c) && e < NENV
  {
    var cur := s.cpus[c].cur;
    var back := if cur.Some? && s.envs[cur.value] == Running then SetEnv(s, cur.value, Runnable) else s;
    SetEnv(SetCpu(back, c, s.cpus[c].(pc := Drop(User), cur := Some(e))), e, Running)
  }

  /** trap.c:350-353. */
  function FinishTrap(s: State, c: nat): State
    requires CurOk(s, c)
  {
    var cur := s.cpus[c].cur;
    if cur.Some? && s.envs[cur.value] == Running then EnvRun(s, c, cur.value) else SetPc(s, c, Yield)
  }

  ghost predicate CanPick(s: State, c: nat, pick: Option<nat>) {
    && CurOk(s, c) && s.cpus[c].pc.Yield?
    && if pick.Some? then IsFirstRunnable(s.envs, Start(s.cpus[c].cur), pick.value) else Runnable !in s.envs
  }

  /** sched_yield and sched_halt (sched.c:37-82), given what the search found. */
  function SchedYield(s: State, c: nat, pick: Option<nat>): State
    requires CurOk(s, c) && (pick.Some? ==> pick.value < NENV)
  {
    var cur := s.cpus[c].cur;
    if pick.Some? then EnvRun(s, c, pick.value)
    else if cur.Some? && s.envs[cur.value] == Running then EnvRun(s, c, cur.value)
    else if Running !in s.envs && Dying !in s.envs then SetPc(s, c, Monitor)
    else SetCpu(s, c, Cpu(Drop(Idle), None, true))
  }

  // ------------------------------------------------------------------
  // Events
  // ------------------------------------------------------------------

  datatype Event =
    | TrapEvent | EnterEvent | LockEvent | OwnerEvent | ClearEvent | UnlockEvent
    | CheckEvent | ActEvent(action: Action) | FinishEvent | YieldEvent(pick: Option<nat>)

  ghost predicate Enabled(s: State, c: nat, ev: Event) {
    && c < |s.cpus| && CurOk(s, c)
    && var pc := s.cpus[c].pc;
       match ev
       case TrapEvent => pc.User? || pc.Idle?
       case EnterEvent => pc.Entry?
       case LockEvent => pc.Spin? || pc.Booting?
       case OwnerEvent => pc.Got?
       case ClearEvent => pc.Drop?
       case UnlockEvent => pc.Release?
       case CheckEvent => pc.Check?
       case ActEvent(a) => CanAct(s, c, a)
       case FinishEvent => pc.Finish?
       case YieldEvent(pick) => CanPick(s, c, pick)
  }

  ghost function Next(s: State, c: nat, ev: Event): State
    requires Enabled(s, c, ev)
  {
    match ev
    case TrapEvent => Trap(s, c)
    case EnterEvent => EnterTrap(s, c)
    case LockEvent => TryLock(s, c)
    case OwnerEvent => NoteOwner(s, c)
    case ClearEvent => ClearOwner(s, c)
    case UnlockEvent => Unlock(s, c)
    case CheckEvent => CheckZombie(s, c)
    case ActEvent(a) => Act(s, c, a)
    case FinishEvent => FinishTrap(s, c)
    case YieldEvent(pick) => SchedYield(s, c, pick)
  }

  // ------------------------------------------------------------------
  // The invariant
  // ------------------------------------------------------------------

  /** Program points between taking the lock and giving it back. */
  predicate InKernel(pc: Pc) {
    pc.Got? || pc.Check? || pc.Dispatch? || pc.Finish? || pc.Yield? || pc.Monitor? || pc.Drop? || pc.Release?
  }

  /** Program points at which lk->cpu names the holder. */
  predicate Owns(pc: Pc) {
    InKernel(pc) && !pc.Got? && !pc.Release?
  }

  /** The CPU has an environment whose user code runs or is about to go on. */
  predicate HasUser(pc: Pc) {
    match pc
    case User => true
    case Entry(user) => user
    case Spin(_, user) => user
    case Got(_, user) => user
    case Check => true
    case Drop(next) => next == User
    case Release(next) => next == User
    case _ => false
  }

  predicate KernelPoint(pc: Pc) {
    pc.Dispatch? || pc.Finish? || pc.Yield? || pc.Monitor?
  }

  /** cpu_status is CPU_HALTED from sched_halt to the trap that ends the halt. */
  predicate HaltFlag(pc: Pc) {
    pc == Idle || pc == Entry(false) || pc == Drop(Idle) || pc == Release(Idle)
  }

  predicate PcOk(pc: Pc) {
    match pc
    case Spin(again, _) => !again
    case Got(again, _) => !again
    case Drop(next) => next == User || next == Idle
    case Release(next) => next == User || next == Idle
    case Panic => false
    case _ => true
  }

  /** What is true of one CPU by itself. */
  predicate CpuOk(envs: Envs, cpu: Cpu) {
    && PcOk(cpu.pc)
    && cpu.halted == HaltFlag(cpu.pc)
    && (cpu.cur.Some? ==> cpu.cur.value < NENV)
    && (HasUser(cpu.pc) ==> cpu.cur.Some? && (envs[cpu.cur.value] == Running || envs[cpu.cur.value] == Dying))
    && (!HasUser(cpu.pc) && !KernelPoint(cpu.pc) ==> cpu.cur.None?)
    && (cpu.cur.Some? && KernelPoint(cpu.pc) ==>
          var status := envs[cpu.cur.value];
          if cpu.pc.Dispatch? then status == Running else status != Dying && status != Free)
  }

  ghost predicate LockOk(s: State) {
    && (forall c, d :: 0 <= c < |s.cpus| && 0 <= d < |s.cpus| && InKernel(s.cpus[c].pc) && InKernel(s.cpus[d].pc) ==> c == d)
    && (s.locked <==> exists c :: 0 <= c < |s.cpus| && InKernel(s.cpus[c].pc))
    && (forall c :: 0 <= c < |s.cpus| ==> (s.owner == Some(c) <==> Owns(s.cpus[c].pc)))
    && (s.owner.Some? ==> s.owner.value < |s.cpus|)
  }

  ghost predicate CurrentOk(s: State) {
    && (forall c, d :: 0 <= c < |s.cpus| && 0 <= d < |s.cpus| && s.cpus[c].cur.Some? && s.cpus[c].cur == s.cpus[d].cur ==> c == d)
    && (forall e :: 0 <= e < NENV && (s.envs[e] == Running || s.envs[e] == Dying) ==> IsCurrent(s, e))
    && (forall e :: 0 <= e < NENV && e in s.recving && s.envs[e] != Free ==> s.envs[e] == NotRunnable)
  }

  ghost predicate IsCurrent(s: State, e: nat) {
    exists c :: 0 <= c < |s.cpus| && s.cpus[c].cur == Some(e)
  }

  ghost predicate Inv(s: State) {
    && (forall c :: 0 <= c < |s.cpus| ==> CpuOk(s.envs, s.cpus[c]))
    && LockOk(s)
    && CurrentOk(s)
  }

  // ------------------------------------------------------------------
  // Uses of the two calls that break it
  // ------------------------------------------------------------------

  /** sys_env_set_status of an environment that another CPU runs, or that waits for a message;
      env_destroy of one that is dying already. All can be seen before the call. */
  predicate Misuse(s: State, c: nat, ev: Event)
    requires c < |s.cpus|
  {
    match ev
    case ActEvent(SetStatus(e, status)) =>
      e < NENV && s.cpus[c].cur != Some(e) &&
      (s.envs[e] == Running || s.envs[e] == Dying || (e in s.recving && status == Runnable))
    case ActEvent(Destroy(e)) => e < NENV && s.envs[e] == Dying
    case _ => false
  }

  // ------------------------------------------------------------------
  // Every step that is not such a use keeps the invariant
  // ------------------------------------------------------------------

  /** CPU `c` alone has moved. */
  ghost predicate OneMoved(s: State, s': State, c: nat) {
    && c < |s.cpus| && |s'.cpus| == |s.cpus|
    && forall d :: 0 <= d < |s.cpus| && d != c ==> s'.cpus[d] == s.cpus[d]
  }

  /** The lock follows the CPU that moves. */
  lemma LockFollows(s: State, s': State, c: nat)
    requires LockOk(s) && OneMoved(s, s', c)
    requires var pc, pc' := s.cpus[c].pc, s'.cpus[c].pc;
      && (InKernel(pc') ==> InKernel(pc) || !s.locked)
      && s'.locked == (if InKernel(pc) || InKernel(pc') then InKernel(pc') else s.locked)
      && s'.owner == (if Owns(pc') then Some(c) else if Owns(pc) then None else s.owner)
    ensures LockOk(s')
  {
    if s'.locked {
      if InKernel(s'.cpus[c].pc) {
        assert 0 <= c < |s'.cpus| && InKernel(s'.cpus[c].pc);
      } else {
        var d :| 0 <= d < |s.cpus| && InKernel(s.cpus[d].pc);
        assert InKernel(s'.cpus[d].pc);
      }
    } else if InKernel(s.cpus[c].pc) {
    } else {
      assert forall d :: 0 <= d < |s'.cpus| ==> !InKernel(s'.cpus[d].pc);
    }
  }

  predicate Live(status: Status) {
    status == Running || status == Dying
  }

  /** So do the environments: those that run or die elsewhere still do, and `c` takes nobody's. */
  lemma CurrentFollows(s: State, s': State, c: nat)
    requires CurrentOk(s) && OneMoved(s, s', c)
    requires s'.cpus[c].cur.Some? && s'.cpus[c].cur != s.cpus[c].cur ==> !IsCurrent(s, s'.cpus[c].cur.value)
    requires forall e :: 0 <= e < NENV && Live(s'.envs[e]) ==>
      s'.cpus[c].cur == Some(e) || (Live(s.envs[e]) && s.cpus[c].cur != Some(e))
    requires forall e :: 0 <= e < NENV && e in s'.recving && s'.envs[e] != Free ==> s'.envs[e] == NotRunnable
    ensures CurrentOk(s')
  {
    forall e | 0 <= e < NENV && Live(s'.envs[e])
      ensures IsCurrent(s', e)
    {
      if s'.cpus[c].cur != Some(e) {
        assert IsCurrent(s, e);
        var d :| 0 <= d < |s.cpus| && s.cpus[d].cur == Some(e);
        assert s'.cpus[d].cur == Some(e);
      }
    }
  }

  lemma CurrentSame(s: State, s': State, c: nat)
    requires CurrentOk(s) && OneMoved(s, s', c) && s'.cpus[c].cur == s.cpus[c].cur && s'.envs == s.envs && s'.recving == s.recving
    ensures CurrentOk(s')
  {
    CurrentFollows(s, s', c);
  }

  /** And the other CPUs are in order when nothing of theirs has changed but RUNNING into DYING. */
  lemma CpusFollow(s: State, s': State, c: nat)
    requires Inv(s) && OneMoved(s, s', c) && InKernel(s.cpus[c].pc)
    requires CpuOk(s'.envs, s'.cpus[c])
    requires forall e :: 0 <= e < NENV && s'.envs[e] != s.envs[e] ==>
      s.cpus[c].cur == Some(e) || !IsCurrent(s, e) || (Live(s.envs[e]) && Live(s'.envs[e]))
    ensures forall d :: 0 <= d < |s'.cpus| ==> CpuOk(s'.envs, s'.cpus[d])
  {
    forall d | 0 <= d < |s'.cpus|
      ensures CpuOk(s'.envs, s'.cpus[d])
    {
      if d != c {
        assert CpuOk(s.envs, s.cpus[d]) && !InKernel(s.cpus[d].pc);
        assert s.cpus[d].cur.Some? ==> IsCurrent(s, s.cpus[d].cur.value) && s.cpus[d].cur != s.cpus[c].cur;
      }
    }
  }

  /** An environment that is not live is current on no CPU outside the kernel. */
  lemma NotCurrent(s: State, c: nat, e: nat)
    requires Inv(s) && c < |s.cpus| && InKernel(s.cpus[c].pc) && e < NENV && !Live(s.envs[e]) && s.cpus[c].cur != Some(e)
    ensures !IsCurrent(s, e)
  {
    forall d | 0 <= d < |s.cpus|
      ensures s.cpus[d].cur != Some(e)
    {
      assert d != c ==> CpuOk(s.envs, s.cpus[d]) && !InKernel(s.cpus[d].pc);
    }
  }

  lemma TrapKeeps(s: State, c: nat)
    requires Inv(s) && c < |s.cpus| && (s.cpus[c].pc.User? || s.cpus[c].pc.Idle?)
    ensures Inv(Trap(s, c))
  {
    hide CurrentOk;
    LockFollows(s, Trap(s, c), c);
    CurrentSame(s, Trap(s, c), c);
  }

  lemma EnterKeeps(s: State, c: nat)
    requires Inv(s) && c < |s.cpus| && s.cpus[c].pc.Entry?
    ensures Inv(EnterTrap(s, c))
  {
    hide CurrentOk;
    LockFollows(s, EnterTrap(s, c), c);
    CurrentSame(s, EnterTrap(s, c), c);
  }

  lemma TryLockKeeps(s: State, c: nat)
    requires Inv(s) && c < |s.cpus| && (s.cpus[c].pc.Spin? || s.cpus[c].pc.Booting?)
    ensures Inv(TryLock(s, c))
  {
    hide CurrentOk;
    var s' := TryLock(s, c);
    assert CpuOk(s.envs, s.cpus[c]) && !InKernel(s.cpus[c].pc);
    assert !Holding(s, c) by {
      assert s.owner == Some(c) <==> Owns(s.cpus[c].pc);
    }
    LockFollows(s, s', c);
    CurrentSame(s, s', c);
  }

  lemma OwnerKeeps(s: State, c: nat)
    requires Inv(s) && c < |s.cpus| && s.cpus[c].pc.Got?
    ensures Inv(NoteOwner(s, c))
  {
    hide CurrentOk;
    LockFollows(s, NoteOwner(s, c), c);
    CurrentSame(s, NoteOwner(s, c), c);
  }

  lemma ClearKeeps(s: State, c: nat)
    requires Inv(s) && c < |s.cpus| && s.cpus[c].pc.Drop?
    ensures Inv(ClearOwner(s, c))
  {
    hide CurrentOk;
    assert InKernel(s.cpus[c].pc);
    LockFollows(s, ClearOwner(s, c), c);
    CurrentSame(s, ClearOwner(s, c), c);
  }

  lemma UnlockKeeps(s: State, c: nat)
    requires Inv(s) && c < |s.cpus| && s.cpus[c].pc.Release?
    ensures Inv(Unlock(s, c))
  {
    hide CurrentOk;
    assert InKernel(s.cpus[c].pc);
    LockFollows(s, Unlock(s, c), c);
    CurrentSame(s, Unlock(s, c), c);
  }

  lemma CheckKeeps(s: State, c: nat)
    requires Inv(s) && CurOk(s, c) && s.cpus[c].pc.Check?
    ensures Inv(CheckZombie(s, c))
  {
    var s' := CheckZombie(s, c);
    assert CpuOk(s.envs, s.cpus[c]) && InKernel(s.cpus[c].pc);
    CpusFollow(s, s', c);
    LockFollows(s, s', c);
    CheckCurrent(s, c);
  }

  lemma CheckCurrent(s: State, c: nat)
    requires CurrentOk(s) && CurOk(s, c) && s.cpus[c].pc.Check? && CpuOk(s.envs, s.cpus[c])
    ensures CurrentOk(CheckZombie(s, c))
  {
    CurrentFollows(s, CheckZombie(s, c), c);
  }

  lemma EnvRunKeeps(s: State, c: nat, e: nat)
    requires Inv(s) && CurOk(s, c) && (s.cpus[c].pc.Yield? || s.cpus[c].pc.Finish?) && e < NENV
    requires s.envs[e] == Runnable || (s.cpus[c].cur == Some(e) && s.envs[e] == Running)
    ensures Inv(EnvRun(s, c, e))
  {
    var s' := EnvRun(s, c, e);
    if s.cpus[c].cur != Some(e) {
      NotCurrent(s, c, e);
    }
    assert CpuOk(s.envs, s.cpus[c]);
    CpusFollow(s, s', c);
    LockFollows(s, s', c);
    CurrentFollows(s, s', c);
  }

  lemma YieldKeeps(s: State, c: nat, pick: Option<nat>)
    requires Inv(s) && CanPick(s, c, pick)
    ensures Inv(SchedYield(s, c, pick))
  {
    var cur := s.cpus[c].cur;
    if pick.Some? {
      EnvRunKeeps(s, c, pick.value);
    } else if cur.Some? && s.envs[cur.value] == Running {
      EnvRunKeeps(s, c, cur.value);
    } else {
      HaltKeeps(s, c);
    }
  }

  predicate Waiting(status: Status) {
    status == Runnable || status == Running
  }

  /** A CPU stops only when nothing is runnable and nothing of its own is running, and scheduling takes no
      environment out of the ones that run or wait for a CPU, nor adds any. */
  lemma YieldLosesNobody(s: State, c: nat, pick: Option<nat>)
    requires Inv(s) && CanPick(s, c, pick)
    ensures var s', cur := SchedYield(s, c, pick), s.cpus[c].cur;
      && (s'.cpus[c].halted || s'.cpus[c].pc.Monitor? ==>
            (forall e :: 0 <= e < NENV ==> s.envs[e] != Runnable) && (cur.Some? ==> s.envs[cur.value] != Running))
      && (!s'.cpus[c].halted && !s'.cpus[c].pc.Monitor? ==>
            s'.cpus[c].cur.Some? && s'.cpus[c].cur.value < NENV && s'.envs[s'.cpus[c].cur.value] == Running && Waiting(s.envs[s'.cpus[c].cur.value]))
      && (s'.cpus[c].pc.Monitor? <==> forall e :: 0 <= e < NENV ==> !Waiting(s.envs[e]) && s.envs[e] != Dying)
      && forall e :: 0 <= e < NENV ==> if Waiting(s.envs[e]) then Waiting(s'.envs[e]) else s'.envs[e] == s.envs[e]
  {
    assert CpuOk(s.envs, s.cpus[c]);
  }

  /** Nothing runnable: the CPU halts, or the last one falls into the monitor. */
  lemma HaltKeeps(s: State, c: nat)
    requires Inv(s) && CurOk(s, c) && s.cpus[c].pc.Yield? && Runnable !in s.envs
    requires s.cpus[c].cur.Some? ==> s.envs[s.cpus[c].cur.value] != Running
    ensures Inv(SchedYield(s, c, None))
  {
    var s' := SchedYield(s, c, None);
    assert CpuOk(s.envs, s.cpus[c]) && InKernel(s.cpus[c].pc);
    CpusFollow(s, s', c);
    LockFollows(s, s', c);
    HaltCurrent(s, c);
  }

  lemma HaltCurrent(s: State, c: nat)
    requires CurrentOk(s) && CurOk(s, c) && s.cpus[c].pc.Yield? && CpuOk(s.envs, s.cpus[c])
    requires s.cpus[c].cur.Some? ==> s.envs[s.cpus[c].cur.value] != Running
    ensures CurrentOk(SchedYield(s, c, None))
  {
    CurrentFollows(s, SchedYield(s, c, None), c);
  }

  lemma FinishKeeps(s: State, c: nat)
    requires Inv(s) && CurOk(s, c) && s.cpus[c].pc.Finish?
    ensures Inv(FinishTrap(s, c))
  {
    var cur := s.cpus[c].cur;
    if cur.Some? && s.envs[cur.value] == Running {
      EnvRunKeeps(s, c, cur.value);
    } else {
      LockFollows(s, FinishTrap(s, c), c);
      CurrentFollows(s, FinishTrap(s, c), c);
    }
  }

  lemma ActKeeps(s: State, c: nat, a: Action)
    requires Inv(s) && CanAct(s, c, a) && !Misuse(s, c, ActEvent(a))
    ensures Inv(Act(s, c, a))
  {
    var s' := Act(s, c, a);
    if a.Exofork? || a.SetStatus? || a.Destroy? || a.IpcSend? {
      if !Live(s.envs[a.env]) && s.cpus[c].cur != Some(a.env) {
        NotCurrent(s, c, a.env);
      }
    }
    ActCpu(s, c, a);
    CpusFollow(s, s', c);
    LockFollows(s, s', c);
    ActCurrent(s, c, a);
  }

  lemma ActCurrent(s: State, c: nat, a: Action)
    requires Inv(s) && CanAct(s, c, a) && !Misuse(s, c, ActEvent(a))
    ensures CurrentOk(Act(s, c, a))
  {
    var s' := Act(s, c, a);
    assert CpuOk(s.envs, s.cpus[c]);
    ActCpu(s, c, a);
    CurrentFollows(s, s', c);
  }

  /** What the action does to the CPU that takes it, and to whose status. */
  lemma ActCpu(s: State, c: nat, a: Action)
    requires Inv(s) && CanAct(s, c, a) && !Misuse(s, c, ActEvent(a))
    ensures var s' := Act(s, c, a);
      && OneMoved(s, s', c) && CpuOk(s'.envs, s'.cpus[c])
      && s'.locked == s.locked && s'.owner == s.owner && KernelPoint(s'.cpus[c].pc)
      && (s'.cpus[c].cur == s.cpus[c].cur || s'.cpus[c].cur.None?)
      && forall e :: 0 <= e < NENV && s'.envs[e] != s.envs[e] ==>
           if a.IpcRecv? then s.cpus[c].cur == Some(e)
           else (a.Exofork? || a.SetStatus? || a.Destroy? || a.IpcSend?) && e == a.env
  {
    assert CpuOk(s.envs, s.cpus[c]);
  }

  /** One step keeps the invariant exactly when it is not a misuse of the two calls. */
  lemma StepKeepsIff(s: State, c: nat, ev: Event)
    requires Inv(s) && Enabled(s, c, ev)
    ensures Inv(Next(s, c, ev)) <==> !Misuse(s, c, ev)
  {
    if Misuse(s, c, ev) {
      MisuseBreaks(s, c, ev.action);
    } else {
      match ev
      case TrapEvent => TrapKeeps(s, c);
      case EnterEvent => EnterKeeps(s, c);
      case LockEvent => TryLockKeeps(s, c);
      case OwnerEvent => OwnerKeeps(s, c);
      case ClearEvent => ClearKeeps(s, c);
      case UnlockEvent => UnlockKeeps(s, c);
      case CheckEvent => CheckKeeps(s, c);
      case ActEvent(a) => ActKeeps(s, c, a);
      case FinishEvent => FinishKeeps(s, c);
      case YieldEvent(pick) => YieldKeeps(s, c, pick);
    }
  }

  lemma MisuseBreaks(s: State, c: nat, a: Action)
    requires Inv(s) && CanAct(s, c, a) && Misuse(s, c, ActEvent(a))
    ensures !Inv(Act(s, c, a))
  {
    var s' := Act(s, c, a);
    if Live(s.envs[a.env]) {
      // The CPU that runs the environment is left with one that is neither running nor dying.
      assert IsCurrent(s, a.env);
      var d :| 0 <= d < |s.cpus| && s.cpus[d].cur == Some(a.env);
      assert CpuOk(s.envs, s.cpus[c]) && CpuOk(s.envs, s.cpus[d]);
      assert !CpuOk(s'.envs, s'.cpus[d]);
    } else {
      assert a.env in s'.recving && s'.envs[a.env] == Runnable;
    }
  }

  // ------------------------------------------------------------------
  // What becomes of the environments
  // ------------------------------------------------------------------

  /** Another CPU has the environment. */
  ghost predicate Elsewhere(s: State, c: nat, e: nat) {
    exists d :: 0 <= d < |s.cpus| && d != c && s.cpus[d].cur == Some(e)
  }

  /** The status of every environment after a step. */
  lemma StatusAfter(s: State, c: nat, ev: Event, e: nat)
    requires Inv(s) && Enabled(s, c, ev) && !Misuse(s, c, ev) && e < NENV
    ensures var was, now, mine := s.envs[e], Next(s, c, ev).envs[e], s.cpus[c].cur == Some(e);
      match ev
      case ActEvent(Destroy(x)) => if e != x then now == was else was != Free && now == if Elsewhere(s, c, e) then Dying else Free
      case ActEvent(SetStatus(x, status)) => if e != x then now == was else was != Free && now == status
      case ActEvent(Exofork(x)) => if e != x then now == was else was == Free && now == NotRunnable
      case ActEvent(IpcSend(x)) => if e != x then now == was else was == NotRunnable && e in s.recving && now == Runnable
      case ActEvent(IpcRecv) => now == if mine then NotRunnable else was
      case CheckEvent => now == if mine && was == Dying then Free else was
      case YieldEvent(Some(x)) => now == if e == x then Running else if mine && was == Running then Runnable else was
      case _ => now == was
  {
    assert CpuOk(s.envs, s.cpus[c]);
    match ev
    case ActEvent(Destroy(x)) =>
      if e == x {
        HeldElsewhere(s, c, e);
      }
    case _ =>
  }

  lemma HeldElsewhere(s: State, c: nat, e: nat)
    requires Inv(s) && c < |s.cpus| && InKernel(s.cpus[c].pc) && e < NENV && s.envs[e] != Dying
    ensures Elsewhere(s, c, e) <==> s.envs[e] == Running && s.cpus[c].cur != Some(e)
  {
    if d :| 0 <= d < |s.cpus| && d != c && s.cpus[d].cur == Some(e) {
      assert CpuOk(s.envs, s.cpus[d]) && !InKernel(s.cpus[d].pc);
    } else if s.envs[e] == Running {
      assert IsCurrent(s, e);
    }
  }

  /** The calls that an environment can make: it may take any free slot, set to runnable or not, or destroy,
      any environment, and send to any that waits. */
  lemma CallsServed(s: State, c: nat, e: nat)
    requires Inv(s) && c < |s.cpus| && s.cpus[c].pc.Dispatch? && s.cpus[c].cur.Some? && e < NENV
    ensures CanAct(s, c, Nothing) && CanAct(s, c, TimerOrYield) && CanAct(s, c, IpcRecv)
    ensures CanAct(s, c, Exofork(e)) <==> s.envs[e] == Free
    ensures s.envs[e] != Free ==>
      CanAct(s, c, Destroy(e)) && CanAct(s, c, SetStatus(e, Runnable)) && CanAct(s, c, SetStatus(e, NotRunnable))
    ensures s.envs[e] != Free && e in s.recving ==> CanAct(s, c, IpcSend(e))
    ensures forall status :: CanAct(s, c, SetStatus(e, status)) ==> status == Runnable || status == NotRunnable
  {
    assert CpuOk(s.envs, s.cpus[c]);
  }

  /** Who waits for a message after a step. */
  lemma ReceiversAfter(s: State, c: nat, ev: Event, e: nat)
    requires Inv(s) && Enabled(s, c, ev)
    ensures var now := e in Next(s, c, ev).recving;
      match ev
      case ActEvent(IpcRecv) => now <==> e in s.recving || s.cpus[c].cur == Some(e)
      case ActEvent(IpcSend(x)) => now <==> e in s.recving && e != x
      case ActEvent(Exofork(x)) => now <==> e in s.recving && e != x
      case _ => now <==> e in s.recving
  {
  }

  /** What each CPU has after a step: nothing changes but on the CPU that moves, and there only by a
      dispatch, by the end of its environment, or by halting. */
  lemma CurrentAfter(s: State, c: nat, ev: Event, d: nat)
    requires Inv(s) && Enabled(s, c, ev) && !Misuse(s, c, ev) && d < |s.cpus|
    ensures |Next(s, c, ev).cpus| == |s.cpus|
    ensures var was, now := s.cpus[d].cur, Next(s, c, ev).cpus[d].cur;
      if d != c then Next(s, c, ev).cpus[d] == s.cpus[d]
      else match ev
           case YieldEvent(Some(x)) => now == Some(x)
           case ActEvent(Destroy(x)) => now == if was == Some(x) then None else was
           case CheckEvent => now == if was.Some? && s.envs[was.value] == Dying then None else was
           case _ => now == if Next(s, c, ev).cpus[c].halted then None else was
  {
    assert CpuOk(s.envs, s.cpus[c]);
  }

  /** A call after which its caller is still running goes back to the caller. */
  lemma BackToCaller(s: State, c: nat, a: Action, e: nat)
    requires Inv(s) && CanAct(s, c, a) && !Misuse(s, c, ActEvent(a)) && !a.TimerOrYield?
    requires s.cpus[c].cur == Some(e) && Act(s, c, a).envs[e] == Running
    ensures Enabled(Act(s, c, a), c, FinishEvent)
    ensures var t := Next(Act(s, c, a), c, FinishEvent); t.cpus[c].pc == Drop(User) && t.cpus[c].cur == Some(e)
  {
    assert CpuOk(s.envs, s.cpus[c]);
  }

  /** Any other goes on to the scheduler, and so does a trap that finds nothing to go back to. */
  lemma OnToScheduler(s: State, c: nat, a: Action)
    requires Inv(s) && CanAct(s, c, a) && !Misuse(s, c, ActEvent(a))
    requires var cur := Act(s, c, a).cpus[c].cur; a.TimerOrYield? || cur.None? || Act(s, c, a).envs[cur.value] != Running
    ensures var t := Act(s, c, a); t.cpus[c].pc.Yield? || (t.cpus[c].pc.Finish? && FinishTrap(t, c).cpus[c].pc.Yield?)
  {
    assert CpuOk(s.envs, s.cpus[c]);
  }

  /** No CPU is ever stuck: it has a step to take unless it has fallen into the monitor. */
  lemma NeverStuck(s: State, c: nat)
    requires Inv(s) && c < |s.cpus| && !s.cpus[c].pc.Monitor?
    ensures exists ev :: Enabled(s, c, ev)
  {
    assert CpuOk(s.envs, s.cpus[c]);
    var ev := match s.cpus[c].pc
      case Booting => LockEvent
      case User => TrapEvent
      case Idle => TrapEvent
      case Entry(_) => EnterEvent
      case Spin(_, _) => LockEvent
      case Got(_, _) => OwnerEvent
      case Check => CheckEvent
      case Dispatch => ActEvent(TimerOrYield)
      case Finish => FinishEvent
      case Drop(_) => ClearEvent
      case _ => UnlockEvent;
    if s.cpus[c].pc.Yield? {
      var pick := AlwaysAPick(s.envs, Start(s.cpus[c].cur));
      assert Enabled(s, c, YieldEvent(pick));
    } else {
      assert Enabled(s, c, ev);
    }
  }

  ghost predicate CanTake(s: State, c: nat, evs: seq<Event>)
    decreases |evs|
  {
    evs == [] || (Enabled(s, c, evs[0]) && CanTake(Next(s, c, evs[0]), c, evs[1..]))
  }

  /** CPU `c` takes these steps one after the other. */
  ghost function Takes(s: State, c: nat, evs: seq<Event>): State
    requires CanTake(s, c, evs)
    decreases |evs|
  {
    if evs == [] then s else Takes(Next(s, c, evs[0]), c, evs[1..])
  }

  /** With the lock free, a CPU comes into the kernel with the lock: from user mode with its environment, to
      serve it if it lives and to free it if it is dying, and from a halt to dispatch the interrupt. */
  lemma ComesIn(s: State, c: nat)
    requires Inv(s) && c < |s.cpus| && !s.locked && (s.cpus[c].pc.User? || s.cpus[c].pc.Idle?)
    ensures var evs := [TrapEvent, EnterEvent, LockEvent, OwnerEvent] + if s.cpus[c].pc.User? then [CheckEvent] else [];
      CanTake(s, c, evs) &&
      var t := Takes(s, c, evs);
      && |t.cpus| == |s.cpus| && t.locked && t.owner == Some(c) && !t.cpus[c].halted && t.recving == s.recving
      && var cpu, cur := t.cpus[c], s.cpus[c].cur;
         if cur.Some? && s.envs[cur.value] == Dying then cpu.pc.Yield? && cpu.cur.None? && t.envs == s.envs[cur.value := Free]
         else cpu.pc.Dispatch? && cpu.cur == cur && t.envs == s.envs
  {
    assert CpuOk(s.envs, s.cpus[c]);
    var s1 := Trap(s, c);
    var s2 := EnterTrap(s1, c);
    var s3 := TryLock(s2, c);
    var s4 := NoteOwner(s3, c);
    TrapKeeps(s, c);
    EnterKeeps(s1, c);
    assert s2.cpus[c].pc.Spin? && !Holding(s2, c);
    var rest := if s.cpus[c].pc.User? then [CheckEvent] else [];
    if s.cpus[c].pc.User? {
      OneStep(s4, c, CheckEvent);
    }
    InSteps(s3, c, OwnerEvent, rest);
    InSteps(s2, c, LockEvent, [OwnerEvent] + rest);
    InSteps(s1, c, EnterEvent, [LockEvent] + ([OwnerEvent] + rest));
    InSteps(s, c, TrapEvent, [EnterEvent] + ([LockEvent] + ([OwnerEvent] + rest)));
    assert [TrapEvent] + ([EnterEvent] + ([LockEvent] + ([OwnerEvent] + rest))) == [TrapEvent, EnterEvent, LockEvent, OwnerEvent] + rest;
  }

  lemma OneStep(s: State, c: nat, ev: Event)
    requires Enabled(s, c, ev)
    ensures CanTake(s, c, [ev]) && Takes(s, c, [ev]) == Next(s, c, ev)
  {
    assert CanTake(Next(s, c, ev), c, []);
    InSteps(s, c, ev, []);
    assert [ev] + [] == [ev];
  }

  lemma InSteps(s: State, c: nat, ev: Event, rest: seq<Event>)
    requires Enabled(s, c, ev) && CanTake(Next(s, c, ev), c, rest)
    ensures CanTake(s, c, [ev] + rest) && Takes(s, c, [ev] + rest) == Takes(Next(s, c, ev), c, rest)
  {
    assert ([ev] + rest)[1..] == rest;
  }

  /** A CPU that leaves gives the lock back and is where it was going. */
  lemma GoesOut(s: State, c: nat)
    requires Inv(s) && c < |s.cpus| && s.cpus[c].pc.Drop?
    ensures CanTake(s, c, [ClearEvent, UnlockEvent])
    ensures var t := Takes(s, c, [ClearEvent, UnlockEvent]);
      !t.locked && t.owner.None? && t.envs == s.envs && t.cpus == s.cpus[c := s.cpus[c].(pc := s.cpus[c].pc.next)]
  {
    assert CpuOk(s.envs, s.cpus[c]);
    var s1 := ClearOwner(s, c);
    assert Holding(s, c) by { assert InKernel(s.cpus[c].pc) && Owns(s.cpus[c].pc); }
    OneStep(s1, c, UnlockEvent);
    InSteps(s, c, ClearEvent, [UnlockEvent]);
    assert [ClearEvent] + [UnlockEvent] == [ClearEvent, UnlockEvent];
  }

  /** What `Inv` rules out is noticed: taking a lock that one has, and giving back one that one has not. */
  lemma ChecksFire(s: State, c: nat)
    requires c < |s.cpus|
    ensures (s.cpus[c].pc.Spin? || s.cpus[c].pc.Booting?) && s.locked && s.owner == Some(c) ==> TryLock(s, c).cpus[c].pc.Panic?
    ensures s.cpus[c].pc.Drop? && !(s.locked && s.owner == Some(c)) ==> ClearOwner(s, c).cpus[c].pc.Panic?
  {
  }

  /** A CPU marked as halted that traps from user mode would lock twice (trap.c:310 and 322), and stop. */
  lemma LocksTwice(s: State, c: nat)
    requires c < |s.cpus| && s.cpus[c].pc == Entry(true) && s.cpus[c].halted && !s.locked && s.owner.None?
    ensures TryLock(NoteOwner(TryLock(EnterTrap(s, c), c), c), c).cpus[c].pc.Panic?
  {
  }

  /** While another CPU has the lock, it waits and changes nothing. */
  lemma Waits(s: State, c: nat)
    requires Inv(s) && c < |s.cpus| && s.cpus[c].pc.Spin? && s.locked
    ensures Enabled(s, c, LockEvent) && Next(s, c, LockEvent) == s
  {
    assert CpuOk(s.envs, s.cpus[c]);
    assert s.cpus[c := s.cpus[c].(pc := s.cpus[c].pc)] == s.cpus;
  }

  predicate Gone(status: Status) {
    status == Dying || status == Free
  }

  // ------------------------------------------------------------------
  // Runs
  // ------------------------------------------------------------------

  datatype Step = Step(cpu: nat, event: Event)

  /** Every step is possible where it is taken, and none is a misuse. */
  ghost predicate IsRun(s: State, steps: seq<Step>)
    decreases |steps|
  {
    steps == [] ||
    (var f := steps[0];
     Enabled(s, f.cpu, f.event) && !Misuse(s, f.cpu, f.event) && IsRun(Next(s, f.cpu, f.event), steps[1..]))
  }

  ghost function After(s: State, steps: seq<Step>): State
    requires IsRun(s, steps)
    decreases |steps|
  {
    if steps == [] then s else After(Next(s, steps[0].cpu, steps[0].event), steps[1..])
  }

  /** What the kernel promises in every interleaving: one CPU in the kernel at most, the lock held
      exactly then, no environment on two CPUs, every running or dying one on exactly one. */
  ghost predicate Safe(s: State) {
    && (forall c, d :: 0 <= c < |s.cpus| && 0 <= d < |s.cpus| && InKernel(s.cpus[c].pc) && InKernel(s.cpus[d].pc) ==> c == d)
    && (s.locked <==> exists c :: 0 <= c < |s.cpus| && InKernel(s.cpus[c].pc))
    && (forall c :: 0 <= c < |s.cpus| ==> !s.cpus[c].pc.Panic?)
    && (forall c, d :: 0 <= c < |s.cpus| && 0 <= d < |s.cpus| && s.cpus[c].cur.Some? && s.cpus[c].cur == s.cpus[d].cur ==> c == d)
    && (forall e :: 0 <= e < NENV && Live(s.envs[e]) ==> IsCurrent(s, e))
    && (forall c :: 0 <= c < |s.cpus| && s.cpus[c].pc.User? ==>
          s.cpus[c].cur.Some? && s.cpus[c].cur.value < NENV && Live(s.envs[s.cpus[c].cur.value]))
  }

  lemma {:induction false} RunSafe(s: State, steps: seq<Step>)
    requires Inv(s) && IsRun(s, steps)
    ensures Inv(After(s, steps)) && Safe(After(s, steps))
    decreases |steps|
  {
    if steps != [] {
      StepKeepsIff(s, steps[0].cpu, steps[0].event);
      RunSafe(Next(s, steps[0].cpu, steps[0].event), steps[1..]);
    }
  }

  /** What is destroyed stays so until its slot is given to a new environment. */
  lemma {:induction false} GoneForGood(s: State, steps: seq<Step>, e: nat)
    requires Inv(s) && IsRun(s, steps) && e < NENV && Gone(s.envs[e])
    requires forall f :: f in steps ==> f.event != ActEvent(Exofork(e))
    ensures Gone(After(s, steps).envs[e])
    decreases |steps|
  {
    hide Inv, Next, Enabled, Misuse;
    if steps != [] {
      GoneStays(s, steps[0].cpu, steps[0].event, e);
      StepKeepsIff(s, steps[0].cpu, steps[0].event);
      GoneForGood(Next(s, steps[0].cpu, steps[0].event), steps[1..], e);
    }
  }

  lemma GoneStays(s: State, c: nat, ev: Event, e: nat)
    requires Inv(s) && Enabled(s, c, ev) && !Misuse(s, c, ev) && e < NENV && Gone(s.envs[e]) && ev != ActEvent(Exofork(e))
    ensures Gone(Next(s, c, ev).envs[e])
  {
    hide LockOk;
    StatusAfter(s, c, ev, e);
    assert CpuOk(s.envs, s.cpus[c]);
  }

  /** After env_destroy, in every run of all CPUs: the environment neither runs nor waits to run, except
      that the CPU that had it may still be in its code until it traps. */
  lemma Destroyed(s: State, c: nat, e: nat, steps: seq<Step>)
    requires Inv(s) && CanAct(s, c, Destroy(e)) && !Misuse(s, c, ActEvent(Destroy(e)))
    requires IsRun(Act(s, c, Destroy(e)), steps) && forall f :: f in steps ==> f.event != ActEvent(Exofork(e))
    ensures After(Act(s, c, Destroy(e)), steps).envs[e] == Dying || After(Act(s, c, Destroy(e)), steps).envs[e] == Free
  {
    hide Inv;
    ActKeeps(s, c, Destroy(e));
    StatusAfter(s, c, ActEvent(Destroy(e)), e);
    GoneForGood(Act(s, c, Destroy(e)), steps, e);
  }

  /** How often CPU `c` goes through sched_yield. */
  function Yields(steps: seq<Step>, c: nat): nat {
    if steps == [] then 0
    else (if steps[0].cpu == c && steps[0].event.YieldEvent? then 1 else 0) + Yields(steps[1..], c)
  }

  /** How often its curenv is reset: by env_destroy, by the free of a zombie, and by sched_halt. */
  ghost function Resets(s: State, steps: seq<Step>, c: nat): nat
    requires IsRun(s, steps) && c < |s.cpus|
    decreases |steps|
  {
    if steps == [] then 0
    else
      var s' := Next(s, steps[0].cpu, steps[0].event);
      (if s.cpus[c].cur.Some? && s'.cpus[c].cur.None? then 1 else 0) + Resets(s', steps[1..], c)
  }

  ghost predicate StaysRunnable(s: State, steps: seq<Step>, j: nat)
    requires IsRun(s, steps) && j < NENV
    decreases |steps|
  {
    steps == [] || (s.envs[j] == Runnable && StaysRunnable(Next(s, steps[0].cpu, steps[0].event), steps[1..], j))
  }

  /** A choice of another environment brings `j` nearer, and only a reset takes it away again. */
  lemma OneStepNearer(s: State, f: Step, c: nat, j: nat)
    requires Enabled(s, f.cpu, f.event) && c < |s.cpus| && j < NENV && s.envs[j] == Runnable
    requires f != Step(c, YieldEvent(Some(j)))
    ensures var s' := Next(s, f.cpu, f.event);
      var near, near' := Distance(Start(s.cpus[c].cur), j), Distance(Start(s'.cpus[c].cur), j);
      && |s'.cpus| == |s.cpus|
      && if f.cpu == c && f.event.YieldEvent? then s'.cpus[c].cur.Some? && near' < near
         else near' == near || (s.cpus[c].cur.Some? && s'.cpus[c].cur.None?)
  {
    if f.cpu == c && f.event.YieldEvent? {
      assert j < |s.envs| && Runnable in s.envs;
      DistanceDrops(s.envs, Start(s.cpus[c].cur), f.event.pick.value, j);
    }
  }

  lemma {:induction false} PassedOver(s: State, steps: seq<Step>, c: nat, j: nat)
    requires IsRun(s, steps) && c < |s.cpus| && j < NENV && StaysRunnable(s, steps, j)
    requires Step(c, YieldEvent(Some(j))) !in steps
    ensures Yields(steps, c) <= Distance(Start(s.cpus[c].cur), j) + (NENV - 1) * Resets(s, steps, c)
    decreases |steps|
  {
    if steps != [] {
      OneStepNearer(s, steps[0], c, j);
      PassedOver(Next(s, steps[0].cpu, steps[0].event), steps[1..], c, j);
    }
  }

  /** In every run of all CPUs: an environment that stays runnable is dispatched by each CPU that goes
      through sched_yield often enough, NENV times if its curenv is not reset meanwhile. */
  lemma RoundRobinBound(s: State, steps: seq<Step>, c: nat, j: nat)
    requires IsRun(s, steps) && c < |s.cpus| && j < NENV && StaysRunnable(s, steps, j)
    requires Yields(steps, c) > (NENV - 1) * (1 + Resets(s, steps, c))
    ensures exists k :: 0 <= k < |steps| && steps[k] == Step(c, YieldEvent(Some(j)))
  {
    if Step(c, YieldEvent(Some(j))) !in steps {
      PassedOver(s, steps, c, j);
    }
  }

  /** The state in which boot_aps leaves the machine: the boot CPU holds the lock and is about to
      schedule the environments it has created; the others are about to take the lock. */
  lemma BootInv(s: State)
    requires |s.cpus| > 0 && s.cpus[0] == Cpu(Yield, None, false)
    requires forall c :: 1 <= c < |s.cpus| ==> s.cpus[c] == Cpu(Booting, None, false)
    requires s.locked && s.owner == Some(0) && s.recving == {}
    requires forall e :: 0 <= e < NENV ==> s.envs[e] == Free || s.envs[e] == Runnable
    ensures Inv(s)
  {
    assert InKernel(s.cpus[0].pc);
  }

  /** Two CPUs, the first in the kernel at `pc` with environment 0, the second running environment 1. */
  function TwoCpus(envs: Envs, pc: Pc): State {
    State([Cpu(pc, Some(0), false), Cpu(User, Some(1), false)], envs, {}, InKernel(pc), if Owns(pc) then Some(0) else None)
  }

  lemma Replaced(a: Cpu, b: Cpu, a': Cpu)
    ensures [a, b][0 := a'] == [a', b]
  {
  }

  /** CPU 0 leaves the kernel with environment 0 ... */
  lemma Leaves(envs: Envs)
    requires envs[0] == Running
    ensures FinishTrap(TwoCpus(envs, Finish), 0) == TwoCpus(envs, Drop(User))
    ensures Unlock(ClearOwner(TwoCpus(envs, Drop(User)), 0), 0) == TwoCpus(envs, User)
  {
    var other := Cpu(User, Some(1), false);
    assert envs[0 := Runnable][0 := Running] == envs;
    Replaced(Cpu(Finish, Some(0), false), other, Cpu(Drop(User), Some(0), false));
    Replaced(Cpu(Drop(User), Some(0), false), other, Cpu(Release(User), Some(0), false));
    Replaced(Cpu(Release(User), Some(0), false), other, Cpu(User, Some(0), false));
  }

  /** ... and comes back with the next interrupt. */
  lemma ComesBack(envs: Envs)
    requires envs[0] == Running
    ensures TryLock(EnterTrap(Trap(TwoCpus(envs, User), 0), 0), 0) == TwoCpus(envs, Got(false, true))
    ensures CheckZombie(NoteOwner(TwoCpus(envs, Got(false, true)), 0), 0) == TwoCpus(envs, Dispatch)
  {
    var other := Cpu(User, Some(1), false);
    Replaced(Cpu(User, Some(0), false), other, Cpu(Entry(true), Some(0), false));
    Replaced(Cpu(Entry(true), Some(0), false), other, Cpu(Spin(false, true), Some(0), false));
    Replaced(Cpu(Spin(false, true), Some(0), false), other, Cpu(Got(false, true), Some(0), false));
    Replaced(Cpu(Got(false, true), Some(0), false), other, Cpu(Check, Some(0), false));
    Replaced(Cpu(Check, Some(0), false), other, Cpu(Dispatch, Some(0), false));
  }

  /** A misuse with its consequence: the environment on CPU 0 makes runnable the one that CPU 1 is
      running, and at its next timer interrupt (`Leaves`, `ComesBack`) both CPUs have it. */
  lemma SetStatusRunsTwice(envs: Envs)
    requires envs[0] == envs[1] == Running && forall e :: 2 <= e < NENV ==> envs[e] == Free
    ensures var s := TwoCpus(envs, Dispatch);
      && Inv(s) && CanAct(s, 0, SetStatus(1, Runnable))
      && Act(s, 0, SetStatus(1, Runnable)) == TwoCpus(envs[1 := Runnable], Finish)
    ensures var s := TwoCpus(envs[1 := Runnable], Dispatch);
      && CanAct(s, 0, TimerOrYield) && CanPick(Act(s, 0, TimerOrYield), 0, Some(1))
      && SchedYield(Act(s, 0, TimerOrYield), 0, Some(1)).cpus[0].cur == Some(1) == s.cpus[1].cur
  {
    var s := TwoCpus(envs, Dispatch);
    assert InKernel(s.cpus[0].pc);
    assert IsCurrent(s, 0) by { assert s.cpus[0].cur == Some(0); }
    assert IsCurrent(s, 1) by { assert s.cpus[1].cur == Some(1); }
  }
}
