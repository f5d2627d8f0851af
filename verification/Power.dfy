/**
 The power protocol: `HandlePowerAction` (server/power.go) under the one-slot
 `Locker` (system/locker.go), driving `Start`, `wait`, `WaitForStop`,
 `Terminate`, `closeJob` and `Create` of the Windows process environment
 (environment/winproc/power.go, environment/winproc/environment.go).

 Any number of callers interleave with processes that fork and die, each on its
 own, and with the `wait` goroutines that reap them, in any order. Branches that
 depend on configuration, the Panel or timeouts are left open, so every one of them
 is covered. A child is born into its parent's Job Object, if the parent is in one by
 then; closing or terminating a job kills its members. `Destroy` does not occur, and
 opening the new process and assigning it to its job succeed.
 */
module Power {

  datatype Option<T> = None | Some(value: T)

  datatype Action = Start | Stop | Restart | Kill

  type JobId = nat
  type Pid = nat

  /**
   One process. `tree` is the process that `Start` spawned it under; that one, the
   root, is its own tree. `published` once `Start` has stored the root in `e.cmd`.
   */
  datatype Proc = Proc(tree: Pid, alive: bool, job: Option<JobId>, published: bool, reaped: bool)

  datatype Pc =
    | Arrived
    | Entered                                 // past the locking phase
    | StopWaiting                             // in WaitForStop's polling loop
    | PreBoot                                 // about to call Environment.Start
    | Booting                                 // in Start, before the IsRunning test
    | NotRunning                              // IsRunning was false, before closeJob
    | Detached(job: Option<JobId>)            // closeJob took e.job but has not closed the handle yet
    | Cleared                                 // closeJob returned
    | JobReady                                // Create returned
    | Spawned(pid: Pid)                       // the process exists but is in no job
    | Assigned(pid: Pid)
    | Terminating(job: Option<JobId>, timedOut: bool)   // Terminate has read e.job, before TerminateJobObject
    | Leaving                                 // about to run the deferred cleanup
    | Gone

  datatype Caller = Caller(action: Action, holds: bool, pc: Pc)

  datatype State = State(
    locked: bool, job: Option<JobId>, nextJob: JobId, cmd: Option<Pid>,
    procs: seq<Proc>, callers: seq<Caller>)

  datatype Step =
    | Arrive(action: Action)
    | Acquire(c: nat)
    | Refuse(c: nat)                          // the lock was not obtained in time
    | PassThrough(c: nat)                     // a kill goes on without the lock
    | BeginStart(c: nat)
    | SendStop(c: nat)                        // the stop command is written to stdin
    | BeginTerminate(c: nat)
    | TerminateJob(c: nat)
    | SawStopped(c: nat)
    | CallStart(c: nat)
    | AlreadyRunning(c: nat)
    | FoundNotRunning(c: nat)
    | DetachJob(c: nat)
    | CloseJob(c: nat)
    | CreateJob(c: nat)
    | Spawn(c: nat)
    | Assign(c: nat)
    | Publish(c: nat)
    | Fail(c: nat)                            // an error return before a process exists
    | Leave(c: nat)
    | Fork(pid: Pid)
    | Die(pid: Pid)
    | Reap(pid: Pid)                          // wait(): clears e.cmd, whatever it holds by then

  ghost predicate At(s: State, c: nat, pc: Pc) {
    c < |s.callers| && s.callers[c].pc == pc
  }

  /** `IsRunning`: the published root, if any, has not exited; its descendants are not looked at. */
  ghost predicate IsRunning(s: State) {
    s.cmd.Some? && s.cmd.value < |s.procs| && s.procs[s.cmd.value].alive
  }

  ghost predicate Enabled(s: State, step: Step) {
    match step
    case Arrive(_) => true
    case Acquire(c) => At(s, c, Arrived) && !s.locked
    case Refuse(c) => At(s, c, Arrived) && s.callers[c].action != Kill
    case PassThrough(c) => At(s, c, Arrived) && s.callers[c].action == Kill && s.locked
    case BeginStart(c) => At(s, c, Entered) && s.callers[c].action == Start
    case SendStop(c) => At(s, c, Entered) && s.callers[c].action in {Stop, Restart}
    case BeginTerminate(c) =>
      (At(s, c, Entered) && s.callers[c].action in {Stop, Restart, Kill}) || At(s, c, StopWaiting)
    case TerminateJob(c) => c < |s.callers| && s.callers[c].pc.Terminating?
    case SawStopped(c) => At(s, c, StopWaiting) && !IsRunning(s)
    case CallStart(c) => At(s, c, PreBoot)
    case AlreadyRunning(c) => At(s, c, Booting) && IsRunning(s)
    case FoundNotRunning(c) => At(s, c, Booting) && !IsRunning(s)
    case DetachJob(c) => At(s, c, NotRunning)
    case CloseJob(c) => c < |s.callers| && s.callers[c].pc.Detached?
    case CreateJob(c) => At(s, c, Cleared)
    case Spawn(c) => At(s, c, JobReady)
    case Assign(c) => c < |s.callers| && s.callers[c].pc.Spawned?
    case Publish(c) => c < |s.callers| && s.callers[c].pc.Assigned?
    case Fail(c) => c < |s.callers| &&
      (s.callers[c].pc in {Entered, StopWaiting, PreBoot, Cleared, JobReady} || s.callers[c].pc.Terminating?)
    case Leave(c) => At(s, c, Leaving)
    case Fork(p) => p < |s.procs| && s.procs[p].alive
    case Die(p) => p < |s.procs| && s.procs[p].alive
    case Reap(p) => p < |s.procs| && !s.procs[p].alive && s.procs[p].published && !s.procs[p].reaped
  }

  /** The processes after a job's members have been killed. */
  ghost function KillJob(procs: seq<Proc>, job: Option<JobId>): seq<Proc> {
    seq(|procs|, i requires 0 <= i < |procs| =>
      if job.Some? && procs[i].job == job then procs[i].(alive := false) else procs[i])
  }

  /** Where a stop or restart goes once the process is considered stopped. */
  ghost function AfterStop(a: Action): Pc {
    if a == Restart then PreBoot else Leaving
  }

  /** A step of one caller that neither takes nor gives back the lock. */
  predicate CallerStep(step: Step) {
    !step.Arrive? && !step.Acquire? && !step.Leave? && !step.Fork? && !step.Die? && !step.Reap?
  }

  /** Where the caller goes. */
  ghost function NextPc(s: State, step: Step): Pc
    requires Enabled(s, step) && CallerStep(step)
  {
    var action, pc := s.callers[step.c].action, s.callers[step.c].pc;
    if step.Refuse? then Gone
    else if step.PassThrough? then Entered
    else if step.BeginStart? then PreBoot
    else if step.SendStop? then StopWaiting
    else if step.BeginTerminate? then
      if s.cmd.Some? then Terminating(s.job, pc == StopWaiting)
      else if action == Kill then Leaving
      else if pc == Entered then StopWaiting
      else AfterStop(action)
    else if step.TerminateJob? then
      if action == Kill then Leaving else if pc.timedOut then AfterStop(action) else StopWaiting
    else if step.SawStopped? then AfterStop(action)
    else if step.CallStart? then Booting
    else if step.FoundNotRunning? then NotRunning
    else if step.DetachJob? then Detached(s.job)
    else if step.CloseJob? then Cleared
    else if step.CreateJob? then JobReady
    else if step.Spawn? then Spawned(|s.procs|)
    else if step.Assign? then Assigned(pc.pid)
    else Leaving                               // AlreadyRunning, Publish, Fail
  }

  /** The processes after a caller's step. */
  ghost function ProcsAfter(s: State, step: Step): seq<Proc>
    requires Enabled(s, step) && CallerStep(step)
  {
    var pc := s.callers[step.c].pc;
    if step.TerminateJob? || step.CloseJob? then KillJob(s.procs, pc.job)
    else if step.Spawn? then s.procs + [Proc(|s.procs|, true, None, false, false)]
    else if step.Assign? && pc.pid < |s.procs| && s.job.Some? then
      s.procs[pc.pid := s.procs[pc.pid].(job := s.job)]
    else if step.Publish? && pc.pid < |s.procs| then
      s.procs[pc.pid := s.procs[pc.pid].(published := true)]
    else s.procs
  }

  ghost function JobAfter(s: State, step: Step): Option<JobId> {
    if step.DetachJob? then None
    else if step.CreateJob? && s.job.None? then Some(s.nextJob)
    else s.job
  }

  ghost function CmdAfter(s: State, step: Step): Option<Pid>
    requires Enabled(s, step)
  {
    if step.Publish? && s.callers[step.c].pc.pid < |s.procs| then Some(s.callers[step.c].pc.pid) else s.cmd
  }

  ghost function Apply(s: State, step: Step): State
    requires Enabled(s, step)
  {
    if CallerStep(step) then
      State(s.locked, JobAfter(s, step), if step.CreateJob? && s.job.None? then s.nextJob + 1 else s.nextJob,
            CmdAfter(s, step), ProcsAfter(s, step), s.callers[step.c := s.callers[step.c].(pc := NextPc(s, step))])
    else if step.Arrive? then s.(callers := s.callers + [Caller(step.action, false, Arrived)])
    else if step.Acquire? then
      s.(locked := true, callers := s.callers[step.c := s.callers[step.c].(holds := true, pc := Entered)])
    else if step.Leave? then
      s.(locked := if s.callers[step.c].holds then false else s.locked,
         callers := s.callers[step.c := s.callers[step.c].(holds := false, pc := Gone)])
    else
      var p := step.pid;
      if step.Fork? then s.(procs := s.procs + [Proc(s.procs[p].tree, true, s.procs[p].job, false, false)])
      else if step.Die? then s.(procs := s.procs[p := s.procs[p].(alive := false)])
      else s.(cmd := None, procs := s.procs[p := s.procs[p].(reaped := true)])
  }

  ghost predicate Runs(s: State, steps: seq<Step>)
    decreases |steps|
  {
    steps == [] || (Enabled(s, steps[0]) && Runs(Apply(s, steps[0]), steps[1..]))
  }

  ghost function Exec(s: State, steps: seq<Step>): State
    requires Runs(s, steps)
    decreases |steps|
  {
    if steps == [] then s else Exec(Apply(s, steps[0]), steps[1..])
  }

  const Initial: State := State(false, None, 0, None, [], [])

  // ---------------------------------------------------------------------
  // The lock
  // ---------------------------------------------------------------------

  /** Inside the section that HandlePowerAction guards. */
  ghost predicate InSection(c: Caller) {
    c.pc != Arrived && c.pc != Gone
  }

  /** Only a stop, start or restart gets this far. */
  ghost predicate InStart(c: Caller) {
    match c.pc
    case StopWaiting => true
    case PreBoot => true
    case Booting => true
    case NotRunning => true
    case Detached(_) => true
    case Cleared => true
    case JobReady => true
    case Spawned(_) => true
    case Assigned(_) => true
    case _ => false
  }

  ghost predicate LockInv(locked: bool, cs: seq<Caller>) {
    && (forall i :: 0 <= i < |cs| ==> CallerInv(locked, cs[i]))
    && (forall i, j :: 0 <= i < j < |cs| && cs[i].holds ==> !cs[j].holds)
    && (locked ==> exists i :: 0 <= i < |cs| && cs[i].holds)
  }

  ghost predicate CallerInv(locked: bool, c: Caller) {
    && (c.holds ==> locked && InSection(c))
    && (InSection(c) && c.action != Kill ==> c.holds)
    && (InStart(c) ==> c.action != Kill)
  }

  /** Moving one caller on, without touching what it holds, keeps the lock invariant. */
  lemma MoveKeepsLockInv(locked: bool, cs: seq<Caller>, c: nat, pc: Pc)
    requires LockInv(locked, cs) && c < |cs|
    requires CallerInv(locked, cs[c].(pc := pc))
    ensures LockInv(locked, cs[c := cs[c].(pc := pc)])
  {
    if locked {
      var i :| 0 <= i < |cs| && cs[i].holds;
      assert cs[c := cs[c].(pc := pc)][i].holds;
    }
  }

  lemma CallerInvAt(locked: bool, cs: seq<Caller>, c: nat)
    requires LockInv(locked, cs) && c < |cs|
    ensures CallerInv(locked, cs[c])
  {
  }

  lemma LockStepKeepsLockInv(s: State, step: Step)
    requires LockInv(s.locked, s.callers) && Enabled(s, step)
    requires step.Arrive? || step.Acquire? || step.Leave?
    ensures LockInv(Apply(s, step).locked, Apply(s, step).callers)
  {
    var s' := Apply(s, step);
    if step.Acquire? {
      assert s'.callers[step.c].holds;
    } else if s'.locked {
      var i :| 0 <= i < |s.callers| && s.callers[i].holds;
      assert s'.callers[i].holds;
    }
  }

  lemma NextPcKeepsCallerInv(s: State, step: Step)
    requires Enabled(s, step) && CallerStep(step) && CallerInv(s.locked, s.callers[step.c])
    ensures CallerInv(s.locked, s.callers[step.c].(pc := NextPc(s, step)))
  {
  }

  lemma StepKeepsLockInv(s: State, step: Step)
    requires LockInv(s.locked, s.callers) && Enabled(s, step)
    ensures LockInv(Apply(s, step).locked, Apply(s, step).callers)
  {
    hide LockInv, NextPc, ProcsAfter;
    if step.Arrive? || step.Acquire? || step.Leave? {
      LockStepKeepsLockInv(s, step);
    } else if CallerStep(step) {
      CallerInvAt(s.locked, s.callers, step.c);
      NextPcKeepsCallerInv(s, step);
      MoveKeepsLockInv(s.locked, s.callers, step.c, NextPc(s, step));
    }
  }

  /** At most one start, stop or restart is in its critical section, however many callers there are. */
  lemma MutualExclusion(s: State, i: nat, j: nat)
    requires LockInv(s.locked, s.callers)
    requires i < |s.callers| && j < |s.callers|
    requires InSection(s.callers[i]) && s.callers[i].action != Kill
    requires InSection(s.callers[j]) && s.callers[j].action != Kill
    ensures i == j
  {
    assert CallerInv(s.locked, s.callers[i]) && CallerInv(s.locked, s.callers[j]);
  }

  lemma OneHolder(locked: bool, cs: seq<Caller>, k: nat, c: nat)
    requires LockInv(locked, cs) && k < |cs| && c < |cs| && cs[k].holds && c != k
    ensures !cs[c].holds
  {
  }

  lemma StepOfOthers(s: State, step: Step, k: nat)
    requires LockInv(s.locked, s.callers) && Enabled(s, step) && step != Leave(k)
    requires k < |s.callers| && s.callers[k].holds
    ensures var t := Apply(s, step);
            t.locked && k < |t.callers| && t.callers[k].holds && t.callers[k].action == s.callers[k].action
  {
    hide NextPc, ProcsAfter, JobAfter, CmdAfter, LockInv;
    CallerInvAt(s.locked, s.callers, k);
    if step.Leave? {
      OneHolder(s.locked, s.callers, k, step.c);
    }
  }

  /**
   Only the caller that acquired the lock releases it: as long as it has not left,
   no step of anyone else, a kill without the lock included, frees the lock.
   */
  lemma {:induction false} HolderKeepsLock(s: State, steps: seq<Step>, k: nat)
    requires LockInv(s.locked, s.callers) && Runs(s, steps)
    requires k < |s.callers| && s.callers[k].holds
    requires forall i :: 0 <= i < |steps| ==> steps[i] != Leave(k)
    ensures var t := Exec(s, steps);
            t.locked && k < |t.callers| && t.callers[k].holds && t.callers[k].action == s.callers[k].action
    decreases |steps|
  {
    assert CallerInv(s.locked, s.callers[k]);
    if steps != [] {
      StepKeepsLockInv(s, steps[0]);
      StepOfOthers(s, steps[0], k);
      HolderKeepsLock(Apply(s, steps[0]), steps[1..], k);
    }
  }

  // ---------------------------------------------------------------------
  // The processes
  // ---------------------------------------------------------------------

  ghost predicate Somewhere(cs: seq<Caller>, pc: Pc) {
    exists i :: 0 <= i < |cs| && cs[i].pc == pc
  }

  /** Forked before its root was assigned to the job: in no job, and out of reach of every kill. */
  ghost predicate Early(p: Pid, proc: Proc) {
    proc.tree != p && proc.job.None?
  }

  ghost predicate OnlyEarlyAlive(procs: seq<Proc>) {
    forall p :: 0 <= p < |procs| && procs[p].alive ==> Early(p, procs[p])
  }

  /** All living processes belong to one tree. */
  ghost predicate OneTree(procs: seq<Proc>) {
    forall p, q :: 0 <= p < |procs| && 0 <= q < |procs| && procs[p].alive && procs[q].alive ==>
      procs[p].tree == procs[q].tree
  }

  /** Of two living processes of different trees, the one of the older tree was forked early. */
  ghost predicate OlderAreEarly(procs: seq<Proc>) {
    forall p, q :: 0 <= p < |procs| && 0 <= q < |procs| && procs[p].alive && procs[q].alive ==>
      procs[p].tree < procs[q].tree ==> Early(p, procs[p])
  }

  /** Every living process is in the current job, in the job being closed, is the root being started, or was forked early. */
  ghost predicate Housed(job: Option<JobId>, cs: seq<Caller>, p: Pid, proc: Proc) {
    match proc.job
    case Some(j) => job == Some(j) || Somewhere(cs, Detached(Some(j)))
    case None => proc.tree != p || Somewhere(cs, Spawned(p))
  }

  /** What a booting caller's position says about the job and the processes. */
  ghost predicate BootInv(job: Option<JobId>, procs: seq<Proc>, pc: Pc) {
    match pc
    case Detached(_) => job.None?
    case Cleared => OnlyEarlyAlive(procs)
    case JobReady => job.Some? && OnlyEarlyAlive(procs)
    case Spawned(q) =>
      job.Some? && q < |procs| && procs[q].job.None? && LoneRoot(procs, q)
      && forall p :: 0 <= p < |procs| && p != q && procs[p].alive ==> Early(p, procs[p])
    case Assigned(q) => q < |procs| && procs[q].job.Some? && LoneRoot(procs, q)
    case _ => true
  }

  /** `q` is a root, not published yet, and no other root is alive. */
  ghost predicate LoneRoot(procs: seq<Proc>, q: Pid)
    requires q < |procs|
  {
    procs[q].tree == q && forall p :: 0 <= p < |procs| && procs[p].alive && procs[p].tree == p ==> p == q
  }

  ghost predicate ProcInv(job: Option<JobId>, procs: seq<Proc>, cs: seq<Caller>) {
    && (forall p :: 0 <= p < |procs| ==> procs[p].tree <= p)
    && (forall p :: 0 <= p < |procs| && procs[p].alive ==> Housed(job, cs, p, procs[p]))
    && (forall i :: 0 <= i < |cs| ==> BootInv(job, procs, cs[i].pc))
    && OlderAreEarly(procs)
  }

  ghost predicate Booter(pc: Pc) {
    pc.Detached? || pc == Cleared || pc == JobReady || pc.Spawned? || pc.Assigned?
  }

  /** Starts are serialized, so one caller at a time is between closing the job and publishing the process. */
  lemma OneStarter(locked: bool, cs: seq<Caller>, i: nat, j: nat)
    requires LockInv(locked, cs) && i < |cs| && j < |cs|
    requires InStart(cs[i]) && InStart(cs[j])
    ensures i == j
  {
    assert CallerInv(locked, cs[i]) && CallerInv(locked, cs[j]);
  }

  lemma OthersDoNotBoot(locked: bool, cs: seq<Caller>, c: nat)
    requires LockInv(locked, cs) && c < |cs| && InStart(cs[c])
    ensures OthersQuiet(cs, c)
  {
    forall i | 0 <= i < |cs| && Booter(cs[i].pc) ensures i == c {
      OneStarter(locked, cs, i, c);
    }
  }

  /** A caller that moves between positions outside the boot sequence changes nothing for the processes. */
  lemma MoveKeepsProcInv(job: Option<JobId>, procs: seq<Proc>, cs: seq<Caller>, c: nat, caller: Caller)
    requires ProcInv(job, procs, cs) && c < |cs|
    requires !cs[c].pc.Detached? && !cs[c].pc.Spawned? && !Booter(caller.pc)
    ensures ProcInv(job, procs, cs[c := caller])
  {
    forall pc | Somewhere(cs, pc) && (pc.Detached? || pc.Spawned?) ensures Somewhere(cs[c := caller], pc) {
      var i :| 0 <= i < |cs| && cs[i].pc == pc;
      assert cs[c := caller][i].pc == pc;
    }
  }

  /** Killing, reaping and publishing only shrink the set of living processes. */
  lemma DeathsKeepProcInv(job: Option<JobId>, procs: seq<Proc>, procs': seq<Proc>, cs: seq<Caller>)
    requires ProcInv(job, procs, cs) && OnlyDied(procs, procs')
    ensures ProcInv(job, procs', cs)
  {
    forall i | 0 <= i < |cs| ensures BootInv(job, procs', cs[i].pc) {
      assert BootInv(job, procs, cs[i].pc);
    }
  }

  /** A fork inherits its parent's job, or, before the assignment, none. */
  lemma ForkKeepsProcInv(job: Option<JobId>, procs: seq<Proc>, cs: seq<Caller>, p: Pid)
    requires ProcInv(job, procs, cs) && p < |procs| && procs[p].alive
    ensures ProcInv(job, procs + [Proc(procs[p].tree, true, procs[p].job, false, false)], cs)
  {
    var child := Proc(procs[p].tree, true, procs[p].job, false, false);
    var procs' := procs + [child];
    assert Housed(job, cs, p, procs[p]);
    assert procs[p].tree <= p;
    forall i | 0 <= i < |cs| ensures BootInv(job, procs', cs[i].pc) {
      assert BootInv(job, procs, cs[i].pc);
      assert forall q :: 0 <= q < |procs| ==> procs'[q] == procs[q];
      assert procs'[|procs|] == child;
    }
  }

  ghost predicate OthersQuiet(cs: seq<Caller>, c: nat) {
    c < |cs| && forall i :: 0 <= i < |cs| && i != c ==> !Booter(cs[i].pc)
  }

  /** Taking the job out of the environment keeps track of its members. */
  lemma DetachKeepsProcInv(job: Option<JobId>, procs: seq<Proc>, cs: seq<Caller>, c: nat, caller: Caller)
    requires ProcInv(job, procs, cs) && OthersQuiet(cs, c) && !Booter(cs[c].pc) && caller.pc == Detached(job)
    ensures ProcInv(None, procs, cs[c := caller])
  {
    var cs' := cs[c := caller];
    assert cs'[c].pc == Detached(job);
    assert Somewhere(cs', Detached(job));
    forall p | 0 <= p < |procs| && procs[p].alive ensures Housed(None, cs', p, procs[p]) {
      assert Housed(job, cs, p, procs[p]);
    }
  }

  /** Once the old job is closed, a process is alive exactly if it was alive before and forked early. */
  lemma CloseKills(job: Option<JobId>, procs: seq<Proc>, cs: seq<Caller>, c: nat, p: Pid)
    requires ProcInv(job, procs, cs) && OthersQuiet(cs, c) && cs[c].pc.Detached? && p < |procs|
    ensures KillJob(procs, cs[c].pc.job)[p].alive <==> procs[p].alive && Early(p, procs[p])
  {
    assert BootInv(job, procs, cs[c].pc);
    if procs[p].alive {
      assert Housed(job, cs, p, procs[p]);
    }
  }

  lemma CloseKeepsProcInv(job: Option<JobId>, procs: seq<Proc>, cs: seq<Caller>, c: nat, caller: Caller)
    requires ProcInv(job, procs, cs) && OthersQuiet(cs, c) && cs[c].pc.Detached? && caller.pc == Cleared
    ensures ProcInv(job, KillJob(procs, cs[c].pc.job), cs[c := caller])
  {
    var procs' := KillJob(procs, cs[c].pc.job);
    forall p | 0 <= p < |procs|
      ensures procs'[p].alive <==> procs[p].alive && Early(p, procs[p])
      ensures procs'[p].tree == procs[p].tree && procs'[p].job == procs[p].job
    {
      CloseKills(job, procs, cs, c, p);
    }
  }

  lemma CreateKeepsProcInv(job: Option<JobId>, job': Option<JobId>, procs: seq<Proc>, cs: seq<Caller>, c: nat, caller: Caller)
    requires ProcInv(job, procs, cs) && OthersQuiet(cs, c) && cs[c].pc == Cleared && caller.pc == JobReady
    requires job'.Some? && (job.Some? ==> job' == job)
    ensures ProcInv(job', procs, cs[c := caller])
  {
    var cs' := cs[c := caller];
    assert BootInv(job, procs, cs[c].pc);
    forall p | 0 <= p < |procs| && procs[p].alive ensures Housed(job', cs', p, procs[p]) {
      assert Early(p, procs[p]);
    }
  }

  /** The new root is the newest tree; every process alive beside it was forked early. */
  lemma SpawnKeepsProcInv(job: Option<JobId>, procs: seq<Proc>, cs: seq<Caller>, c: nat, caller: Caller)
    requires ProcInv(job, procs, cs) && OthersQuiet(cs, c) && cs[c].pc == JobReady && caller.pc == Spawned(|procs|)
    ensures ProcInv(job, procs + [Proc(|procs|, true, None, false, false)], cs[c := caller])
  {
    var n, cs' := |procs|, cs[c := caller];
    var procs' := procs + [Proc(n, true, None, false, false)];
    assert BootInv(job, procs, cs[c].pc);
    assert cs'[c].pc == Spawned(n) && Somewhere(cs', Spawned(n));
    assert forall p :: 0 <= p < n ==> procs'[p] == procs[p];
    assert forall p :: 0 <= p < n && procs[p].alive ==> Early(p, procs[p]);
  }

  lemma AssignKeepsProcInv(job: Option<JobId>, procs: seq<Proc>, cs: seq<Caller>, c: nat, caller: Caller)
    requires ProcInv(job, procs, cs) && OthersQuiet(cs, c) && cs[c].pc.Spawned? && caller.pc == Assigned(cs[c].pc.pid)
    ensures var q := cs[c].pc.pid;
            job.Some? && q < |procs| && ProcInv(job, procs[q := procs[q].(job := job)], cs[c := caller])
  {
    assert BootInv(job, procs, cs[c].pc);
    var q := cs[c].pc.pid;
    var procs', cs' := procs[q := procs[q].(job := job)], cs[c := caller];
    assert forall p :: 0 <= p < |procs| && p != q && procs[p].alive ==> Early(p, procs[p]);
    assert forall p :: 0 <= p < |procs| && p != q ==> procs'[p] == procs[p];
  }

  /** The same processes in the same jobs, some of them dead by now. */
  ghost predicate OnlyDied(procs: seq<Proc>, procs': seq<Proc>) {
    && |procs'| == |procs|
    && forall p :: 0 <= p < |procs| ==>
         && procs'[p].tree == procs[p].tree && procs'[p].job == procs[p].job
         && (procs'[p].alive ==> procs[p].alive)
  }

  lemma CallerStepOnlyKills(s: State, step: Step)
    requires Enabled(s, step) && CallerStep(step) && !step.Spawn? && !step.Assign?
    ensures OnlyDied(s.procs, ProcsAfter(s, step))
  {
  }

  /** No step outside the boot sequence revives a process or moves it to another job or tree. */
  lemma OnlyDeaths(s: State, step: Step)
    requires Enabled(s, step) && !step.Spawn? && !step.Assign? && !step.Fork?
    ensures OnlyDied(s.procs, Apply(s, step).procs)
  {
    hide NextPc, ProcsAfter;
    if CallerStep(step) {
      CallerStepOnlyKills(s, step);
    }
  }

  lemma BootStepKeepsProcInv(s: State, step: Step)
    requires LockInv(s.locked, s.callers) && ProcInv(s.job, s.procs, s.callers) && Enabled(s, step)
    requires step.DetachJob? || step.CloseJob? || step.CreateJob? || step.Spawn? || step.Assign?
    ensures var t := Apply(s, step); ProcInv(t.job, t.procs, t.callers)
  {
    hide ProcInv, LockInv, KillJob;
    var c := step.c;
    var caller := s.callers[c].(pc := NextPc(s, step));
    OthersDoNotBoot(s.locked, s.callers, c);
    if step.DetachJob? {
      DetachKeepsProcInv(s.job, s.procs, s.callers, c, caller);
    } else if step.CloseJob? {
      CloseKeepsProcInv(s.job, s.procs, s.callers, c, caller);
    } else if step.CreateJob? {
      CreateKeepsProcInv(s.job, JobAfter(s, step), s.procs, s.callers, c, caller);
    } else if step.Spawn? {
      SpawnKeepsProcInv(s.job, s.procs, s.callers, c, caller);
    } else {
      AssignKeepsProcInv(s.job, s.procs, s.callers, c, caller);
    }
  }

  lemma StepKeepsProcInv(s: State, step: Step)
    requires LockInv(s.locked, s.callers) && ProcInv(s.job, s.procs, s.callers) && Enabled(s, step)
    ensures var t := Apply(s, step); ProcInv(t.job, t.procs, t.callers)
  {
    hide ProcInv, LockInv, NextPc, ProcsAfter;
    if step.DetachJob? || step.CloseJob? || step.CreateJob? || step.Spawn? || step.Assign? {
      BootStepKeepsProcInv(s, step);
    } else if step.Fork? {
      ForkKeepsProcInv(s.job, s.procs, s.callers, step.pid);
    } else {
      OtherStepKeepsProcInv(s, step);
    }
  }

  lemma NextPcOutsideBoot(s: State, step: Step)
    requires Enabled(s, step) && CallerStep(step)
    requires !step.DetachJob? && !step.CloseJob? && !step.CreateJob? && !step.Spawn? && !step.Assign?
    ensures !Booter(NextPc(s, step)) && !s.callers[step.c].pc.Detached? && !s.callers[step.c].pc.Spawned?
    ensures JobAfter(s, step) == s.job
  {
  }

  lemma OtherStepKeepsProcInv(s: State, step: Step)
    requires ProcInv(s.job, s.procs, s.callers) && Enabled(s, step)
    requires !step.DetachJob? && !step.CloseJob? && !step.CreateJob? && !step.Spawn? && !step.Assign? && !step.Fork?
    ensures var t := Apply(s, step); ProcInv(t.job, t.procs, t.callers)
  {
    hide ProcInv, NextPc, ProcsAfter;
    var t := Apply(s, step);
    OnlyDeaths(s, step);
    DeathsKeepProcInv(s.job, s.procs, t.procs, s.callers);
    if step.Arrive? {
      ArriveKeepsProcInv(s.job, t.procs, s.callers, t.callers);
    } else if step.Acquire? || step.Leave? {
      MoveKeepsProcInv(s.job, t.procs, s.callers, step.c, t.callers[step.c]);
    } else if CallerStep(step) {
      NextPcOutsideBoot(s, step);
      MoveKeepsProcInv(s.job, t.procs, s.callers, step.c, t.callers[step.c]);
    }
  }

  lemma ArriveKeepsProcInv(job: Option<JobId>, procs: seq<Proc>, cs: seq<Caller>, cs': seq<Caller>)
    requires ProcInv(job, procs, cs)
    requires |cs'| == |cs| + 1 && cs' == cs + [cs'[|cs|]] && cs'[|cs|].pc == Arrived
    ensures ProcInv(job, procs, cs')
  {
    forall pc | Somewhere(cs, pc) ensures Somewhere(cs', pc) {
      var i :| 0 <= i < |cs| && cs[i].pc == pc;
      assert cs'[i].pc == pc;
    }
  }

  ghost predicate Safe(s: State) {
    LockInv(s.locked, s.callers) && ProcInv(s.job, s.procs, s.callers)
  }

  lemma InitialIsSafe()
    ensures Safe(Initial)
  {
  }

  /**
   Over every run, with any number of callers, kills that skip the lock, processes
   forking and dying at any moment and late wait() goroutines.
   */
  lemma {:induction false} RunsStaySafe(s: State, steps: seq<Step>)
    requires Safe(s) && Runs(s, steps)
    ensures Safe(Exec(s, steps))
    decreases |steps|
  {
    hide LockInv, ProcInv, Enabled, Apply;
    if steps != [] {
      StepKeepsLockInv(s, steps[0]);
      StepKeepsProcInv(s, steps[0]);
      RunsStaySafe(Apply(s, steps[0]), steps[1..]);
    }
  }

  // ---------------------------------------------------------------------
  // One tree
  // ---------------------------------------------------------------------

  ghost predicate SurvivingEarlyFork(procs: seq<Proc>) {
    exists p :: 0 <= p < |procs| && procs[p].alive && Early(p, procs[p])
  }

  /** A new tree is alone if and only if no process forked before its own root's assignment is still alive. */
  lemma NewTreeIsAloneExactly(s: State, c: nat)
    requires Safe(s) && Enabled(s, Spawn(c))
    ensures OneTree(Apply(s, Spawn(c)).procs) <==> !SurvivingEarlyFork(s.procs)
  {
    var t, n := Apply(s, Spawn(c)), |s.procs|;
    assert BootInv(s.job, s.procs, s.callers[c].pc);
    assert forall p :: 0 <= p < n ==> t.procs[p] == s.procs[p] && s.procs[p].tree <= p;
    assert t.procs[n].alive && t.procs[n].tree == n;
    if SurvivingEarlyFork(s.procs) {
      var p :| 0 <= p < n && s.procs[p].alive && Early(p, s.procs[p]);
      assert t.procs[p].tree != t.procs[n].tree;
    }
  }

  /** At any moment of any run two living processes of different trees mean that the older one was forked early. */
  lemma {:induction false} SecondTreeIsEarly(steps: seq<Step>, p: Pid, q: Pid)
    requires Runs(Initial, steps)
    requires var procs := Exec(Initial, steps).procs;
             p < |procs| && q < |procs| && procs[p].alive && procs[q].alive && procs[p].tree < procs[q].tree
    ensures Early(p, Exec(Initial, steps).procs[p])
  {
    InitialIsSafe();
    RunsStaySafe(Initial, steps);
  }

  ghost predicate NoEarlyFork(procs: seq<Proc>) {
    forall p :: 0 <= p < |procs| ==> !Early(p, procs[p])
  }

  /** No process forks before it is in a job. */
  ghost predicate ForksInJobs(s: State, steps: seq<Step>)
    requires Runs(s, steps)
    decreases |steps|
  {
    steps != [] ==>
      && (steps[0].Fork? ==> s.procs[steps[0].pid].job.Some?)
      && ForksInJobs(Apply(s, steps[0]), steps[1..])
  }

  lemma StepForksNoneEarly(s: State, step: Step)
    requires Enabled(s, step) && NoEarlyFork(s.procs)
    requires step.Fork? ==> s.procs[step.pid].job.Some?
    ensures NoEarlyFork(Apply(s, step).procs)
  {
    var t := Apply(s, step);
    if step.Spawn? || step.Fork? {
      assert forall p :: 0 <= p < |s.procs| ==> t.procs[p] == s.procs[p];
    } else if !step.Assign? {
      OnlyDeaths(s, step);
      assert forall p :: 0 <= p < |s.procs| ==> !Early(p, s.procs[p]);
    }
  }

  /** Where processes fork only once they are in a job, at most one process tree is ever alive. */
  lemma {:induction false} RunsKeepOneTree(s: State, steps: seq<Step>)
    requires Safe(s) && NoEarlyFork(s.procs) && Runs(s, steps) && ForksInJobs(s, steps)
    ensures OneTree(Exec(s, steps).procs)
    decreases |steps|
  {
    if steps == [] {
      assert OlderAreEarly(s.procs);
    } else {
      hide LockInv, ProcInv, Enabled, Apply, NoEarlyFork, OneTree;
      StepKeepsLockInv(s, steps[0]);
      StepKeepsProcInv(s, steps[0]);
      StepForksNoneEarly(s, steps[0]);
      RunsKeepOneTree(Apply(s, steps[0]), steps[1..]);
    }
  }

  // ---------------------------------------------------------------------
  // The record of the running process
  // ---------------------------------------------------------------------

  ghost predicate LiveRoot(procs: seq<Proc>, r: Pid) {
    r < |procs| && procs[r].tree == r && procs[r].published && procs[r].alive
  }

  /** What IsRunning is to find out: some root that a Start has published is alive. */
  ghost predicate SomeLiveRoot(procs: seq<Proc>) {
    exists r :: LiveRoot(procs, r)
  }

  ghost predicate Names(cmd: Option<Pid>, procs: seq<Proc>) {
    cmd.Some? ==> cmd.value < |procs| && procs[cmd.value].tree == cmd.value && procs[cmd.value].published
  }

  ghost predicate Right(cmd: Option<Pid>, procs: seq<Proc>) {
    (cmd.Some? && cmd.value < |procs| && procs[cmd.value].alive) <==> SomeLiveRoot(procs)
  }

  /** IsRunning tells the truth, and the record names a published root if anything. */
  ghost predicate RecordRight(s: State) {
    Names(s.cmd, s.procs) && (IsRunning(s) <==> SomeLiveRoot(s.procs))
  }

  ghost predicate OneRoot(procs: seq<Proc>) {
    forall p, q :: LiveRoot(procs, p) && LiveRoot(procs, q) ==> p == q
  }

  lemma SafeHasOneRoot(s: State)
    requires Safe(s)
    ensures OneRoot(s.procs)
  {
    assert OlderAreEarly(s.procs);
  }

  lemma DeathsKeepRecord(cmd: Option<Pid>, procs: seq<Proc>, procs': seq<Proc>)
    requires OneRoot(procs) && Names(cmd, procs) && Right(cmd, procs) && OnlyDied(procs, procs')
    requires forall p :: 0 <= p < |procs| ==> procs'[p].published == procs[p].published
    ensures Names(cmd, procs') && Right(cmd, procs')
  {
    if r :| LiveRoot(procs', r) {
      assert LiveRoot(procs, r);
      assert LiveRoot(procs, cmd.value);
    }
    if cmd.Some? && procs'[cmd.value].alive {
      assert LiveRoot(procs', cmd.value);
    }
  }

  lemma BirthKeepsRecord(cmd: Option<Pid>, procs: seq<Proc>, child: Proc)
    requires Names(cmd, procs) && Right(cmd, procs) && !child.published
    ensures Names(cmd, procs + [child]) && Right(cmd, procs + [child])
  {
    var procs' := procs + [child];
    if r :| LiveRoot(procs', r) {
      assert LiveRoot(procs, r);
    }
    if r :| LiveRoot(procs, r) {
      assert LiveRoot(procs', r);
    }
  }

  lemma AssignKeepsRecord(cmd: Option<Pid>, procs: seq<Proc>, q: Pid, job: Option<JobId>)
    requires Names(cmd, procs) && Right(cmd, procs) && q < |procs|
    ensures var procs' := procs[q := procs[q].(job := job)]; Names(cmd, procs') && Right(cmd, procs')
  {
    var procs' := procs[q := procs[q].(job := job)];
    assert forall r :: LiveRoot(procs', r) <==> LiveRoot(procs, r);
  }

  lemma PublishMakesRecord(procs: seq<Proc>, q: Pid)
    requires q < |procs| && LoneRoot(procs, q)
    ensures var procs' := procs[q := procs[q].(published := true)]; Names(Some(q), procs') && Right(Some(q), procs')
  {
    var procs' := procs[q := procs[q].(published := true)];
    if procs'[q].alive {
      assert LiveRoot(procs', q);
    }
    if r: Pid :| LiveRoot(procs', r) {
      assert procs[r].alive && procs[r].tree == r;
    }
  }

  lemma KillsLeavePublished(s: State, step: Step)
    requires Enabled(s, step) && !step.Spawn? && !step.Assign? && !step.Fork? && !step.Publish?
    ensures OnlyDied(s.procs, Apply(s, step).procs)
    ensures forall p :: 0 <= p < |s.procs| ==> Apply(s, step).procs[p].published == s.procs[p].published
    ensures !step.Reap? ==> Apply(s, step).cmd == s.cmd
  {
    OnlyDeaths(s, step);
  }

  lemma BirthStepKeepsRecord(s: State, step: Step)
    requires Safe(s) && RecordRight(s) && Enabled(s, step)
    requires step.Spawn? || step.Assign? || step.Fork? || step.Publish?
    ensures RecordRight(Apply(s, step))
  {
    hide SomeLiveRoot, LiveRoot, NextPc, ProcInv;
    assert Right(s.cmd, s.procs);
    if step.Fork? {
      BirthKeepsRecord(s.cmd, s.procs, Proc(s.procs[step.pid].tree, true, s.procs[step.pid].job, false, false));
    } else if step.Spawn? {
      BirthKeepsRecord(s.cmd, s.procs, Proc(|s.procs|, true, None, false, false));
    } else {
      BootInvAt(s, step.c);
      if step.Assign? {
        AssignKeepsRecord(s.cmd, s.procs, s.callers[step.c].pc.pid, s.job);
      } else {
        PublishMakesRecord(s.procs, s.callers[step.c].pc.pid);
      }
    }
  }

  lemma BootInvAt(s: State, c: nat)
    requires Safe(s) && c < |s.callers|
    ensures BootInv(s.job, s.procs, s.callers[c].pc)
  {
  }

  /** Every step but wait()'s keeps the record right. */
  lemma StepKeepsRecord(s: State, step: Step)
    requires Safe(s) && RecordRight(s) && Enabled(s, step) && !step.Reap?
    ensures RecordRight(Apply(s, step))
  {
    hide Safe, Apply, Enabled, SomeLiveRoot;
    if step.Spawn? || step.Assign? || step.Fork? || step.Publish? {
      BirthStepKeepsRecord(s, step);
    } else {
      KillsLeavePublished(s, step);
      SafeHasOneRoot(s);
      DeathsKeepRecord(s.cmd, s.procs, Apply(s, step).procs);
    }
  }

  /** The guard that wait() lacks: the record is its own process, or at least not a living one. */
  ghost predicate Timely(s: State, p: Pid)
    requires Names(s.cmd, s.procs)
  {
    s.cmd.None? || s.cmd == Some(p) || !s.procs[s.cmd.value].alive
  }

  /** wait() keeps the record right exactly when it is timely. */
  lemma ReapKeepsRecordExactly(s: State, p: Pid)
    requires RecordRight(s) && Enabled(s, Reap(p))
    ensures Names(Apply(s, Reap(p)).cmd, Apply(s, Reap(p)).procs)
    ensures RecordRight(Apply(s, Reap(p))) <==> Timely(s, p)
  {
    var t := Apply(s, Reap(p));
    if r :| LiveRoot(t.procs, r) {
      assert LiveRoot(s.procs, r);
    }
    if r :| LiveRoot(s.procs, r) {
      assert LiveRoot(t.procs, r);
    }
  }

  /** A wait() that cleared only its own record would always keep it right. */
  lemma GuardedReapKeepsRecord(s: State, p: Pid)
    requires RecordRight(s) && Enabled(s, Reap(p))
    ensures RecordRight(Apply(s, Reap(p)).(cmd := if s.cmd == Some(p) then None else s.cmd))
  {
    var t := Apply(s, Reap(p));
    if r :| LiveRoot(t.procs, r) {
      assert LiveRoot(s.procs, r);
    }
    if r :| LiveRoot(s.procs, r) {
      assert LiveRoot(t.procs, r);
    }
  }

  ghost predicate AlwaysRight(s: State, steps: seq<Step>)
    requires Runs(s, steps)
    decreases |steps|
  {
    RecordRight(s) && (steps != [] ==> AlwaysRight(Apply(s, steps[0]), steps[1..]))
  }

  /** Every wait() of the run is timely. */
  ghost predicate TimelyRun(s: State, steps: seq<Step>)
    requires Runs(s, steps)
    decreases |steps|
  {
    steps != [] ==>
      && (steps[0].Reap? ==> Names(s.cmd, s.procs) && Timely(s, steps[0].pid))
      && TimelyRun(Apply(s, steps[0]), steps[1..])
  }

  /** Over a whole run IsRunning always tells the truth if and only if no wait() comes after the next process was published. */
  lemma {:induction false} RecordIsRightExactly(s: State, steps: seq<Step>)
    requires Safe(s) && RecordRight(s) && Runs(s, steps)
    ensures AlwaysRight(s, steps) <==> TimelyRun(s, steps)
    decreases |steps|
  {
    hide Safe, RecordRight, Enabled, Apply, Timely;
    if steps != [] {
      var t := Apply(s, steps[0]);
      StepKeepsSafe(s, steps[0]);
      RecordNames(s);
      if steps[0].Reap? {
        ReapKeepsRecordExactly(s, steps[0].pid);
      } else {
        StepKeepsRecord(s, steps[0]);
      }
      if RecordRight(t) {
        RecordIsRightExactly(t, steps[1..]);
      }
    }
  }

  lemma RecordNames(s: State)
    requires RecordRight(s)
    ensures Names(s.cmd, s.procs)
  {
  }

  lemma StepKeepsSafe(s: State, step: Step)
    requires Safe(s) && Enabled(s, step)
    ensures Safe(Apply(s, step))
  {
    hide LockInv, ProcInv, Enabled, Apply;
    StepKeepsLockInv(s, step);
    StepKeepsProcInv(s, step);
  }

  // ---------------------------------------------------------------------
  // A restart, step by step
  // ---------------------------------------------------------------------

  ghost predicate StepsTo(s: State, step: Step, t: State) {
    Enabled(s, step) && Apply(s, step) == t
  }

  /** A run spelled out state by state. */
  lemma {:induction false} ChainRuns(states: seq<State>, steps: seq<Step>)
    requires |states| == |steps| + 1
    requires forall i :: 0 <= i < |steps| ==> StepsTo(states[i], steps[i], states[i + 1])
    ensures Runs(states[0], steps) && Exec(states[0], steps) == states[|steps|]
    decreases |steps|
  {
    hide Enabled, Apply;
    if steps != [] {
      assert StepsTo(states[0], steps[0], states[1]);
      forall i | 0 <= i < |steps| - 1 ensures StepsTo(states[1..][i], steps[1..][i], states[1..][i + 1]) {
        assert StepsTo(states[i + 1], steps[i + 1], states[i + 2]);
      }
      ChainRuns(states[1..], steps[1..]);
    }
  }

  lemma {:induction false} RunsAppend(s: State, a: seq<Step>, b: seq<Step>)
    requires Runs(s, a) && Runs(Exec(s, a), b)
    ensures Runs(s, a + b) && Exec(s, a + b) == Exec(Exec(s, a), b)
    decreases |a|
  {
    hide Enabled, Apply;
    if a == [] {
      assert a + b == b;
    } else {
      assert (a + b)[1..] == a[1..] + b;
      RunsAppend(Apply(s, a[0]), a[1..], b);
    }
  }

  /** `s` with one more caller, which holds the lock and is at `pc`. */
  ghost function With(s: State, a: Action, pc: Pc): State {
    s.(locked := true, callers := s.callers + [Caller(a, true, pc)])
  }

  /** A step of that caller. */
  lemma WithMoves(s: State, a: Action, pc: Pc, step: Step)
    requires CallerStep(step) && step.c == |s.callers| && Enabled(With(s, a, pc), step)
    ensures var u := With(s, a, pc);
            StepsTo(u, step,
                    With(State(s.locked, JobAfter(u, step), if step.CreateJob? && s.job.None? then s.nextJob + 1 else s.nextJob,
                               CmdAfter(u, step), ProcsAfter(u, step), s.callers), a, NextPc(u, step)))
  {
    hide NextPc, ProcsAfter, JobAfter, CmdAfter;
    var u := With(s, a, pc);
    var next := Caller(a, true, NextPc(u, step));
    assert u.callers[|s.callers| := next] == s.callers + [next];
  }

  function BootSteps(c: nat): seq<Step> {
    [CallStart(c), FoundNotRunning(c), DetachJob(c), CloseJob(c), CreateJob(c)]
  }

  lemma BootFindsNothing(s: State, a: Action)
    requires !IsRunning(s)
    ensures StepsTo(With(s, a, PreBoot), CallStart(|s.callers|), With(s, a, Booting))
    ensures StepsTo(With(s, a, Booting), FoundNotRunning(|s.callers|), With(s, a, NotRunning))
  {
    hide StepsTo;
    WithMoves(s, a, PreBoot, CallStart(|s.callers|));
    WithMoves(s, a, Booting, FoundNotRunning(|s.callers|));
  }

  lemma BootDetaches(s: State, a: Action)
    ensures StepsTo(With(s, a, NotRunning), DetachJob(|s.callers|), With(s.(job := None), a, Detached(s.job)))
  {
    hide StepsTo;
    WithMoves(s, a, NotRunning, DetachJob(|s.callers|));
  }

  lemma BootCloses(s: State, a: Action, job: Option<JobId>)
    ensures StepsTo(With(s, a, Detached(job)), CloseJob(|s.callers|), With(s.(procs := KillJob(s.procs, job)), a, Cleared))
  {
    hide StepsTo, KillJob;
    WithMoves(s, a, Detached(job), CloseJob(|s.callers|));
  }

  lemma BootCreates(s: State, a: Action)
    requires s.job.None?
    ensures StepsTo(With(s, a, Cleared), CreateJob(|s.callers|),
                    With(s.(job := Some(s.nextJob), nextJob := s.nextJob + 1), a, JobReady))
  {
    hide StepsTo;
    WithMoves(s, a, Cleared, CreateJob(|s.callers|));
  }

  /** From the pre-boot hook to a fresh job. */
  lemma BootRuns(s: State, a: Action)
    requires !IsRunning(s)
    ensures var u, c := With(s, a, PreBoot), |s.callers|;
            && Runs(u, BootSteps(c))
            && Exec(u, BootSteps(c)) ==
               With(s.(job := Some(s.nextJob), nextJob := s.nextJob + 1, procs := KillJob(s.procs, s.job)), a, JobReady)
  {
    hide KillJob, StepsTo, With;
    var c, s1 := |s.callers|, s.(job := None);
    var s2 := s1.(procs := KillJob(s.procs, s.job));
    var s3 := s2.(job := Some(s.nextJob), nextJob := s.nextJob + 1);
    BootFindsNothing(s, a);
    BootDetaches(s, a);
    BootCloses(s1, a, s.job);
    BootCreates(s2, a);
    ChainRuns([With(s, a, PreBoot), With(s, a, Booting), With(s, a, NotRunning), With(s1, a, Detached(s.job)),
               With(s2, a, Cleared), With(s3, a, JobReady)], BootSteps(c));
  }

  /** The launch proper; with `fork`, the new root forks before it is assigned to the job. */
  function LaunchSteps(c: nat, root: Pid, fork: bool): seq<Step> {
    [Spawn(c)] + (if fork then [Fork(root)] else []) + [Assign(c), Publish(c), Leave(c)]
  }

  /** The processes a launch adds. */
  function Launched(root: Pid, job: Option<JobId>, fork: bool): seq<Proc> {
    [Proc(root, true, job, true, false)] + if fork then [Proc(root, true, None, false, false)] else []
  }

  ghost function Left(s: State, a: Action): State {
    s.(locked := false, callers := s.callers + [Caller(a, false, Gone)])
  }

  lemma SpawnRuns(s: State, a: Action, fork: bool)
    requires s.job.Some?
    ensures var u, n := With(s, a, JobReady), |s.procs|;
            var steps := [Spawn(|s.callers|)] + if fork then [Fork(n)] else [];
            var young := [Proc(n, true, None, false, false)] + if fork then [Proc(n, true, None, false, false)] else [];
            Runs(u, steps) && Exec(u, steps) == With(s.(procs := s.procs + young), a, Spawned(n))
  {
    var u, c, n := With(s, a, JobReady), |s.callers|, |s.procs|;
    var root := Proc(n, true, None, false, false);
    var u1 := With(s.(procs := s.procs + [root]), a, Spawned(n));
    WithMoves(s, a, JobReady, Spawn(c));
    if fork {
      assert s.procs + [root] + [root] == s.procs + ([root] + [root]);
      assert StepsTo(u1, Fork(n), With(s.(procs := s.procs + ([root] + [root])), a, Spawned(n)));
      ChainRuns([u, u1, With(s.(procs := s.procs + ([root] + [root])), a, Spawned(n))], [Spawn(c)] + [Fork(n)]);
    } else {
      assert [root] + [] == [root] && [Spawn(c)] + [] == [Spawn(c)];
      ChainRuns([u, u1], [Spawn(c)]);
    }
  }

  lemma LaunchAssigns(s: State, a: Action, n: Pid)
    requires s.job.Some? && n < |s.procs|
    ensures StepsTo(With(s, a, Spawned(n)), Assign(|s.callers|),
                    With(s.(procs := s.procs[n := s.procs[n].(job := s.job)]), a, Assigned(n)))
  {
    hide StepsTo;
    WithMoves(s, a, Spawned(n), Assign(|s.callers|));
  }

  lemma LaunchPublishes(s: State, a: Action, n: Pid)
    requires n < |s.procs|
    ensures StepsTo(With(s, a, Assigned(n)), Publish(|s.callers|),
                    With(s.(cmd := Some(n), procs := s.procs[n := s.procs[n].(published := true)]), a, Leaving))
  {
    hide StepsTo;
    WithMoves(s, a, Assigned(n), Publish(|s.callers|));
  }

  lemma CallerLeaves(s: State, a: Action)
    ensures StepsTo(With(s, a, Leaving), Leave(|s.callers|), Left(s, a))
  {
    var u := With(s, a, Leaving);
    assert u.callers[|s.callers| := Caller(a, false, Gone)] == Left(s, a).callers;
  }

  lemma PublishRuns(s: State, a: Action, n: Pid)
    requires s.job.Some? && n < |s.procs|
    ensures var u, c := With(s, a, Spawned(n)), |s.callers|;
            var procs := s.procs[n := s.procs[n].(job := s.job, published := true)];
            && Runs(u, [Assign(c), Publish(c), Leave(c)])
            && Exec(u, [Assign(c), Publish(c), Leave(c)]) == Left(s.(cmd := Some(n), procs := procs), a)
  {
    hide StepsTo, With, Left;
    var c := |s.callers|;
    var s1 := s.(procs := s.procs[n := s.procs[n].(job := s.job)]);
    var s2 := s.(cmd := Some(n), procs := s.procs[n := s.procs[n].(job := s.job, published := true)]);
    assert s1.procs[n := s1.procs[n].(published := true)] == s2.procs;
    LaunchAssigns(s, a, n);
    LaunchPublishes(s1, a, n);
    CallerLeaves(s2, a);
    ChainRuns([With(s, a, Spawned(n)), With(s1, a, Assigned(n)), With(s2, a, Leaving), Left(s2, a)],
              [Assign(c), Publish(c), Leave(c)]);
  }

  lemma LaunchRuns(s: State, a: Action, fork: bool)
    requires s.job.Some?
    ensures var u, c, n := With(s, a, JobReady), |s.callers|, |s.procs|;
            && Runs(u, LaunchSteps(c, n, fork))
            && Exec(u, LaunchSteps(c, n, fork)) == Left(s.(cmd := Some(n), procs := s.procs + Launched(n, s.job, fork)), a)
  {
    hide Runs, Exec;
    var u, c, n := With(s, a, JobReady), |s.callers|, |s.procs|;
    SpawnRuns(s, a, fork);
    var young := [Proc(n, true, None, false, false)] + if fork then [Proc(n, true, None, false, false)] else [];
    var s1 := s.(procs := s.procs + young);
    PublishRuns(s1, a, n);
    assert s1.procs[n := s1.procs[n].(job := s.job, published := true)] == s.procs + Launched(n, s.job, fork);
    var first := [Spawn(c)] + if fork then [Fork(n)] else [];
    RunsAppend(u, first, [Assign(c), Publish(c), Leave(c)]);
    assert first + [Assign(c), Publish(c), Leave(c)] == LaunchSteps(c, n, fork);
  }

  /** A caller arrives and gets the lock, and starts or sends the stop command. */
  lemma CallerEnters(s: State, a: Action)
    requires !s.locked
    ensures var s1 := s.(callers := s.callers + [Caller(a, false, Arrived)]);
            StepsTo(s, Arrive(a), s1) && StepsTo(s1, Acquire(|s.callers|), With(s, a, Entered))
  {
    var s1 := s.(callers := s.callers + [Caller(a, false, Arrived)]);
    assert s1.callers[|s.callers| := Caller(a, true, Entered)] == With(s, a, Entered).callers;
  }

  lemma StartProceeds(s: State)
    ensures StepsTo(With(s, Start, Entered), BeginStart(|s.callers|), With(s, Start, PreBoot))
  {
    hide StepsTo;
    WithMoves(s, Start, Entered, BeginStart(|s.callers|));
  }

  lemma RestartProceeds(s: State)
    ensures StepsTo(With(s, Restart, Entered), SendStop(|s.callers|), With(s, Restart, StopWaiting))
  {
    hide StepsTo;
    WithMoves(s, Restart, Entered, SendStop(|s.callers|));
  }

  lemma {:induction false} StartEnters(s: State)
    requires !s.locked
    ensures var c := |s.callers|;
            var steps := [Arrive(Start), Acquire(c), BeginStart(c)];
            Runs(s, steps) && Exec(s, steps) == With(s, Start, PreBoot)
  {
    hide StepsTo, With;
    var c := |s.callers|;
    CallerEnters(s, Start);
    StartProceeds(s);
    ChainRuns([s, s.(callers := s.callers + [Caller(Start, false, Arrived)]), With(s, Start, Entered), With(s, Start, PreBoot)],
              [Arrive(Start), Acquire(c), BeginStart(c)]);
  }

  lemma {:induction false} RestartArrives(s: State)
    requires !s.locked
    ensures var c := |s.callers|;
            var steps := [Arrive(Restart), Acquire(c), SendStop(c)];
            Runs(s, steps) && Exec(s, steps) == With(s, Restart, StopWaiting)
  {
    hide StepsTo, With;
    var c := |s.callers|;
    CallerEnters(s, Restart);
    RestartProceeds(s);
    ChainRuns([s, s.(callers := s.callers + [Caller(Restart, false, Arrived)]), With(s, Restart, Entered),
               With(s, Restart, StopWaiting)],
              [Arrive(Restart), Acquire(c), SendStop(c)]);
  }

  lemma RootObeys(s: State, p: Pid)
    requires s.cmd == Some(p) && p < |s.procs| && s.procs[p].alive
    ensures var c := |s.callers|;
            && Runs(With(s, Restart, StopWaiting), [Die(p), SawStopped(c)])
            && Exec(With(s, Restart, StopWaiting), [Die(p), SawStopped(c)]) ==
               With(s.(procs := s.procs[p := s.procs[p].(alive := false)]), Restart, PreBoot)
  {
    var c, s1 := |s.callers|, s.(procs := s.procs[p := s.procs[p].(alive := false)]);
    assert StepsTo(With(s, Restart, StopWaiting), Die(p), With(s1, Restart, StopWaiting));
    WithMoves(s1, Restart, StopWaiting, SawStopped(c));
    ChainRuns([With(s, Restart, StopWaiting), With(s1, Restart, StopWaiting), With(s1, Restart, PreBoot)],
              [Die(p), SawStopped(c)]);
  }

  /** The processes after the first start of a daemon. */
  ghost function Started(fork: bool): State {
    State(false, Some(0), 1, Some(0), Launched(0, Some(0), fork), [Caller(Start, false, Gone)])
  }

  lemma FirstStart(fork: bool) returns (steps: seq<Step>)
    ensures Runs(Initial, steps) && Exec(Initial, steps) == Started(fork)
  {
    hide Runs, Exec;
    StartEnters(Initial);
    BootRuns(Initial, Start);
    var s := Initial.(job := Some(0), nextJob := 1, procs := KillJob([], None));
    assert s.procs == [];
    LaunchRuns(s, Start, fork);
    steps := [Arrive(Start), Acquire(0), BeginStart(0)];
    RunsAppend(Initial, steps, BootSteps(0));
    steps := steps + BootSteps(0);
    RunsAppend(Initial, steps, LaunchSteps(0, 0, fork));
    steps := steps + LaunchSteps(0, 0, fork);
    assert Left(s.(cmd := Some(0), procs := s.procs + Launched(0, s.job, fork)), Start) == Started(fork) by {
      assert s.procs + Launched(0, s.job, fork) == Launched(0, Some(0), fork);
      assert s.callers + [Caller(Start, false, Gone)] == [Caller(Start, false, Gone)];
    }
  }

  /** The state after a restart whose old root obeyed the stop command. */
  ghost function Restarted(fork: bool): State {
    var first := [Proc(0, false, Some(0), true, false)] + if fork then [Proc(0, true, None, false, false)] else [];
    State(false, Some(1), 2, Some(|first|), first + Launched(|first|, Some(1), false),
          [Caller(Start, false, Gone), Caller(Restart, false, Gone)])
  }

  lemma RestartRun(fork: bool) returns (steps: seq<Step>)
    ensures Runs(Initial, steps) && Exec(Initial, steps) == Restarted(fork)
  {
    hide Runs, Exec, Apply, Enabled;
    var s := Started(fork);
    steps := FirstStart(fork);
    RestartArrives(s);
    RunsAppend(Initial, steps, [Arrive(Restart), Acquire(1), SendStop(1)]);
    steps := steps + [Arrive(Restart), Acquire(1), SendStop(1)];
    RootObeys(s, 0);
    RunsAppend(Initial, steps, [Die(0), SawStopped(1)]);
    steps := steps + [Die(0), SawStopped(1)];
    var first := [Proc(0, false, Some(0), true, false)] + if fork then [Proc(0, true, None, false, false)] else [];
    assert s.procs[0 := s.procs[0].(alive := false)] == first;
    var s1 := s.(procs := first);
    BootRuns(s1, Restart);
    RunsAppend(Initial, steps, BootSteps(1));
    steps := steps + BootSteps(1);
    assert KillJob(first, Some(0)) == first;
    var s2 := s1.(job := Some(1), nextJob := 2);
    LaunchRuns(s2, Restart, false);
    RunsAppend(Initial, steps, LaunchSteps(1, |first|, false));
    steps := steps + LaunchSteps(1, |first|, false);
    assert s2.callers + [Caller(Restart, false, Gone)] == Restarted(fork).callers;
  }

  /**
   Two trees: the first root forks before it is assigned to the job; the child
   survives the stop, the closing of the job and the next start.
   */
  lemma TwoTreesAlive() returns (steps: seq<Step>)
    ensures Runs(Initial, steps) && !OneTree(Exec(Initial, steps).procs)
  {
    steps := RestartRun(true);
    var procs := Restarted(true).procs;
    assert procs[1] == Proc(0, true, None, false, false) && procs[2] == Proc(2, true, Some(1), true, false);
  }

  /**
   A late wait(): the old root obeys the stop command, the restart publishes the new
   one, and only then does the old root's wait() clear the record. IsRunning then
   denies a living process.
   */
  lemma LateWaitHidesLiveProcess() returns (steps: seq<Step>)
    ensures Runs(Initial, steps)
    ensures var t := Exec(Initial, steps);
            && RecordRight(t) && Enabled(t, Reap(0)) && !Timely(t, 0)
            && IsRunning(t) && !IsRunning(Apply(t, Reap(0))) && SomeLiveRoot(Apply(t, Reap(0)).procs)
  {
    steps := RestartRun(false);
    hide Runs, Exec;
    var t := Restarted(false);
    assert t.procs[0] == Proc(0, false, Some(0), true, false) && t.procs[1] == Proc(1, true, Some(1), true, false);
    assert LiveRoot(t.procs, 1) && LiveRoot(Apply(t, Reap(0)).procs, 1);
  }
}
