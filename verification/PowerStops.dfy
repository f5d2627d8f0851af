/**
 What a kill and a stop achieve in the power protocol: which processes survive
 `Terminate` (environment/winproc/power.go), and that a stop or restart goes on only
 once the recorded process is gone.
 */
module PowerStops {
  import opened Power

  // ---------------------------------------------------------------------
  // Terminate
  // ---------------------------------------------------------------------

  /**
   Terminating a job kills its members and nobody else: a process is alive afterwards
   exactly if it was alive before and is not in the job that the caller had read.
   */
  lemma TerminateKillsExactly(s: State, c: nat, p: Pid)
    requires Enabled(s, TerminateJob(c)) && p < |s.procs|
    ensures var t, job := Apply(s, TerminateJob(c)), s.callers[c].pc.job;
            && |t.procs| == |s.procs|
            && (t.procs[p].alive <==> s.procs[p].alive && (job.None? || s.procs[p].job != job))
            && t.procs[p].(alive := s.procs[p].alive) == s.procs[p]
            && t.job == s.job && t.cmd == s.cmd
  {
  }

  /**
   At any moment of any run: where the job is still the current one, only processes
   that are in no job survive, which are those forked early and the root being started.
   */
  lemma {:induction false} TerminateLeavesTheJobless(steps: seq<Step>, c: nat, p: Pid)
    requires Runs(Initial, steps) && Enabled(Exec(Initial, steps), TerminateJob(c))
    requires var s := Exec(Initial, steps);
             s.callers[c].pc.job.Some? && s.callers[c].pc.job == s.job && p < |s.procs|
    ensures var s := Exec(Initial, steps);
            Apply(s, TerminateJob(c)).procs[p].alive ==>
              s.procs[p].job.None? && (Early(p, s.procs[p]) || Somewhere(s.callers, Spawned(p)))
  {
    var s := Exec(Initial, steps);
    InitialIsSafe();
    RunsStaySafe(Initial, steps);
    hide Runs, Exec;
    TerminateKillsExactly(s, c, p);
    if s.procs[p].alive {
      HousedIn(s, p);
    }
  }

  /** While there is a current job, a living process is in it or in none. */
  lemma HousedIn(s: State, p: Pid)
    requires Safe(s) && s.job.Some? && p < |s.procs| && s.procs[p].alive
    ensures s.procs[p].job.Some? ==> s.procs[p].job == s.job
    ensures s.procs[p].job.None? ==> Early(p, s.procs[p]) || Somewhere(s.callers, Spawned(p))
  {
    forall i | 0 <= i < |s.callers| ensures !s.callers[i].pc.Detached? {
      BootInvAt(s, i);
    }
    assert Housed(s.job, s.callers, p, s.procs[p]);
  }

  /** A kill is never kept waiting: with the lock if it is free and without it if not, it goes on at once. */
  lemma KillGetsThrough(s: State, c: nat)
    requires At(s, c, Arrived) && s.callers[c].action == Kill
    ensures Enabled(s, Acquire(c)) || Enabled(s, PassThrough(c))
    ensures !Enabled(s, Refuse(c))
    ensures forall step :: step in {Acquire(c), PassThrough(c)} && Enabled(s, step) ==>
              var t := Apply(s, step);
              At(t, c, Entered) && t.callers[c].action == Kill && t.procs == s.procs && t.job == s.job && t.cmd == s.cmd
  {
  }

  /** A kill of a running server, undisturbed: every process in the server's job is dead afterwards, all others are as before. */
  lemma KillTakesEffect(s: State, c: nat, p: Pid)
    requires At(s, c, Entered) && s.callers[c].action == Kill && s.cmd.Some? && p < |s.procs|
    ensures Enabled(s, BeginTerminate(c)) && Enabled(Apply(s, BeginTerminate(c)), TerminateJob(c))
    ensures var t := Apply(Apply(s, BeginTerminate(c)), TerminateJob(c));
            && p < |t.procs| && At(t, c, Leaving)
            && (t.procs[p].alive <==> s.procs[p].alive && (s.job.None? || s.procs[p].job != s.job))
  {
    var u := Apply(s, BeginTerminate(c));
    assert u.callers[c].pc == Terminating(s.job, false) && u.procs == s.procs;
    TerminateKillsExactly(u, c, p);
  }

  /** A start that finds the recorded process running can only leave, and touches no process and no job. */
  lemma RunningIsLeftAlone(s: State, c: nat, step: Step)
    requires At(s, c, Booting) && IsRunning(s) && Enabled(s, step)
    requires !step.Arrive? && !step.Fork? && !step.Die? && !step.Reap? && step.c == c
    ensures var t := Apply(s, step);
            At(t, c, Leaving) && t.procs == s.procs && t.job == s.job && t.cmd == s.cmd
  {
  }

  // ---------------------------------------------------------------------
  // Who starts and who stops
  // ---------------------------------------------------------------------

  ghost predicate Boots(pc: Pc) {
    pc == PreBoot || pc == Booting || pc == NotRunning || Booter(pc)
  }

  /** Only a start or restart boots, only a stop or restart waits, and a caller with the lock terminates the current job. */
  ghost predicate RoleInv(job: Option<JobId>, c: Caller) {
    && (Boots(c.pc) ==> c.action == Start || c.action == Restart)
    && (c.pc == StopWaiting ==> c.action == Stop || c.action == Restart)
    && (c.pc.Terminating? && c.action != Kill ==> c.pc.job == job)
    && (c.pc.Terminating? ==> c.action != Start)
  }

  ghost predicate RolesInv(job: Option<JobId>, cs: seq<Caller>) {
    forall i :: 0 <= i < |cs| ==> RoleInv(job, cs[i])
  }

  /** The record names a published root, and published processes have been assigned to a job. */
  ghost predicate PublishedInv(s: State) {
    && Names(s.cmd, s.procs)
    && forall p :: 0 <= p < |s.procs| && s.procs[p].published ==> s.procs[p].job.Some?
  }

  ghost predicate Sound(s: State) {
    Safe(s) && RolesInv(s.job, s.callers) && PublishedInv(s)
  }

  lemma MoverKeepsRole(s: State, step: Step)
    requires Enabled(s, step) && CallerStep(step)
    requires RoleInv(s.job, s.callers[step.c])
    ensures RoleInv(JobAfter(s, step), s.callers[step.c].(pc := NextPc(s, step)))
  {
  }

  /** The job changes hands only while no stop or restart is terminating it. */
  lemma OthersKeepRole(s: State, step: Step, i: nat)
    requires LockInv(s.locked, s.callers) && Enabled(s, step) && CallerStep(step)
    requires i < |s.callers| && i != step.c && RoleInv(s.job, s.callers[i])
    ensures RoleInv(JobAfter(s, step), s.callers[i])
  {
    hide LockInv;
    CallerInvAt(s.locked, s.callers, i);
    CallerInvAt(s.locked, s.callers, step.c);
    if JobAfter(s, step) != s.job && s.callers[i].holds {
      OneHolder(s.locked, s.callers, i, step.c);
    }
  }

  lemma StepKeepsRoles(s: State, step: Step)
    requires Safe(s) && RolesInv(s.job, s.callers) && Enabled(s, step)
    ensures RolesInv(Apply(s, step).job, Apply(s, step).callers)
  {
    hide LockInv, ProcInv, RoleInv, NextPc, JobAfter, ProcsAfter, CmdAfter;
    var t := Apply(s, step);
    if CallerStep(step) {
      MoverKeepsRole(s, step);
      forall i | 0 <= i < |t.callers| ensures RoleInv(t.job, t.callers[i]) {
        if i != step.c {
          OthersKeepRole(s, step, i);
        }
      }
    } else {
      forall i | 0 <= i < |t.callers| ensures RoleInv(t.job, t.callers[i]) {
        LockStepsKeepRole(s, step, i);
      }
    }
  }

  lemma LockStepsKeepRole(s: State, step: Step, i: nat)
    requires Enabled(s, step) && !CallerStep(step) && RolesInv(s.job, s.callers)
    requires i < |Apply(s, step).callers|
    ensures RoleInv(Apply(s, step).job, Apply(s, step).callers[i])
  {
  }

  lemma BirthKeepsPublished(s: State, step: Step)
    requires Safe(s) && PublishedInv(s) && Enabled(s, step)
    requires step.Spawn? || step.Assign? || step.Fork? || step.Publish?
    ensures PublishedInv(Apply(s, step))
  {
    var t := Apply(s, step);
    if step.Fork? || step.Spawn? {
      assert forall p :: 0 <= p < |s.procs| ==> t.procs[p] == s.procs[p];
    } else {
      BootInvAt(s, step.c);
    }
  }

  lemma StepKeepsPublished(s: State, step: Step)
    requires Safe(s) && PublishedInv(s) && Enabled(s, step)
    ensures PublishedInv(Apply(s, step))
  {
    hide Safe, Apply, Enabled;
    if step.Spawn? || step.Assign? || step.Fork? || step.Publish? {
      BirthKeepsPublished(s, step);
    } else {
      KillsLeavePublished(s, step);
      if step.Reap? {
        ReapClears(s, step.pid);
      }
    }
  }

  lemma ReapClears(s: State, p: Pid)
    requires Enabled(s, Reap(p))
    ensures Apply(s, Reap(p)).cmd.None?
  {
  }

  lemma {:induction false} RunsStaySound(s: State, steps: seq<Step>)
    requires Sound(s) && Runs(s, steps)
    ensures Sound(Exec(s, steps))
    decreases |steps|
  {
    hide Safe, RolesInv, PublishedInv, Enabled, Apply;
    if steps != [] {
      StepKeepsSafe(s, steps[0]);
      StepKeepsRoles(s, steps[0]);
      StepKeepsPublished(s, steps[0]);
      RunsStaySound(Apply(s, steps[0]), steps[1..]);
    }
  }

  lemma InitialIsSound()
    ensures Sound(Initial)
  {
    InitialIsSafe();
  }

  /** In every run a process is spawned by a start or a restart only. */
  lemma {:induction false} OnlyStartersSpawn(steps: seq<Step>, c: nat)
    requires Runs(Initial, steps) && Enabled(Exec(Initial, steps), Spawn(c))
    ensures Exec(Initial, steps).callers[c].action in {Start, Restart}
  {
    InitialIsSound();
    RunsStaySound(Initial, steps);
  }

  /** The steps by which a stop or restart considers the process stopped. */
  ghost predicate ConsidersStopped(s: State, step: Step)
    requires Enabled(s, step)
  {
    || step.SawStopped?
    || (step.BeginTerminate? && s.callers[step.c].pc == StopWaiting && s.cmd.None?)
    || (step.TerminateJob? && s.callers[step.c].action != Kill && s.callers[step.c].pc.timedOut)
  }

  /** These, and an error return, are the only ways past the waiting. */
  lemma WaysPastWaiting(s: State, step: Step)
    requires Enabled(s, step) && CallerStep(step) && s.callers[step.c].action in {Stop, Restart}
    requires s.callers[step.c].pc in {Entered, StopWaiting} || s.callers[step.c].pc.Terminating?
    ensures NextPc(s, step) in {Leaving, PreBoot} ==> step.Fail? || ConsidersStopped(s, step)
    ensures ConsidersStopped(s, step) ==> NextPc(s, step) == if s.callers[step.c].action == Restart then PreBoot else Leaving
  {
  }

  lemma TerminatedRootIsDead(s: State, c: nat)
    requires Sound(s) && Enabled(s, TerminateJob(c)) && s.callers[c].action != Kill
    ensures !IsRunning(Apply(s, TerminateJob(c)))
  {
    if s.cmd.Some? && s.procs[s.cmd.value].alive {
      var r := s.cmd.value;
      assert RoleInv(s.job, s.callers[c]);
      TerminateKillsExactly(s, c, r);
      PublishedIsInJob(s, c, r);
    }
  }

  /** While a caller with the lock terminates, no job is being closed, so the published root is in the current one. */
  lemma PublishedIsInJob(s: State, c: nat, r: Pid)
    requires Sound(s) && c < |s.callers| && s.callers[c].pc.Terminating? && s.callers[c].action != Kill
    requires r < |s.procs| && s.procs[r].alive && s.procs[r].published
    ensures s.procs[r].job.Some? && s.procs[r].job == s.job
  {
    CallerInvAt(s.locked, s.callers, c);
    forall i | 0 <= i < |s.callers| ensures !s.callers[i].pc.Detached? {
      CallerInvAt(s.locked, s.callers, i);
      if i != c {
        OneHolder(s.locked, s.callers, c, i);
      }
    }
    assert Housed(s.job, s.callers, r, s.procs[r]);
  }

  /**
   In every run a stop or restart gets past its waiting, other than by an error, only
   at a moment at which no recorded process is running.
   */
  lemma {:induction false} StopMeansStopped(steps: seq<Step>, step: Step)
    requires Runs(Initial, steps) && Enabled(Exec(Initial, steps), step)
    requires ConsidersStopped(Exec(Initial, steps), step)
    ensures !IsRunning(Apply(Exec(Initial, steps), step))
  {
    var s := Exec(Initial, steps);
    InitialIsSound();
    RunsStaySound(Initial, steps);
    hide Runs, Exec, Sound;
    if step.TerminateJob? {
      TerminatedRootIsDead(s, step.c);
    }
  }
}
