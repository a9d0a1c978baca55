/** Sleeping and blocking over runs: a process that has gone to sleep stays off every CPU until its
    deadline and is up at the tick that reaches it; one that has blocked stays so until it is woken. */
module SleepRuns {
  import opened SchedModel

  /** Process `p` has left the CPU with the given state. */
  ghost predicate Away(s: Sched, p: nat, state: State, until: nat)
  {
    && Inv(s) && IsPid(p) && s.procs[p].state == state && s.procs[p].sleepUntil == until
    && forall cpu: Cpu :: s.current[cpu] != p
  }

  /** Process `p` may run, or runs. */
  predicate Up(s: Sched, p: nat)
    requires p < |s.procs|
  {
    s.procs[p].state == Ready || s.procs[p].state == Running
  }

  /** The ticks of a run. */
  function Timers(steps: seq<Step>): nat
  {
    if steps == [] then 0 else Timers(steps[..|steps| - 1]) + if steps[|steps| - 1].StepTimer? then 1 else 0
  }

  /** What a tick does to the slot of a process that is on no CPU. */
  lemma TimerOffCpu(s: Sched, p: nat, cpu: Cpu, frame: Frame, fs: nat)
    requires Inv(s) && IsPid(p) && (forall c: Cpu :: s.current[c] != p) && s.procs[p].state != Running
    ensures var t := Timer(s, cpu, frame, fs).s;
            && Inv(t) && t.tick == (s.tick + 1) % 0x1_0000_0000
            && (t.current[cpu] != p ==> t.procs[p] == WokenAt(s.procs[p], t.tick) && forall c: Cpu :: t.current[c] != p)
            && (t.current[cpu] == p ==> t.procs[p].state == Running && Eligible(WokenAt(s.procs[p], t.tick), cpu))
  {
    TimerKeepsInv(s, cpu, frame, fs);
    TickedShape(s);
    assert Owned(s, cpu);
    if IsPid(s.current[cpu]) {
      BusyFields(s, cpu, frame, fs);
    } else {
      IdleFields(s, cpu, frame, fs);
    }
  }

  lemma TimerSleeper(s: Sched, p: nat, until: nat, cpu: Cpu, frame: Frame, fs: nat)
    requires Away(s, p, Sleeping, until) && s.tick < until < WORD32
    ensures var t := Timer(s, cpu, frame, fs).s;
            && t.tick == s.tick + 1
            && (t.tick < until ==> Away(t, p, Sleeping, until))
            && (t.tick == until ==> Up(t, p))
  {
    TimerOffCpu(s, p, cpu, frame, fs);
  }

  lemma OtherSleeper(s: Sched, p: nat, state: State, until: nat, step: Step)
    requires Away(s, p, state, until) && (state == Sleeping || state == Blocked) && Legal(step) && !step.StepTimer?
    requires step != StepAddReady(p) && (state == Blocked ==> step != StepWake(p))
    ensures Away(After(s, step), p, state, until) && After(s, step).tick == s.tick
  {
    StepKeepsInv(s, step);
    if step.StepTakeOver? {
      assert !Eligible(s.procs[p], step.cpu);
    }
  }

  /** A process asleep with a deadline ahead stays asleep and off every CPU through any run with
      fewer ticks than are missing, unless somebody makes it ready. */
  lemma {:induction false} SleepsUntil(s: Sched, steps: seq<Step>, p: nat, until: nat)
    requires Away(s, p, Sleeping, until) && until < WORD32 && StepAddReady(p) !in steps
    requires (forall step <- steps :: Legal(step)) && s.tick + Timers(steps) < until
    ensures Away(Run(s, steps), p, Sleeping, until) && Run(s, steps).tick == s.tick + Timers(steps)
  {
    if steps != [] {
      var n := |steps| - 1;
      var before := steps[..n];
      SleepsUntil(s, before, p, until);
      var last := steps[n];
      if last.StepTimer? {
        TimerSleeper(Run(s, before), p, until, last.cpu, last.frame, last.fs);
      } else {
        OtherSleeper(Run(s, before), p, Sleeping, until, last);
      }
    }
  }

  /** The tick that reaches the deadline finds it ready, or dispatches it at once. */
  lemma WakesAt(s: Sched, steps: seq<Step>, p: nat, until: nat)
    requires Away(s, p, Sleeping, until) && until < WORD32 && StepAddReady(p) !in steps
    requires (forall step <- steps :: Legal(step)) && s.tick + Timers(steps) == until
    requires steps != [] && steps[|steps| - 1].StepTimer?
    ensures Up(Run(s, steps), p) && Run(s, steps).tick == until
  {
    var n := |steps| - 1;
    SleepsUntil(s, steps[..n], p, until);
    TimerSleeper(Run(s, steps[..n]), p, until, steps[n].cpu, steps[n].frame, steps[n].fs);
  }

  // ---------------------------------------------------------------- deadlines that wrap

  /** The `n`-th tick from `tick` on wakes a sleeper with this deadline. */
  predicate DueAt(tick: nat, until: nat, n: nat)
  {
    until != 0 && (tick + n) % 0x1_0000_0000 >= until
  }

  /** None of the first `n` ticks does. */
  ghost predicate NoneDue(tick: nat, until: nat, n: nat)
  {
    forall k: nat | 0 < k <= n :: !DueAt(tick, until, k)
  }

  /** Process `p` is asleep, `n` ticks after `tick`. */
  ghost predicate Asleep(s: Sched, p: nat, until: nat, tick: nat, n: nat)
  {
    Away(s, p, Sleeping, until) && s.tick == (tick + n) % 0x1_0000_0000
  }

  /** A sleeper at tick `n + 1`: up if that is due, asleep otherwise. */
  lemma SleeperTick(tick: nat, n: nat, s: Sched, p: nat, until: nat, cpu: Cpu, frame: Frame, fs: nat)
    requires Asleep(s, p, until, tick, n)
    ensures var t := After(s, StepTimer(cpu, frame, fs));
            if DueAt(tick, until, n + 1) then p < |t.procs| && Up(t, p) else Asleep(t, p, until, tick, n + 1)
  {
    NextDue(tick, s.tick, until, n);
    TimerOffCpu(s, p, cpu, frame, fs);
  }

  /** A sleeper with any deadline stays asleep through the ticks before the first that is due. */
  lemma {:induction false} SleepsWhileNotDue(s: Sched, steps: seq<Step>, p: nat, until: nat)
    requires Away(s, p, Sleeping, until) && s.tick < WORD32 && StepAddReady(p) !in steps
    requires forall step <- steps :: Legal(step)
    requires NoneDue(s.tick, until, Timers(steps))
    ensures Asleep(Run(s, steps), p, until, s.tick, Timers(steps))
  {
    if steps != [] {
      var before, last := steps[..|steps| - 1], steps[|steps| - 1];
      var n := Timers(before);
      assert last.StepTimer? ==> !DueAt(s.tick, until, n + 1);
      SleepsWhileNotDue(s, before, p, until);
      SleeperStep(s.tick, n, Run(s, before), p, until, last);
    }
  }

  lemma SleeperStep(tick: nat, n: nat, s: Sched, p: nat, until: nat, step: Step)
    requires Asleep(s, p, until, tick, n) && Legal(step) && step != StepAddReady(p)
    requires step.StepTimer? ==> !DueAt(tick, until, n + 1)
    ensures Asleep(After(s, step), p, until, tick, if step.StepTimer? then n + 1 else n)
  {
    if step.StepTimer? {
      SleeperTick(tick, n, s, p, until, step.cpu, step.frame, step.fs);
    } else {
      OtherSleeper(s, p, Sleeping, until, step);
    }
  }

  /** The tick after `n` ticks, seen from there. */
  lemma NextDue(tick: nat, now: nat, until: nat, n: nat)
    requires now == (tick + n) % 0x1_0000_0000
    ensures DueAt(tick, until, n + 1) <==> 0 < until <= (now + 1) % 0x1_0000_0000
    ensures (now + 1) % 0x1_0000_0000 == (tick + (n + 1)) % 0x1_0000_0000
  {
  }

  /** The first tick that is due finds it ready, or dispatches it at once. */
  lemma WakesWhenDue(s: Sched, before: seq<Step>, p: nat, until: nat, cpu: Cpu, frame: Frame, fs: nat)
    requires Away(s, p, Sleeping, until) && s.tick < WORD32 && StepAddReady(p) !in before
    requires forall step <- before :: Legal(step)
    requires NoneDue(s.tick, until, Timers(before)) && DueAt(s.tick, until, Timers(before) + 1)
    ensures Up(After(Run(s, before), StepTimer(cpu, frame, fs)), p)
  {
    SleepsWhileNotDue(s, before, p, until);
    SleeperTick(s.tick, Timers(before), Run(s, before), p, until, cpu, frame, fs);
  }

  /** A sleep of `ms` begun at `tick` lasts exactly `ms` ticks. */
  ghost predicate LastsExactly(tick: nat, ms: nat)
  {
    var until := (tick + ms) % 0x1_0000_0000;
    ms > 0 && DueAt(tick, until, ms) && NoneDue(tick, until, ms - 1)
  }

  /** It does so if and only if `ms` is not 0 and the sum of tick and `ms` stays within 32 bits, or
      the next tick wraps itself and `ms` is not 1.  A sum that comes to 0 is never due; one that
      wraps otherwise is due at the next tick. */
  lemma LastsExactlyIff(tick: nat, ms: nat)
    requires tick < 0x1_0000_0000 && ms < 0x1_0000_0000
    ensures LastsExactly(tick, ms) <==> ms > 0 && (tick + ms < 0x1_0000_0000 || (tick == 0xFFFF_FFFF && ms != 1))
  {
    var until := (tick + ms) % 0x1_0000_0000;
    if ms > 0 && tick + ms < 0x1_0000_0000 {
      forall k: nat | 0 < k < ms ensures !DueAt(tick, until, k) {
      }
    } else if ms > 1 && tick == 0xFFFF_FFFF {
      assert until == ms - 1;
      forall k: nat | 0 < k < ms ensures !DueAt(tick, until, k) {
        assert (tick + k) % 0x1_0000_0000 == k - 1;
      }
    } else if ms > 1 && until != 0 {
      assert DueAt(tick, until, 1);
    }
  }

  /** A sleep whose sum comes to 0 outlasts every run, unless somebody makes the process ready. */
  lemma SleepsForever(s: Sched, steps: seq<Step>, p: nat)
    requires Away(s, p, Sleeping, 0) && s.tick < WORD32 && StepAddReady(p) !in steps
    requires forall step <- steps :: Legal(step)
    ensures Away(Run(s, steps), p, Sleeping, 0)
  {
    SleepsWhileNotDue(s, steps, p, 0);
  }

  /** One that wraps to another number ends at the next tick, if that does not wrap. */
  lemma WrappedSleepEnds(s: Sched, p: nat, ms: nat, cpu: Cpu, frame: Frame, fs: nat)
    requires s.tick < 0xFFFF_FFFF && ms < 0x1_0000_0000 && s.tick + ms > 0x1_0000_0000
    requires Away(s, p, Sleeping, (s.tick + ms) % 0x1_0000_0000)
    ensures Up(After(s, StepTimer(cpu, frame, fs)), p)
  {
    TimerOffCpu(s, p, cpu, frame, fs);
  }

  lemma TimerBlocked(s: Sched, p: nat, until: nat, cpu: Cpu, frame: Frame, fs: nat)
    requires Away(s, p, Blocked, until)
    ensures Away(Timer(s, cpu, frame, fs).s, p, Blocked, until)
  {
    TimerOffCpu(s, p, cpu, frame, fs);
  }

  /** A blocked process stays blocked through any run in which nobody wakes it or makes it ready,
      and a wake makes it ready. */
  lemma {:induction false} BlockedUntilWake(s: Sched, steps: seq<Step>, p: nat, until: nat)
    requires Away(s, p, Blocked, until) && StepAddReady(p) !in steps && StepWake(p) !in steps
    requires forall step <- steps :: Legal(step)
    ensures Away(Run(s, steps), p, Blocked, until)
    ensures After(Run(s, steps), StepWake(p)).procs[p] == Run(s, steps).procs[p].(state := Ready)
  {
    if steps != [] {
      var n := |steps| - 1;
      BlockedUntilWake(s, steps[..n], p, until);
      var last := steps[n];
      if last.StepTimer? {
        TimerBlocked(Run(s, steps[..n]), p, until, last.cpu, last.frame, last.fs);
      } else {
        OtherSleeper(Run(s, steps[..n]), p, Blocked, until, last);
      }
    }
  }

  /** A tick on the CPU of a process that has been marked as leaving but has not yet given up the CPU
      undoes the mark: it is ready or running again, whatever its deadline. */
  lemma TickBeforeRelease(s: Sched, cpu: Cpu, frame: Frame, fs: nat)
    requires Inv(s) && IsPid(s.current[cpu])
    ensures Up(Timer(s, cpu, frame, fs).s, s.current[cpu])
  {
    BusyFields(s, cpu, frame, fs);
  }

  /** An exited process's slot is free, and the next creation takes the lowest free one. */
  lemma ExitedSlotIsFree(s: Sched, cpu: Cpu, rip: nat, rsp: nat)
    requires Inv(s) && IsPid(s.current[cpu])
    ensures var p, t := s.current[cpu], After(s, StepExit(cpu));
            && t.procs[p] == s.procs[p].(state := Unused) && t.current[cpu] == -1
            && 0 <= FreeSlot(t.procs, 0) <= p
            && After(t, StepCreate(rip, rsp, true)).procs[FreeSlot(t.procs, 0)].state == Ready
  {
  }
}
