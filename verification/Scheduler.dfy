/** The scheduler's tables edited in place; every routine is proved to take the step of
    the model, so what the model keeps over runs holds of the tables. */
module Scheduler {
  import opened SchedModel
  import SleepRuns

  class SchedulerTables {
    const procs: array<Process>
    const current: array<int>
    var tick: nat

    ghost function View(): Sched
      reads this, procs, current
    {
      Sched(procs[..], current[..], tick)
    }

    ghost predicate Valid()
      reads this, procs, current
    {
      procs.Length == MAX_PROCESSES && current.Length == MAX_CPUS && Inv(View())
    }

    /** All slots unused, every CPU idle. */
    constructor ()
      ensures Valid() && View().tick == 0
      ensures forall i: nat | i < MAX_PROCESSES :: View().procs[i].state == Unused
      ensures forall c: nat | c < MAX_CPUS :: View().current[c] == -1
    {
      var blank := Process(Unused, false, -1, DEFAULT_TIME_SLICE, 0, 0, 0, 0, Context(seq(GENERAL_REGS, _ => 0), 0, 0, 0, 0));
      procs := new Process[MAX_PROCESSES](_ => blank);
      current := new int[MAX_CPUS](_ => -1);
      tick := 0;
    }

    /** The scan over the process table. */
    method PickNext(cpu: Cpu) returns (best: int)
      requires procs.Length == MAX_PROCESSES
      ensures IsPick(procs[..], cpu, MAX_PROCESSES, best)
      ensures best == Pick(procs[..], cpu, MAX_PROCESSES)
    {
      best := -1;
      var bestKey := 0;
      for i := 0 to MAX_PROCESSES
        invariant best == Pick(procs[..], cpu, i)
        invariant best >= 0 ==> bestKey == procs[best].fairKey
      {
        if (procs[i].state == Ready || procs[i].state == Running) && (procs[i].cpu == -1 || procs[i].cpu == cpu) {
          var key := procs[i].fairKey;
          if best < 0 || key < bestKey {
            best := i;
            bestKey := key;
          }
        }
      }
    }

    /** A tick: sleepers whose deadline has come become ready, and nothing else changes. */
    method SchedulerTick()
      requires Valid()
      modifies this`tick, procs
      ensures Valid() && View() == Ticked(old(View()))
      ensures tick == (old(tick) + 1) % 0x1_0000_0000
      ensures forall i: nat | i < MAX_PROCESSES ::
                procs[i] == if old(procs[i]).state == Sleeping && 0 < old(procs[i]).sleepUntil <= tick
                            then old(procs[i]).(state := Ready) else old(procs[i])
    {
      tick := (tick + 1) % WORD32;
      var now := tick;
      ghost var target := Woken(old(procs[..]), now);
      for i := 0 to MAX_PROCESSES
        invariant tick == now
        invariant forall k: nat | k < i :: procs[k] == target[k]
        invariant forall k: nat | i <= k < MAX_PROCESSES :: procs[k] == old(procs[k])
      {
        if procs[i].state == Sleeping {
          if procs[i].sleepUntil != 0 && tick >= procs[i].sleepUntil {
            procs[i] := procs[i].(state := Ready);
          }
        }
      }
      assert procs[..] == target;
      forall c: Cpu ensures Owned(View(), c) {
        assert Owned(old(View()), c);
      }
    }

    /** The idle branch marks every running process ready, on whatever CPU it runs. */
    method ResetRunning()
      requires procs.Length == MAX_PROCESSES
      modifies procs
      ensures procs[..] == AllReady(old(procs[..]))
      ensures forall i: nat | i < MAX_PROCESSES ::
                procs[i] == if old(procs[i]).state == Running then old(procs[i]).(state := Ready) else old(procs[i])
    {
      for i := 0 to MAX_PROCESSES
        invariant forall k: nat | k < i :: procs[k] == AllReady(old(procs[..]))[k]
        invariant forall k: nat | i <= k < MAX_PROCESSES :: procs[k] == old(procs[k])
      {
        if procs[i].state == Running {
          procs[i] := procs[i].(state := Ready);
        }
      }
    }

    method LoadRegs(frame: array<nat>, regs: seq<nat>)
      requires frame.Length == FRAME_WORDS && |regs| == GENERAL_REGS
      modifies frame
      ensures frame[..] == regs + old(frame[GENERAL_REGS..])
    {
      for i := 0 to GENERAL_REGS
        invariant forall k: nat | k < FRAME_WORDS :: frame[k] == if k < i then regs[k] else old(frame[k])
      {
        frame[i] := regs[i];
      }
      assert frame[..] == regs + old(frame[GENERAL_REGS..]);
    }

    /** Writes a process's context over the interrupt frame. */
    method LoadContext(frame: array<nat>, p: Process)
      requires frame.Length == FRAME_WORDS && |p.ctx.regs| == GENERAL_REGS
      modifies frame
      ensures frame[..] == LoadFrame(old(frame[..]), p)
    {
      if !p.firstRun {
        LoadRegs(frame, p.ctx.regs);
      }
      frame[16] := p.ctx.rip;
      frame[17] := USER_CS;
      frame[18] := p.ctx.rflags;
      frame[19] := p.ctx.rsp;
      frame[20] := USER_SS;
    }

    /** The timer interrupt: `fs` is the FS base read from the CPU, `newFs` the one left in it. */
    method TimerHandler(cpu: Cpu, frame: array<nat>, fs: nat) returns (newFs: nat)
      requires Valid() && frame.Length == FRAME_WORDS
      modifies this`tick, procs, current, frame
      ensures Valid()
      ensures View() == Timer(old(View()), cpu, old(frame[..]), fs).s
      ensures frame[..] == Timer(old(View()), cpu, old(frame[..]), fs).frame
      ensures newFs == Timer(old(View()), cpu, old(frame[..]), fs).fs
    {
      TimerKeepsInv(View(), cpu, frame[..], fs);
      SchedulerTick();
      var cp := current[cpu];
      if !IsPid(cp) {
        newFs := TimerWhenIdle(cpu, frame, fs);
      } else {
        newFs := TimerWhenBusy(cpu, cp, frame, fs);
      }
    }

    method TimerWhenIdle(cpu: Cpu, frame: array<nat>, fs: nat) returns (newFs: nat)
      requires procs.Length == MAX_PROCESSES && current.Length == MAX_CPUS && Shape(View()) && frame.Length == FRAME_WORDS
      modifies procs, current, frame
      ensures View() == TimerIdle(old(View()), cpu, old(frame[..]), fs).s
      ensures frame[..] == TimerIdle(old(View()), cpu, old(frame[..]), fs).frame
      ensures newFs == TimerIdle(old(View()), cpu, old(frame[..]), fs).fs
    {
      var next := PickNext(cpu);
      if next < 0 {
        return fs;
      }
      ResetRunning();
      var p := procs[next];
      current[cpu] := next;
      procs[next] := p.(state := Running, timeSlice := DEFAULT_TIME_SLICE, cpu := cpu);
      newFs := p.ctx.fsBase;
      if p.firstRun {
        procs[next] := procs[next].(firstRun := false);
        return;
      }
      LoadContext(frame, p);
    }

    method TimerWhenBusy(cpu: Cpu, cp: nat, frame: array<nat>, fs: nat) returns (newFs: nat)
      requires procs.Length == MAX_PROCESSES && current.Length == MAX_CPUS && Shape(View()) && frame.Length == FRAME_WORDS
      requires IsPid(cp) && current[cpu] == cp
      modifies procs, current, frame
      ensures View() == TimerBusy(old(View()), cpu, cp, old(frame[..]), fs).s
      ensures frame[..] == TimerBusy(old(View()), cpu, cp, old(frame[..]), fs).frame
      ensures newFs == TimerBusy(old(View()), cpu, cp, old(frame[..]), fs).fs
    {
      Charge(cp, frame, fs);
      ghost var cur := Charged(old(procs[cp]), old(frame[..]), fs);
      if procs[cp].timeSlice > 0 && procs[cp].state == Running {
        return fs;
      }
      procs[cp] := procs[cp].(state := Ready);
      ghost var ready := old(procs[..])[cp := cur.(state := Ready)];
      assert procs[..] == ready;
      var next := PickNext(cpu);
      if next < 0 || next == cp {
        procs[cp] := procs[cp].(state := Running, timeSlice := DEFAULT_TIME_SLICE);
        assert procs[..] == old(procs[..])[cp := cur.(state := Running, timeSlice := DEFAULT_TIME_SLICE)];
        return fs;
      }
      newFs := SwitchIn(cpu, next, frame);
    }

    /** Saves the frame and charges the running process for one tick. */
    method Charge(cp: nat, frame: array<nat>, fs: nat)
      requires procs.Length == MAX_PROCESSES && frame.Length == FRAME_WORDS && IsPid(cp)
      modifies procs
      ensures procs[..] == old(procs[..])[cp := Charged(old(procs[cp]), frame[..], fs)]
    {
      procs[cp] := procs[cp].(ctx := Context(frame[..GENERAL_REGS], frame[16], frame[18], frame[19], fs));
      if procs[cp].timeSlice > 0 {
        procs[cp] := procs[cp].(timeSlice := procs[cp].timeSlice - 1);
      }
      var runtime := Word64(procs[cp].runtime + Delta(procs[cp].nice));
      procs[cp] := procs[cp].(runtime := runtime, fairKey := runtime);
    }

    /** Makes a process current and loads its context into the frame. */
    method SwitchIn(cpu: Cpu, next: nat, frame: array<nat>) returns (newFs: nat)
      requires procs.Length == MAX_PROCESSES && current.Length == MAX_CPUS && frame.Length == FRAME_WORDS
      requires IsPid(next) && |procs[next].ctx.regs| == GENERAL_REGS
      modifies procs, current, frame
      ensures View() == SwitchTo(old(View()), old(procs[..]), cpu, next)
      ensures frame[..] == LoadFrame(old(frame[..]), old(procs[next])) && newFs == old(procs[next].ctx.fsBase)
    {
      var p := procs[next];
      current[cpu] := next;
      procs[next] := p.(state := Running, timeSlice := DEFAULT_TIME_SLICE, cpu := cpu);
      newFs := p.ctx.fsBase;
      LoadContext(frame, p);
      procs[next] := procs[next].(firstRun := false);
    }

    /** Gives up the CPU and takes the next process; with none to take the CPU stays idle and
        the caller waits and tries again. */
    method Schedule(cpu: Cpu, ctx: Context) returns (next: int)
      requires Valid() && |ctx.regs| == GENERAL_REGS
      modifies procs, current
      ensures Valid() && View() == TakeOver(Release(old(View()), cpu, ctx), cpu)
      ensures next == View().current[cpu]
      ensures next >= 0 ==> procs[next].state == Running && procs[next].timeSlice == 10 && procs[next].cpu == cpu
      ensures next < 0 ==> next == -1 && forall i: nat | i < MAX_PROCESSES :: !Eligible(procs[i], cpu)
      ensures forall i: nat | i < MAX_PROCESSES && i != next ::
                procs[i] == if i == old(current[cpu]) && old(procs[i]).state == Running
                            then old(procs[i]).(ctx := ctx, state := Ready) else old(procs[i])
      ensures forall c: Cpu | c != cpu :: current[c] == old(current[c])
    {
      StepKeepsInv(View(), StepRelease(cpu, ctx));
      var prev := current[cpu];
      assert Owned(View(), cpu);
      if prev >= 0 && procs[prev].state == Running {
        procs[prev] := procs[prev].(ctx := ctx);
        procs[prev] := procs[prev].(state := Ready);
      }
      current[cpu] := -1;
      assert View() == Release(old(View()), cpu, ctx);
      next := Resume(cpu);
    }

    /** The waiting half of scheduling, which may also run again later. */
    method Resume(cpu: Cpu) returns (next: int)
      requires Valid()
      modifies procs, current
      ensures Valid() && View() == TakeOver(old(View()), cpu)
      ensures next == View().current[cpu]
    {
      StepKeepsInv(View(), StepTakeOver(cpu));
      next := PickNext(cpu);
      if next < 0 {
        return current[cpu];
      }
      current[cpu] := next;
      procs[next] := procs[next].(state := Running, timeSlice := DEFAULT_TIME_SLICE, cpu := cpu);
      if procs[next].firstRun {
        procs[next] := procs[next].(firstRun := false);
      }
      assert View() == TakeOver(old(View()), cpu);
    }

    method ProcessExit(cpu: Cpu, ctx: Context) returns (next: int)
      requires Valid() && |ctx.regs| == GENERAL_REGS
      modifies procs, current
      ensures Valid() && View() == TakeOver(Release(Exit(old(View()), cpu), cpu, ctx), cpu)
      ensures IsPid(old(current[cpu])) ==>
                procs[old(current[cpu])].state == Unused && forall c: Cpu :: current[c] != old(current[cpu])
      ensures forall i: nat | i < MAX_PROCESSES && i != old(current[cpu]) && i != current[cpu] :: procs[i] == old(procs[i])
    {
      StepKeepsInv(View(), StepExit(cpu));
      InvExclusive(View());
      var cp := current[cpu];
      if IsPid(cp) {
        procs[cp] := procs[cp].(state := Unused);
        current[cpu] := -1;
      }
      assert View() == Exit(old(View()), cpu);
      next := Schedule(cpu, ctx);
    }

    method Sleep(cpu: Cpu, ms: nat, saved: Context, ctx: Context) returns (next: int)
      requires Valid() && |saved.regs| == GENERAL_REGS && |ctx.regs| == GENERAL_REGS
      modifies procs, current
      ensures Valid()
      ensures View() == if !IsPid(old(current[cpu])) then old(View())
                        else TakeOver(Release(Leave(old(View()), cpu, Sleeping, saved, (old(tick) + ms) % WORD32), cpu, ctx), cpu)
      ensures IsPid(old(current[cpu])) ==>
                && procs[old(current[cpu])] == old(procs[current[cpu]]).(state := Sleeping, ctx := saved,
                                                                        sleepUntil := (tick + ms) % 0x1_0000_0000)
                && SleepRuns.Away(View(), old(current[cpu]), Sleeping, (tick + ms) % 0x1_0000_0000)
      ensures forall i: nat | i < MAX_PROCESSES && i != old(current[cpu]) && i != current[cpu] :: procs[i] == old(procs[i])
    {
      if !IsPid(current[cpu]) {
        return current[cpu];
      }
      StepKeepsInv(View(), StepLeave(cpu, Sleeping, saved, (tick + ms) % WORD32));
      InvExclusive(View());
      var cp := current[cpu];
      procs[cp] := procs[cp].(ctx := saved);
      procs[cp] := procs[cp].(sleepUntil := (tick + ms) % WORD32);
      procs[cp] := procs[cp].(state := Sleeping);
      assert View() == Leave(old(View()), cpu, Sleeping, saved, (tick + ms) % WORD32);
      next := Schedule(cpu, ctx);
    }

    method BlockCurrent(cpu: Cpu, saved: Context, ctx: Context) returns (next: int)
      requires Valid() && |saved.regs| == GENERAL_REGS && |ctx.regs| == GENERAL_REGS
      modifies procs, current
      ensures Valid()
      ensures View() == if !IsPid(old(current[cpu])) then old(View())
                        else TakeOver(Release(Leave(old(View()), cpu, Blocked, saved, old(procs[current[cpu]].sleepUntil)), cpu, ctx), cpu)
      ensures IsPid(old(current[cpu])) ==>
                && procs[old(current[cpu])] == old(procs[current[cpu]]).(state := Blocked, ctx := saved)
                && SleepRuns.Away(View(), old(current[cpu]), Blocked, old(procs[current[cpu]].sleepUntil))
      ensures forall i: nat | i < MAX_PROCESSES && i != old(current[cpu]) && i != current[cpu] :: procs[i] == old(procs[i])
    {
      if !IsPid(current[cpu]) {
        return current[cpu];
      }
      var cp := current[cpu];
      StepKeepsInv(View(), StepLeave(cpu, Blocked, saved, procs[cp].sleepUntil));
      InvExclusive(View());
      procs[cp] := procs[cp].(ctx := saved);
      procs[cp] := procs[cp].(state := Blocked);
      assert View() == Leave(old(View()), cpu, Blocked, saved, old(procs[current[cpu]].sleepUntil));
      next := Schedule(cpu, ctx);
    }

    method ProcessWake(pid: int)
      requires Valid()
      modifies procs
      ensures Valid() && View() == Wake(old(View()), pid)
      ensures forall i: nat | i < MAX_PROCESSES ::
                procs[i] == if i == pid && old(procs[i]).state == Blocked then old(procs[i]).(state := Ready) else old(procs[i])
    {
      StepKeepsInv(View(), StepWake(pid));
      if IsPid(pid) && procs[pid].state == Blocked {
        procs[pid] := procs[pid].(state := Ready);
      }
      assert View() == Wake(old(View()), pid);
    }

    method ScheduleReady(pid: int)
      requires Valid()
      modifies procs
      ensures Valid() && View() == AddReady(old(View()), pid)
      ensures forall i: nat | i < MAX_PROCESSES :: procs[i] == if i == pid then old(procs[i]).(state := Ready) else old(procs[i])
    {
      StepKeepsInv(View(), StepAddReady(pid));
      if IsPid(pid) {
        procs[pid] := procs[pid].(state := Ready);
      }
      assert View() == AddReady(old(View()), pid);
    }

    /** Claims the lowest unused slot. */
    method ProcessCreate(rip: nat, rsp: nat, granted: bool) returns (slot: int)
      requires Valid()
      modifies procs
      ensures Valid() && View() == Create(old(View()), rip, rsp, granted)
      ensures slot == if granted then FreeSlot(old(procs[..]), 0) else -1
      ensures slot >= 0 ==> old(procs[slot]).state == Unused && forall i: nat | i < slot :: procs[i].state != Unused
      ensures slot >= 0 ==>
                procs[slot] == Process(Ready, true, -1, 10, 0, 0, 0, 0, old(procs[slot]).ctx.(rip := rip, rsp := rsp, rflags := 0x202))
      ensures granted && slot < 0 ==> forall i: nat | i < MAX_PROCESSES :: procs[i].state != Unused
      ensures forall i: nat | i < MAX_PROCESSES && i != slot :: procs[i] == old(procs[i])
    {
      StepKeepsInv(View(), StepCreate(rip, rsp, granted));
      var i := 0;
      while i < MAX_PROCESSES && procs[i].state != Unused
        invariant 0 <= i <= MAX_PROCESSES
        invariant FreeSlot(procs[..], 0) == FreeSlot(procs[..], i)
      {
        i := i + 1;
      }
      if i >= MAX_PROCESSES || !granted {
        return -1;
      }
      procs[i] := Process(Ready, true, -1, DEFAULT_TIME_SLICE, 0, 0, 0, 0,
                          procs[i].ctx.(rip := rip, rsp := rsp, rflags := 0x202));
      assert View() == Create(old(View()), rip, rsp, granted);
      return i;
    }
  }
}
