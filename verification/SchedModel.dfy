/** The scheduler as a step system on values: who is current on which CPU, the saved
    contexts, and what every interleaving of steps keeps. */
module SchedModel {

  const MAX_PROCESSES: nat := 16
  const MAX_CPUS: nat := 8
  const DEFAULT_TIME_SLICE: nat := 10
  const USER_CS: nat := 0x2B
  const USER_SS: nat := 0x33
  const WORD32: nat := 0x1_0000_0000
  const WORD64: nat := 0x1_0000_0000_0000_0000

  /** What a 64-bit counter keeps of a number. */
  function Word64(n: nat): (r: nat)
    ensures r < WORD64 && (n < WORD64 ==> r == n)
  {
    n % 0x1_0000_0000_0000_0000
  }
  const FRAME_WORDS: nat := 21
  const GENERAL_REGS: nat := 15

  datatype State = Unused | Ready | Running | Sleeping | Blocked

  /** rax, rcx, rdx, rbx, rbp, rsi, rdi, r8 .. r15 in this order, then the rest. */
  datatype Context = Context(regs: seq<nat>, rip: nat, rflags: nat, rsp: nat, fsBase: nat)

  datatype Process = Process(
    state: State, firstRun: bool, cpu: int, timeSlice: nat, sleepUntil: nat,
    nice: int, runtime: nat, fairKey: nat, ctx: Context)

  datatype Sched = Sched(procs: seq<Process>, current: seq<int>, tick: nat)

  type Frame = f: seq<nat> | |f| == FRAME_WORDS witness seq(FRAME_WORDS, _ => 0)
  type Cpu = c: nat | c < MAX_CPUS

  ghost predicate Shape(s: Sched)
  {
    && |s.procs| == MAX_PROCESSES && |s.current| == MAX_CPUS
    && forall i: nat | i < MAX_PROCESSES :: |s.procs[i].ctx.regs| == GENERAL_REGS
  }

  predicate IsPid(p: int)
  {
    0 <= p < MAX_PROCESSES
  }

  // ---------------------------------------------------------------- picking

  predicate Eligible(p: Process, cpu: Cpu)
  {
    (p.state == Ready || p.state == Running) && (p.cpu == -1 || p.cpu == cpu)
  }

  /** Among the first `n` slots: the eligible one with the least key, the lowest such slot. */
  ghost predicate IsPick(procs: seq<Process>, cpu: Cpu, n: nat, best: int)
    requires n <= |procs|
  {
    && -1 <= best < n
    && (best == -1 ==> forall i: nat | i < n :: !Eligible(procs[i], cpu))
    && (best >= 0 ==>
          && Eligible(procs[best], cpu)
          && (forall i: nat | i < n && Eligible(procs[i], cpu) :: procs[best].fairKey <= procs[i].fairKey)
          && (forall i: nat | i < best && Eligible(procs[i], cpu) :: procs[best].fairKey < procs[i].fairKey))
  }

  function Pick(procs: seq<Process>, cpu: Cpu, n: nat): (best: int)
    requires n <= |procs|
    ensures IsPick(procs, cpu, n, best)
  {
    if n == 0 then -1 else
      var best := Pick(procs, cpu, n - 1);
      if Eligible(procs[n - 1], cpu) && (best < 0 || procs[n - 1].fairKey < procs[best].fairKey) then n - 1 else best
  }

  /** The choice is determined by what it means. */
  lemma PickUnique(procs: seq<Process>, cpu: Cpu, n: nat, a: int, b: int)
    requires n <= |procs| && IsPick(procs, cpu, n, a) && IsPick(procs, cpu, n, b)
    ensures a == b
  {
  }

  // ---------------------------------------------------------------- weights

  function Shl(x: nat, n: nat): (r: nat)
    ensures r >= x
  {
    if n == 0 then x else 2 * Shl(x, n - 1)
  }

  function Shr(x: nat, n: nat): (r: nat)
    ensures r <= x
  {
    if n == 0 then x else Shr(x, n - 1) / 2
  }

  function Clamp(nice: int): int
  {
    if nice < -20 then -20 else if nice > 19 then 19 else nice
  }

  function Weight(nice: int): (w: nat)
    ensures w > 0
  {
    var n := Clamp(nice);
    if n < 0 then Shl(1024, -n) else if Shr(1024, n) == 0 then 1 else Shr(1024, n)
  }

  /** What one tick adds to the key of a process. */
  function Delta(nice: int): (d: nat)
    ensures d <= 1000000 && (d > 0 <==> Weight(nice) <= 1000000)
  {
    Quotient(1000000, Weight(nice))
  }

  function Quotient(a: nat, b: nat): (q: nat)
    requires b > 0
    ensures q <= a && (q > 0 <==> b <= a)
  {
    QuotientFacts(a, b, a / b, a % b);
    a / b
  }

  lemma QuotientFacts(a: nat, b: nat, q: int, r: int)
    requires b > 0 && a == q * b + r && 0 <= r < b
    ensures 0 <= q <= a && (q > 0 <==> b <= a)
  {
    if q > 0 {
      assert q * b >= b && q * b >= q;
    }
  }

  /** The weight is 1024 at nice 0 and doubles with each step down to -20; it halves with each step
      up to 10, and is 1 from there on. */
  lemma WeightDoubles(nice: int)
    ensures Weight(0) == 1024
    ensures -20 <= nice < 10 ==> Weight(nice) == 2 * Weight(nice + 1)
    ensures nice >= 10 ==> Weight(nice) == 1
    ensures nice < -20 ==> Weight(nice) == Weight(-20)
  {
    assert Shr(1024, 1) == 512 && Shr(1024, 2) == 256 && Shr(1024, 3) == 128 && Shr(1024, 4) == 64 && Shr(1024, 5) == 32;
    assert Shr(1024, 6) == 16 && Shr(1024, 7) == 8 && Shr(1024, 8) == 4 && Shr(1024, 9) == 2 && Shr(1024, 10) == 1;
    ShrGone(1024, 11, 11);
    if nice >= 11 {
      ShrGone(1024, 11, Clamp(nice));
    }
  }

  lemma {:induction false} ShrGone(x: nat, m: nat, n: nat)
    requires m <= n && Shr(x, m) == 0
    ensures Shr(x, n) == 0
  {
    if m < n {
      ShrGone(x, m, n - 1);
    }
  }

  /** The charge is a million divided by the weight, rounded down. */
  lemma DeltaDivides(nice: int)
    ensures Delta(nice) * Weight(nice) <= 1000000 < (Delta(nice) + 1) * Weight(nice)
  {
  }

  lemma {:induction false} ShlMonotone(x: nat, m: nat, n: nat)
    requires m <= n
    ensures Shl(x, m) <= Shl(x, n)
  {
    if m < n {
      ShlMonotone(x, m, n - 1);
    }
  }

  /** A process is charged for its ticks exactly when its nice value is at least -9. */
  lemma DeltaPositive(nice: int)
    ensures Delta(nice) > 0 <==> nice >= -9
  {
    assert Shl(1024, 9) == 524288 && Shl(1024, 10) == 1048576 by {
      assert Shl(1024, 3) == 8192 && Shl(1024, 6) == 65536;
    }
    var n := Clamp(nice);
    if n < -9 {
      ShlMonotone(1024, 10, -n);
    } else if n < 0 {
      ShlMonotone(1024, -n, 9);
    }
  }

  // ---------------------------------------------------------------- pieces of the steps

  function Woken(procs: seq<Process>, tick: nat): (r: seq<Process>)
    ensures |r| == |procs|
  {
    seq(|procs|, i requires 0 <= i < |procs| =>
      if procs[i].state == Sleeping && procs[i].sleepUntil != 0 && tick >= procs[i].sleepUntil
      then procs[i].(state := Ready) else procs[i])
  }

  function AllReady(procs: seq<Process>): (r: seq<Process>)
    ensures |r| == |procs|
  {
    seq(|procs|, i requires 0 <= i < |procs| =>
      if procs[i].state == Running then procs[i].(state := Ready) else procs[i])
  }

  function Dispatched(p: Process, cpu: Cpu): Process
  {
    p.(state := Running, timeSlice := DEFAULT_TIME_SLICE, cpu := cpu, firstRun := false)
  }

  function SaveFrame(frame: Frame, fs: nat): Context
  {
    Context(frame[..GENERAL_REGS], frame[16], frame[18], frame[19], fs)
  }

  /** The frame after the context has been written over it; general registers only when the
      process has run before. */
  function LoadFrame(frame: Frame, p: Process): Frame
    requires |p.ctx.regs| == GENERAL_REGS
  {
    var regs := if p.firstRun then frame[..GENERAL_REGS] else p.ctx.regs;
    regs + [frame[15], p.ctx.rip, USER_CS, p.ctx.rflags, p.ctx.rsp, USER_SS]
  }

  /** One tick charged to the running process. */
  function Charged(p: Process, frame: Frame, fs: nat): Process
  {
    var runtime := Word64(p.runtime + Delta(p.nice));
    p.(ctx := SaveFrame(frame, fs), timeSlice := if p.timeSlice > 0 then p.timeSlice - 1 else 0,
       runtime := runtime, fairKey := runtime)
  }

  // ---------------------------------------------------------------- the steps

  /** What the CPU sees after a step: the interrupt frame and the FS base. */
  datatype Outcome = Outcome(s: Sched, frame: Frame, fs: nat)

  function SwitchTo(s: Sched, procs: seq<Process>, cpu: Cpu, next: nat): Sched
    requires next < |procs| && |s.current| == MAX_CPUS
  {
    s.(procs := procs[next := Dispatched(procs[next], cpu)], current := s.current[cpu := next])
  }

  function TimerIdle(s: Sched, cpu: Cpu, frame: Frame, fs: nat): Outcome
    requires Shape(s)
  {
    var next := Pick(s.procs, cpu, MAX_PROCESSES);
    if next < 0 then Outcome(s, frame, fs)
    else
      var procs := AllReady(s.procs);
      Outcome(SwitchTo(s, procs, cpu, next),
              if procs[next].firstRun then frame else LoadFrame(frame, procs[next]), procs[next].ctx.fsBase)
  }

  function TimerBusy(s: Sched, cpu: Cpu, cp: nat, frame: Frame, fs: nat): Outcome
    requires Shape(s) && IsPid(cp)
  {
    var cur := Charged(s.procs[cp], frame, fs);
    if cur.timeSlice > 0 && cur.state == Running then Outcome(s.(procs := s.procs[cp := cur]), frame, fs)
    else
      var procs := s.procs[cp := cur.(state := Ready)];
      var next := Pick(procs, cpu, MAX_PROCESSES);
      if next < 0 || next == cp then
        Outcome(s.(procs := s.procs[cp := cur.(state := Running, timeSlice := DEFAULT_TIME_SLICE)]), frame, fs)
      else
        Outcome(SwitchTo(s, procs, cpu, next), LoadFrame(frame, procs[next]), procs[next].ctx.fsBase)
  }

  function Ticked(s: Sched): Sched
  {
    var tick := (s.tick + 1) % WORD32;
    s.(tick := tick, procs := Woken(s.procs, tick))
  }

  lemma TickedShape(s: Sched)
    requires Shape(s)
    ensures Shape(Ticked(s))
  {
  }

  /** The timer interrupt on one CPU. */
  function Timer(s: Sched, cpu: Cpu, frame: Frame, fs: nat): Outcome
    requires Shape(s)
  {
    TickedShape(s);
    var t := Ticked(s);
    var cp := t.current[cpu];
    if IsPid(cp) then TimerBusy(t, cpu, cp, frame, fs) else TimerIdle(t, cpu, frame, fs)
  }

  /** The slot that has been woken if its deadline has come. */
  function WokenAt(p: Process, tick: nat): Process
  {
    if p.state == Sleeping && 0 < p.sleepUntil <= tick then p.(state := Ready) else p
  }

  /** A tick on a busy CPU, field by field: what is saved from the frame, what is charged, and
      that only the running process and the one it hands over to change. */
  lemma BusyFields(s: Sched, cpu: Cpu, frame: Frame, fs: nat)
    requires Shape(s) && IsPid(s.current[cpu])
    ensures var o, cp := Timer(s, cpu, frame, fs), s.current[cpu];
            var t, p, q, next := o.s, s.procs[cp], o.s.procs[cp], o.s.current[cpu];
            && t.tick == (s.tick + 1) % 0x1_0000_0000
            && q.ctx.regs == frame[..15] && q.ctx.rip == frame[16] && q.ctx.rflags == frame[18] && q.ctx.rsp == frame[19]
            && q.ctx.fsBase == fs
            && q.runtime == q.fairKey == (p.runtime + Delta(p.nice)) % 0x1_0000_0000_0000_0000
            && (p.timeSlice > 1 && p.state == Running ==> next == cp && q.state == Running && q.timeSlice == p.timeSlice - 1)
            && (!(p.timeSlice > 1 && p.state == Running) && next == cp ==> q.state == Running && q.timeSlice == 10)
            && (next != cp ==> q.state == Ready && q.timeSlice == if p.timeSlice > 0 then p.timeSlice - 1 else 0)
            && (forall i: nat | i < MAX_PROCESSES && i != cp && i != next :: t.procs[i] == WokenAt(s.procs[i], t.tick))
            && (forall c: Cpu | c != cpu :: t.current[c] == s.current[c])
  {
    TickedShape(s);
  }

  /** A tick on an idle CPU: with nothing to run only sleepers wake; otherwise every process that
      runs anywhere is marked ready before the pick is dispatched. */
  lemma IdleFields(s: Sched, cpu: Cpu, frame: Frame, fs: nat)
    requires Shape(s) && s.current[cpu] == -1
    ensures var o := Timer(s, cpu, frame, fs);
            var t, next := o.s, o.s.current[cpu];
            && t.tick == (s.tick + 1) % 0x1_0000_0000
            && (next == -1 ==> o.frame == frame && o.fs == fs && forall i: nat | i < MAX_PROCESSES ::
                                t.procs[i] == WokenAt(s.procs[i], t.tick) && !Eligible(t.procs[i], cpu))
            && (next != -1 ==> forall i: nat | i < MAX_PROCESSES && i != next ::
                                 t.procs[i] == if s.procs[i].state == Running then s.procs[i].(state := Ready)
                                               else WokenAt(s.procs[i], t.tick))
            && (forall c: Cpu | c != cpu :: t.current[c] == s.current[c])
  {
    TickedShape(s);
  }

  /** What a tick that dispatches a process leaves in its slot, in the frame and in the FS base. */
  lemma DispatchFields(s: Sched, cpu: Cpu, frame: Frame, fs: nat)
    requires Shape(s)
    ensures var o := Timer(s, cpu, frame, fs);
            var next := o.s.current[cpu];
            next != s.current[cpu] && IsPid(next) ==>
              var p, q := s.procs[next], o.s.procs[next];
              && q == p.(state := Running, timeSlice := 10, cpu := cpu, firstRun := false)
              && o.fs == p.ctx.fsBase
              && (if p.firstRun && !IsPid(s.current[cpu]) then o.frame == frame else
                    && o.frame[..15] == (if p.firstRun then frame[..15] else p.ctx.regs) && o.frame[15] == frame[15]
                    && o.frame[16] == p.ctx.rip && o.frame[17] == 0x2B && o.frame[18] == p.ctx.rflags
                    && o.frame[19] == p.ctx.rsp && o.frame[20] == 0x33)
  {
    TickedShape(s);
  }

  /** A process leaves the CPU of its own accord with the given state and saved context. */
  function Leave(s: Sched, cpu: Cpu, state: State, ctx: Context, until: nat): Sched
    requires Shape(s)
  {
    var cp := s.current[cpu];
    if IsPid(cp) then s.(procs := s.procs[cp := s.procs[cp].(state := state, ctx := ctx, sleepUntil := until)]) else s
  }

  /** The first half of schedule: the previous process is put back and the CPU is idle. */
  function Release(s: Sched, cpu: Cpu, ctx: Context): Sched
    requires Shape(s)
  {
    var prev := s.current[cpu];
    var procs := if IsPid(prev) && s.procs[prev].state == Running
                 then s.procs[prev := s.procs[prev].(ctx := ctx, state := Ready)] else s.procs;
    s.(procs := procs, current := s.current[cpu := -1])
  }

  /** The second half: the pick becomes current; with nothing to pick the CPU keeps waiting. */
  function TakeOver(s: Sched, cpu: Cpu): Sched
    requires Shape(s)
  {
    var next := Pick(s.procs, cpu, MAX_PROCESSES);
    if next < 0 then s else SwitchTo(s, s.procs, cpu, next)
  }

  function Exit(s: Sched, cpu: Cpu): Sched
    requires Shape(s)
  {
    var cp := s.current[cpu];
    if IsPid(cp) then
      s.(procs := s.procs[cp := s.procs[cp].(state := Unused)], current := s.current[cpu := -1])
    else s
  }

  function Wake(s: Sched, pid: int): Sched
    requires Shape(s)
  {
    if IsPid(pid) && s.procs[pid].state == Blocked then s.(procs := s.procs[pid := s.procs[pid].(state := Ready)]) else s
  }

  function AddReady(s: Sched, pid: int): Sched
    requires Shape(s)
  {
    if IsPid(pid) then s.(procs := s.procs[pid := s.procs[pid].(state := Ready)]) else s
  }

  /** The lowest unused slot, -1 when there is none. */
  function FreeSlot(procs: seq<Process>, from: nat): (slot: int)
    requires from <= |procs|
    ensures -1 <= slot < |procs|
    ensures slot >= 0 ==> from <= slot && procs[slot].state == Unused && forall i: nat | from <= i < slot :: procs[i].state != Unused
    ensures slot == -1 ==> forall i: nat | from <= i < |procs| :: procs[i].state != Unused
    decreases |procs| - from
  {
    if from == |procs| then -1
    else if procs[from].state == Unused then from
    else FreeSlot(procs, from + 1)
  }

  function Fresh(slot: Process, rip: nat, rsp: nat): Process
  {
    Process(Ready, true, -1, DEFAULT_TIME_SLICE, 0, 0, 0, 0, slot.ctx.(rip := rip, rsp := rsp, rflags := 0x202))
  }

  /** Slot claiming in process creation; `granted` says whether memory was to be had. */
  function Create(s: Sched, rip: nat, rsp: nat, granted: bool): Sched
    requires Shape(s)
  {
    var slot := FreeSlot(s.procs, 0);
    if slot < 0 || !granted then s else s.(procs := s.procs[slot := Fresh(s.procs[slot], rip, rsp)])
  }

  datatype Step =
    | StepTimer(cpu: Cpu, frame: Frame, fs: nat)
    | StepRelease(cpu: Cpu, ctx: Context)
    | StepTakeOver(cpu: Cpu)
    | StepLeave(cpu: Cpu, state: State, ctx: Context, until: nat)
    | StepExit(cpu: Cpu)
    | StepWake(pid: int)
    | StepAddReady(pid: int)
    | StepCreate(rip: nat, rsp: nat, granted: bool)

  /** Steps carry whole contexts, and a process leaves only to sleep or to block. */
  ghost predicate Legal(step: Step)
  {
    match step
    case StepRelease(_, ctx) => |ctx.regs| == GENERAL_REGS
    case StepLeave(_, state, ctx, _) => |ctx.regs| == GENERAL_REGS && (state == Sleeping || state == Blocked)
    case _ => true
  }

  function After(s: Sched, step: Step): Sched
    requires Shape(s)
  {
    match step
    case StepTimer(cpu, frame, fs) => Timer(s, cpu, frame, fs).s
    case StepRelease(cpu, ctx) => Release(s, cpu, ctx)
    case StepTakeOver(cpu) => TakeOver(s, cpu)
    case StepLeave(cpu, state, ctx, until) => Leave(s, cpu, state, ctx, until)
    case StepExit(cpu) => Exit(s, cpu)
    case StepWake(pid) => Wake(s, pid)
    case StepAddReady(pid) => AddReady(s, pid)
    case StepCreate(rip, rsp, granted) => Create(s, rip, rsp, granted)
  }

  // ---------------------------------------------------------------- one CPU at a time

  /** A current process carries its CPU's number, is in use and has run. */
  ghost predicate Owned(s: Sched, cpu: Cpu)
    requires Shape(s)
  {
    var p := s.current[cpu];
    p == -1 || (IsPid(p) && s.procs[p].cpu == cpu && s.procs[p].state != Unused && !s.procs[p].firstRun)
  }

  ghost predicate Inv(s: Sched)
  {
    Shape(s) && forall cpu: Cpu :: Owned(s, cpu)
  }

  /** No process is current on two CPUs. */
  ghost predicate Exclusive(s: Sched)
    requires Shape(s)
  {
    forall c: Cpu, d: Cpu | c != d && s.current[c] != -1 :: s.current[c] != s.current[d]
  }

  lemma InvExclusive(s: Sched)
    requires Inv(s)
    ensures Exclusive(s)
  {
    forall c: Cpu, d: Cpu | c != d && s.current[c] != -1 ensures s.current[c] != s.current[d] {
      assert Owned(s, c) && Owned(s, d);
    }
  }

  lemma StepKeepsInv(s: Sched, step: Step)
    requires Inv(s) && Legal(step)
    ensures Inv(After(s, step))
  {
    var t := After(s, step);
    match step
    case StepTimer(cpu, frame, fs) =>
      TimerKeepsInv(s, cpu, frame, fs);
    case StepTakeOver(cpu) =>
      if Pick(s.procs, cpu, MAX_PROCESSES) >= 0 {
        SwitchKeepsInv(s, s.procs, cpu, Pick(s.procs, cpu, MAX_PROCESSES));
      }
    case _ =>
      InvExclusive(s);
      forall c: Cpu ensures Owned(t, c) {
        assert Owned(s, c);
      }
  }

  /** The pick cannot be current elsewhere: its affinity would name that other CPU. */
  lemma SwitchKeepsInv(s: Sched, procs: seq<Process>, cpu: Cpu, next: nat)
    requires Inv(s) && |procs| == MAX_PROCESSES && next < MAX_PROCESSES && Eligible(procs[next], cpu)
    requires forall i: nat | i < MAX_PROCESSES ::
               && procs[i].cpu == s.procs[i].cpu && procs[i].firstRun == s.procs[i].firstRun
               && (procs[i].state == Unused <==> s.procs[i].state == Unused)
               && |procs[i].ctx.regs| == GENERAL_REGS
    ensures Inv(SwitchTo(s, procs, cpu, next))
  {
    var t := SwitchTo(s, procs, cpu, next);
    forall c: Cpu ensures Owned(t, c) {
      assert Owned(s, c);
      if c != cpu {
        assert s.current[c] != next;
      }
    }
  }

  lemma TimerKeepsInv(s: Sched, cpu: Cpu, frame: Frame, fs: nat)
    requires Inv(s)
    ensures Inv(Timer(s, cpu, frame, fs).s)
  {
    TickedShape(s);
    var t := Ticked(s);
    forall c: Cpu ensures Owned(t, c) {
      assert Owned(s, c);
    }
    var cp := t.current[cpu];
    if IsPid(cp) {
      BusyKeepsInv(t, cpu, cp, frame, fs);
    } else {
      var next := Pick(t.procs, cpu, MAX_PROCESSES);
      if next >= 0 {
        SwitchKeepsInv(t, AllReady(t.procs), cpu, next);
      }
    }
  }

  lemma BusyKeepsInv(s: Sched, cpu: Cpu, cp: nat, frame: Frame, fs: nat)
    requires Inv(s) && IsPid(cp) && s.current[cpu] == cp
    ensures Inv(TimerBusy(s, cpu, cp, frame, fs).s)
  {
    var cur := Charged(s.procs[cp], frame, fs);
    var t := TimerBusy(s, cpu, cp, frame, fs).s;
    assert Owned(s, cpu);
    var procs := s.procs[cp := cur.(state := Ready)];
    var next := Pick(procs, cpu, MAX_PROCESSES);
    if (cur.timeSlice > 0 && cur.state == Running) || next < 0 || next == cp {
      forall c: Cpu ensures Owned(t, c) {
        assert Owned(s, c);
      }
    } else {
      SwitchKeepsInv(s, procs, cpu, next);
    }
  }

  /** States along a run. */
  ghost function Run(s: Sched, steps: seq<Step>): Sched
    requires Inv(s) && forall step <- steps :: Legal(step)
    ensures Inv(Run(s, steps))
  {
    if steps == [] then s else
      var before := Run(s, steps[..|steps| - 1]);
      StepKeepsInv(before, steps[|steps| - 1]);
      After(before, steps[|steps| - 1])
  }

  /** In every interleaving no process is ever current on two CPUs. */
  lemma NeverOnTwoCpus(s: Sched, steps: seq<Step>)
    requires Inv(s) && forall step <- steps :: Legal(step)
    ensures Exclusive(Run(s, steps))
  {
    InvExclusive(Run(s, steps));
  }

  // ---------------------------------------------------------------- the state field alone is not enough

  /** After another CPU's idle tick, a process that is current and runs is marked Ready:
      the state field does not tell that it is taken. */
  lemma StateFieldMisleads(s: Sched, p: nat, q: nat, frame: Frame, fs: nat)
    requires Inv(s) && p < MAX_PROCESSES && q < MAX_PROCESSES && p != q
    requires s.current[0] == p && s.procs[p].state == Running && s.procs[p].cpu == 0
    requires s.current[1] == -1 && s.procs[q].state == Ready && s.procs[q].cpu == -1
    ensures var t := Timer(s, 1, frame, fs).s;
            t.current[0] == p && t.procs[p].state == Ready
  {
    TickedShape(s);
    var t := Ticked(s);
    var next := Pick(t.procs, 1, MAX_PROCESSES);
    assert Eligible(t.procs[q], 1);
    assert !Eligible(t.procs[p], 1);
  }

  // ---------------------------------------------------------------- preemption is transparent

  type Pending = map<int, Context>

  /** The contexts, by process, taken from the interrupt frame when the timer preempted a
      process that has not been dispatched since. */
  ghost function Note(s: Sched, pending: Pending, step: Step): Pending
    requires Inv(s) && Legal(step)
  {
    StepKeepsInv(s, step);
    match step
    case StepTimer(cpu, frame, fs) =>
      var next := After(s, step).current[cpu];
      assert Owned(After(s, step), cpu);
      if next == s.current[cpu] then pending
      else if IsPid(s.current[cpu]) then Dismiss(pending, next)[s.current[cpu] := SaveFrame(frame, fs)]
      else Dismiss(pending, next)
    case StepTakeOver(cpu) =>
      Dismiss(pending, After(s, step).current[cpu])
    case _ => pending
  }

  ghost function Dismiss(pending: Pending, p: int): Pending
  {
    map q | q in pending && q != p :: pending[q]
  }

  /** A preempted process keeps its slot, its context, and stays off every CPU. */
  ghost predicate Kept(s: Sched, pending: Pending, p: int)
    requires Shape(s) && p in pending
  {
    && IsPid(p) && s.procs[p].ctx == pending[p] && s.procs[p].state != Unused && !s.procs[p].firstRun
    && forall cpu: Cpu :: s.current[cpu] != p
  }

  ghost predicate PendingInv(s: Sched, pending: Pending)
  {
    Inv(s) && forall p {:trigger Kept(s, pending, p)} | p in pending :: Kept(s, pending, p)
  }

  lemma StepKeepsPending(s: Sched, pending: Pending, step: Step)
    requires PendingInv(s, pending) && Legal(step)
    ensures PendingInv(After(s, step), Note(s, pending, step))
  {
    StepKeepsInv(s, step);
    var t, noted := After(s, step), Note(s, pending, step);
    forall p | p in noted ensures Kept(t, noted, p) {
      assert p in pending ==> Kept(s, pending, p);
      if step.StepTimer? {
        assert Owned(s, step.cpu);
        TimerKeepsPending(s, pending, step, p);
      }
    }
  }

  lemma TimerKeepsPending(s: Sched, pending: Pending, step: Step, p: int)
    requires PendingInv(s, pending) && step.StepTimer? && p in Note(s, pending, step)
    ensures Kept(After(s, step), Note(s, pending, step), p)
  {
    StepKeepsInv(s, step);
    InvExclusive(s);
    assert Owned(s, step.cpu) && Owned(After(s, step), step.cpu);
    assert p in pending ==> Kept(s, pending, p);
    TimerLeavesOthers(s, step.cpu, step.frame, step.fs, p);
  }

  /** The timer touches the context of nobody but the process it interrupts. */
  lemma TimerLeavesOthers(s: Sched, cpu: Cpu, frame: Frame, fs: nat, p: nat)
    requires Inv(s) && IsPid(p)
    ensures var t := Timer(s, cpu, frame, fs).s;
            && (forall c: Cpu | c != cpu :: t.current[c] == s.current[c])
            && (p == s.current[cpu] && t.current[cpu] != p ==>
                  t.procs[p].ctx == SaveFrame(frame, fs) && t.procs[p].state != Unused && !t.procs[p].firstRun)
            && (p != s.current[cpu] && p != t.current[cpu] ==>
                  && t.procs[p].ctx == s.procs[p].ctx && t.procs[p].firstRun == s.procs[p].firstRun
                  && (t.procs[p].state == Unused <==> s.procs[p].state == Unused))
  {
    TickedShape(s);
    var u := Ticked(s);
    forall c: Cpu ensures Owned(u, c) {
      assert Owned(s, c);
    }
    if IsPid(s.current[cpu]) {
      BusyLeavesOthers(u, cpu, s.current[cpu], frame, fs, p);
    }
  }

  lemma BusyLeavesOthers(s: Sched, cpu: Cpu, cp: nat, frame: Frame, fs: nat, p: nat)
    requires Inv(s) && IsPid(cp) && s.current[cpu] == cp && IsPid(p)
    ensures var o := TimerBusy(s, cpu, cp, frame, fs);
            && (p == cp && o.s.current[cpu] != cp ==>
                  o.s.procs[p].ctx == SaveFrame(frame, fs) && o.s.procs[p].state != Unused && !o.s.procs[p].firstRun)
            && (p != cp && p != o.s.current[cpu] ==> o.s.procs[p] == s.procs[p])
  {
    assert Owned(s, cpu);
  }

  /** When the timer resumes a preempted process, the frame and FS base it leaves hold
      exactly the context of that process's last preemption. */
  lemma ResumeTransparent(s: Sched, pending: Pending, cpu: Cpu, frame: Frame, fs: nat)
    requires PendingInv(s, pending)
    ensures var o := Timer(s, cpu, frame, fs);
            && (o.s.current[cpu] == s.current[cpu] ==> o.frame == frame && o.fs == fs)
            && (o.s.current[cpu] != s.current[cpu] && o.s.current[cpu] in pending ==>
                  SaveFrame(o.frame, o.fs) == pending[o.s.current[cpu]] && o.frame[17] == USER_CS && o.frame[20] == USER_SS)
  {
    TickedShape(s);
    var o := Timer(s, cpu, frame, fs);
    var next := o.s.current[cpu];
    if next != s.current[cpu] && next in pending {
      assert Kept(s, pending, next);
      assert o.frame[..GENERAL_REGS] == pending[next].regs;
    }
  }

  /** The preemption record along a run that starts with none. */
  ghost function History(s: Sched, steps: seq<Step>): (pending: Pending)
    requires Inv(s) && forall step <- steps :: Legal(step)
    ensures PendingInv(Run(s, steps), pending)
  {
    if steps == [] then map[] else
      var pending := History(s, steps[..|steps| - 1]);
      StepKeepsPending(Run(s, steps[..|steps| - 1]), pending, steps[|steps| - 1]);
      Note(Run(s, steps[..|steps| - 1]), pending, steps[|steps| - 1])
  }

  /** However long the run and whoever ran in between: a preempted process resumed by the
      timer gets back all its registers. */
  lemma PreemptionTransparent(s: Sched, steps: seq<Step>, cpu: Cpu, frame: Frame, fs: nat)
    requires Inv(s) && forall step <- steps :: Legal(step)
    ensures var t := Run(s, steps);
            var o := Timer(t, cpu, frame, fs);
            o.s.current[cpu] != t.current[cpu] && o.s.current[cpu] in History(s, steps) ==>
              SaveFrame(o.frame, o.fs) == History(s, steps)[o.s.current[cpu]]
  {
    ResumeTransparent(Run(s, steps), History(s, steps), cpu, frame, fs);
  }
}
