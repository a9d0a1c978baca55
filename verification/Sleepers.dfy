/** The fairness results with sleeping processes around: a sleeper that does not come due during
    a run makes no difference to it. */
module Sleepers {
  import opened SchedModel
  import opened Fairness
  import opened Starvation

  /** A sleeper with this deadline is not woken by the next `n` ticks. */
  predicate NotDue(until: nat, tick: nat, n: nat)
    decreases n
  {
    n == 0 || until == 0 || ((tick + 1) % WORD32 < until && NotDue(until, (tick + 1) % WORD32, n - 1))
  }

  /** Nobody comes due during the next `n` ticks. */
  ghost predicate NoneDue(s: Sched, n: nat)
  {
    forall i: nat | i < |s.procs| && s.procs[i].state == Sleeping :: NotDue(s.procs[i].sleepUntil, s.tick, n)
  }

  function Hidden(p: Process): Process
  {
    if p.state == Sleeping then p.(state := Blocked) else p
  }

  /** The same tables with the sleepers blocked for good. */
  function Hide(s: Sched): Sched
  {
    s.(procs := seq(|s.procs|, i requires 0 <= i < |s.procs| => Hidden(s.procs[i])))
  }

  lemma HideFacts(s: Sched)
    requires Shape(s)
    ensures Settled(Hide(s)) && Hide(s).current == s.current && |Hide(s).procs| == |s.procs|
    ensures forall i: nat | i < MAX_PROCESSES ::
              && (Runnable(Hide(s), i) <==> Runnable(s, i)) && Key(Hide(s), i) == Key(s, i) && Rate(Hide(s), i) == Rate(s, i)
              && Hide(s).procs[i].runtime == s.procs[i].runtime && Hide(s).procs[i].nice == s.procs[i].nice
  {
  }

  ghost predicate Alike(a: seq<Process>, b: seq<Process>)
  {
    |a| == |b| && forall i: nat | i < |a| :: b[i] == Hidden(a[i])
  }

  /** Hiding sleepers changes no pick. */
  lemma {:induction false} SamePick(a: seq<Process>, b: seq<Process>, cpu: Cpu, n: nat)
    requires Alike(a, b) && n <= |a|
    ensures Pick(b, cpu, n) == Pick(a, cpu, n)
  {
    forall i: nat | i < n ensures (Eligible(b[i], cpu) <==> Eligible(a[i], cpu)) && b[i].fairKey == a[i].fairKey {
    }
    PickUnique(a, cpu, n, Pick(a, cpu, n), Pick(b, cpu, n));
  }

  lemma HideTicked(s: Sched)
    requires Shape(s) && NoneDue(s, 1)
    ensures Ticked(s) == s.(tick := Ticked(s).tick) && Ticked(Hide(s)) == Hide(Ticked(s))
  {
    HideFacts(s);
    TickedSettled(Hide(s));
    assert Woken(s.procs, Ticked(s).tick) == s.procs;
  }

  lemma HideIs(s: Sched, t: Sched)
    requires Alike(s.procs, t.procs) && t.current == s.current && t.tick == s.tick
    ensures Hide(s) == t
  {
    assert Hide(s).procs == t.procs;
  }

  lemma AlikeUpdate(a: seq<Process>, b: seq<Process>, i: nat, p: Process, q: Process)
    requires Alike(a, b) && i < |a| && q == Hidden(p)
    ensures Alike(a[i := p], b[i := q])
  {
  }

  lemma HideBusy(s: Sched, cpu: Cpu, cp: nat, frame: Frame, fs: nat)
    requires Shape(s) && Shape(Hide(s)) && IsPid(cp)
    ensures Hide(TimerBusy(s, cpu, cp, frame, fs).s) == TimerBusy(Hide(s), cpu, cp, frame, fs).s
  {
    var a, b := s.procs, Hide(s).procs;
    assert Alike(a, b);
    var cur, hid := Charged(a[cp], frame, fs), Charged(b[cp], frame, fs);
    var ready, running := cur.(state := Ready), cur.(state := Running, timeSlice := DEFAULT_TIME_SLICE);
    AlikeUpdate(a, b, cp, cur, hid);
    AlikeUpdate(a, b, cp, ready, hid.(state := Ready));
    AlikeUpdate(a, b, cp, running, hid.(state := Running, timeSlice := DEFAULT_TIME_SLICE));
    var pa, pb := a[cp := ready], b[cp := hid.(state := Ready)];
    SamePick(pa, pb, cpu, MAX_PROCESSES);
    var next := Pick(pa, cpu, MAX_PROCESSES);
    if next >= 0 {
      AlikeUpdate(pa, pb, next, Dispatched(pa[next], cpu), Dispatched(pb[next], cpu));
    }
    HideIs(TimerBusy(s, cpu, cp, frame, fs).s, TimerBusy(Hide(s), cpu, cp, frame, fs).s);
  }

  lemma HideIdle(s: Sched, cpu: Cpu, frame: Frame, fs: nat)
    requires Shape(s) && Shape(Hide(s))
    ensures Hide(TimerIdle(s, cpu, frame, fs).s) == TimerIdle(Hide(s), cpu, frame, fs).s
  {
    assert Alike(s.procs, Hide(s).procs);
    SamePick(s.procs, Hide(s).procs, cpu, MAX_PROCESSES);
    assert Hide(TimerIdle(s, cpu, frame, fs).s).procs == TimerIdle(Hide(s), cpu, frame, fs).s.procs;
  }

  /** A tick that wakes nobody does the same with the sleepers hidden. */
  lemma HideTimer(s: Sched, cpu: Cpu, frame: Frame, fs: nat)
    requires Shape(s) && NoneDue(s, 1)
    ensures Shape(Hide(s)) && Hide(Timer(s, cpu, frame, fs).s) == Timer(Hide(s), cpu, frame, fs).s
  {
    HideFacts(s);
    HideTicked(s);
    var t := Ticked(s);
    HideFacts(t);
    TickedShape(s);
    TickedShape(Hide(s));
    if IsPid(t.current[cpu]) {
      HideBusy(t, cpu, t.current[cpu], frame, fs);
    } else {
      HideIdle(t, cpu, frame, fs);
    }
  }

  /** No tick puts anybody to sleep. */
  lemma StillNotDue(s: Sched, cpu: Cpu, frame: Frame, fs: nat, n: nat)
    requires Shape(s) && n > 0 && NoneDue(s, n)
    ensures NoneDue(s, 1) && NoneDue(Timer(s, cpu, frame, fs).s, n - 1)
  {
    forall i: nat | i < |s.procs| && s.procs[i].state == Sleeping ensures NotDue(s.procs[i].sleepUntil, s.tick, 1) {
      assert NotDue(s.procs[i].sleepUntil, s.tick, n);
    }
    HideTicked(s);
    var t := Timer(s, cpu, frame, fs).s;
    TimerShape(s, cpu, frame, fs);
    forall i: nat | i < |t.procs| && t.procs[i].state == Sleeping ensures NotDue(t.procs[i].sleepUntil, t.tick, n - 1) {
      assert s.procs[i].state == Sleeping && s.procs[i].sleepUntil == t.procs[i].sleepUntil;
      assert NotDue(s.procs[i].sleepUntil, s.tick, n);
    }
  }

  /** Over a whole run in which nobody comes due. */
  lemma {:induction false} HideTicks(s: Sched, inputs: seq<Input>)
    requires Shape(s) && NoneDue(s, |inputs|)
    ensures Shape(Hide(s)) && Hide(Ticks(s, inputs)) == Ticks(Hide(s), inputs)
    decreases |inputs|
  {
    HideFacts(s);
    if inputs != [] {
      var inp := inputs[0];
      StillNotDue(s, 0, inp.frame, inp.fs, |inputs|);
      HideTimer(s, 0, inp.frame, inp.fs);
      TimerShape(s, 0, inp.frame, inp.fs);
      HideTicks(Timer(s, 0, inp.frame, inp.fs).s, inputs[1..]);
    }
  }

  // ---------------------------------------------------------------- the results

  /** All runnable keys equal, nothing running yet, and somebody to run. */
  ghost predicate EqualKeys(s: Sched, key: nat)
  {
    && Shape(s) && s.current[0] == -1
    && (exists i: nat :: Runnable(s, i))
    && (forall i: nat | Runnable(s, i) :: s.procs[i].runtime == Key(s, i) == key)
  }

  lemma HideStart(s: Sched, key: nat, rate: nat, slow: nat)
    requires EqualKeys(s, key)
    ensures EqualStart(Hide(s), key)
    ensures RatesUpTo(s, rate) ==> RatesUpTo(Hide(s), rate)
    ensures RatesAtLeast(s, slow) ==> RatesAtLeast(Hide(s), slow)
  {
    HideFacts(s);
    var i: nat :| Runnable(s, i);
    assert Runnable(Hide(s), i);
  }

  lemma {:induction false} HideOthers(s: Sched, q: nat, n: nat)
    requires Shape(s) && n <= MAX_PROCESSES
    ensures Others(Hide(s), q, n) == Others(s, q, n)
  {
    HideFacts(s);
    if n > 0 {
      HideOthers(s, q, n - 1);
    }
  }

  lemma HideRuns(s: Sched, inputs: seq<Input>, m: nat, q: nat)
    requires Shape(s) && NoneDue(s, |inputs|)
    ensures RunsAfter(Hide(s), inputs, m, q) <==> RunsAfter(s, inputs, m, q)
  {
    HideFacts(s);
    if m <= |inputs| {
      SoonerNotDue(s, |inputs|, m);
      HideTicks(s, inputs[..m]);
    }
  }

  lemma SoonerNotDue(s: Sched, n: nat, m: nat)
    requires NoneDue(s, n) && m <= n
    ensures NoneDue(s, m)
  {
    forall i: nat | i < |s.procs| && s.procs[i].state == Sleeping ensures NotDue(s.procs[i].sleepUntil, s.tick, m) {
      NotDueSooner(s.procs[i].sleepUntil, s.tick, n, m);
    }
  }

  lemma {:induction false} NotDueSooner(until: nat, tick: nat, n: nat, m: nat)
    requires NotDue(until, tick, n) && m <= n
    ensures NotDue(until, tick, m)
    decreases m
  {
    if m > 0 && until != 0 {
      NotDueSooner(until, (tick + 1) % WORD32, n - 1, m - 1);
    }
  }

  /** From equal keys, through any number of ticks that wake nobody and wrap no 64-bit key, no
      two runnable keys are ever further apart than ten times the largest per-tick charge. */
  lemma SpreadBoundedAsleep(s: Sched, key: nat, rate: nat, inputs: seq<Input>, i: nat, j: nat)
    requires EqualKeys(s, key) && RatesUpTo(s, rate) && NoneDue(s, |inputs|) && key + |inputs| * rate < WORD64
    requires Runnable(s, i) && Runnable(s, j)
    ensures var t := Ticks(s, inputs);
            Runnable(t, i) && Runnable(t, j) && Key(t, i) <= Key(t, j) + 10 * rate
  {
    HideFacts(s);
    HideStart(s, key, rate, 0);
    SpreadBounded(Hide(s), key, rate, inputs, i, j);
    HideTicks(s, inputs);
    HideFacts(Ticks(s, inputs));
  }

  /** Fair states stay fair while nobody comes due, short of a 64-bit wrap. */
  lemma FairForeverAsleep(s: Sched, rate: nat, base: nat, top: nat, inputs: seq<Input>) returns (later: nat)
    requires Shape(s) && Fair(Hide(s), rate, base) && KeysUpTo(s, top)
    requires NoneDue(s, |inputs|) && top + Times(|inputs|, rate) < WORD64
    ensures base <= later && Shape(Ticks(s, inputs)) && Fair(Hide(Ticks(s, inputs)), rate, later)
    ensures SameRunnable(s, Ticks(s, inputs))
    ensures KeysUpTo(Ticks(s, inputs), top + Times(|inputs|, rate))
  {
    HideFacts(s);
    later := FairForever(Hide(s), rate, base, top, inputs);
    HideTicks(s, inputs);
    HideFacts(Ticks(s, inputs));
  }

  /** From a dispatch on, a process runs within ten ticks for each slice the others can still
      get. */
  lemma DispatchedWithinAsleep(s: Sched, rate: nat, slow: nat, base: nat, top: nat, q: nat, inputs: seq<Input>)
    returns (m: nat)
    requires Shape(s) && slow > 0 && AtDispatch(Hide(s), rate, slow, base, top, q)
    requires |inputs| >= 10 * AllAhead(Hide(s), q, 10 * slow, MAX_PROCESSES)
    requires NoneDue(s, |inputs|) && top + Times(|inputs|, rate) < WORD64
    ensures m <= 10 * AllAhead(Hide(s), q, 10 * slow, MAX_PROCESSES) && RunsAfter(s, inputs, m, q)
  {
    m := DispatchedWithin(Hide(s), rate, slow, base, top, q, inputs);
    HideRuns(s, inputs, m, q);
  }

  /** At any fair moment of a run in which nobody comes due, each runnable process is dispatched
      within a bound computed from the number of other runnable processes and the charges. */
  lemma NobodyStarvesAsleep(s: Sched, rate: nat, slow: nat, base: nat, top: nat, q: nat, inputs: seq<Input>) returns (m: nat)
    requires Shape(s) && Fair(Hide(s), rate, base) && slow > 0 && RatesAtLeast(s, slow) && Runnable(s, q) && KeysUpTo(s, top)
    requires |inputs| == 10 + 10 * Times(Others(s, q, MAX_PROCESSES), SlicesEach(rate, slow))
    requires NoneDue(s, |inputs|) && top + Times(|inputs|, rate) < WORD64
    ensures RunsAfter(s, inputs, m, q)
  {
    HideFacts(s);
    HideOthers(s, q, MAX_PROCESSES);
    m := NobodyStarves(Hide(s), rate, slow, base, top, q, inputs);
    HideRuns(s, inputs, m, q);
  }

  /** The same, plus one tick, from the moment the keys are equal and nobody runs yet. */
  lemma NobodyStarvesFromStartAsleep(s: Sched, key: nat, rate: nat, slow: nat, q: nat, inputs: seq<Input>) returns (m: nat)
    requires EqualKeys(s, key) && RatesUpTo(s, rate) && slow > 0 && RatesAtLeast(s, slow) && Runnable(s, q)
    requires |inputs| == 11 + 10 * Times(Others(s, q, MAX_PROCESSES), SlicesEach(rate, slow))
    requires NoneDue(s, |inputs|) && key + Times(|inputs|, rate) < WORD64
    ensures RunsAfter(s, inputs, m, q)
  {
    HideFacts(s);
    HideStart(s, key, rate, slow);
    HideOthers(s, q, MAX_PROCESSES);
    m := NobodyStarvesFromStart(Hide(s), key, rate, slow, q, inputs);
    HideRuns(s, inputs, m, q);
  }

  lemma {:induction false} HideBelow(s: Sched, n: nat)
    requires Shape(s) && n <= MAX_PROCESSES
    ensures Below(Hide(s), n) == Below(s, n)
  {
    HideFacts(s);
    if n > 0 {
      HideBelow(s, n - 1);
    }
  }

  /** From equal keys, the lowest slot that is charged nothing has the CPU from one tick and one
      slice for each runnable slot below it on, for as long as nobody comes due. */
  lemma RiderRunsAsleep(s: Sched, key: nat, rate: nat, p: nat, inputs: seq<Input>)
    requires EqualKeys(s, key) && RatesUpTo(s, rate) && FirstFree(s, p) && key + 10 * rate < WORD64
    requires NoneDue(s, |inputs|) && |inputs| >= 1 + 10 * Below(s, p)
    ensures Ticks(s, inputs).current[0] == p
  {
    HideFacts(s);
    HideStart(s, key, rate, 0);
    HideBelow(s, p);
    RiderStillRuns(Hide(s), key, rate, inputs, p);
    HideTicks(s, inputs);
  }

  /** From equal keys, in a run in which nobody comes due, everybody goes on being dispatched if
      and only if every runnable process has a nice value of at least -9, or only one process is
      runnable. */
  lemma EverybodyGoesOnIffAsleep(s: Sched, key: nat, rate: nat, inputs: seq<Input>)
    requires EqualKeys(s, key) && RatesUpTo(s, rate) && NoneDue(s, |inputs|)
    requires |inputs| == SETTLE + Turnaround(rate) && key + Times(|inputs|, rate) < WORD64
    ensures EverybodyGoesOn(s, inputs) <==> AllNice(s) || Single(s)
  {
    HideFacts(s);
    HideStart(s, key, rate, 0);
    EverybodyGoesOnIff(Hide(s), key, rate, inputs);
    HideGoesOn(s, inputs);
    HideSingle(s);
  }

  lemma HideGoesOn(s: Sched, inputs: seq<Input>)
    requires Shape(s) && NoneDue(s, |inputs|)
    ensures EverybodyGoesOn(Hide(s), inputs) <==> EverybodyGoesOn(s, inputs)
  {
    HideFacts(s);
    forall q: nat ensures GoesOn(Hide(s), inputs, q) <==> GoesOn(s, inputs, q) {
      forall m: nat ensures RunsAfter(Hide(s), inputs, m, q) <==> RunsAfter(s, inputs, m, q) {
        HideRuns(s, inputs, m, q);
      }
    }
  }

  lemma HideSingle(s: Sched)
    requires Shape(s)
    ensures Single(Hide(s)) <==> Single(s)
    ensures AllNice(Hide(s)) <==> AllNice(s)
  {
    HideFacts(s);
    SameSet(s, Hide(s));
  }

  lemma SameSet(s: Sched, t: Sched)
    requires |s.procs| == |t.procs|
    requires forall i: nat | i < |s.procs| :: (Runnable(t, i) <==> Runnable(s, i)) && t.procs[i].nice == s.procs[i].nice
    ensures Single(t) <==> Single(s)
    ensures AllNice(t) <==> AllNice(s)
  {
    if Single(s) {
      var q: nat :| Runnable(s, q) && Alone(s, q);
      assert Runnable(t, q) && Alone(t, q);
    }
    if Single(t) {
      var q: nat :| Runnable(t, q) && Alone(t, q);
      assert Runnable(s, q) && Alone(s, q);
    }
  }
}
