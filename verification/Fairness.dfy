/** Fairness of the least-key scheduler on one CPU under timer ticks: the keys of the
    runnable processes stay close together, and nobody waits for ever. */
module Fairness {
  import opened SchedModel

  datatype Input = Input(frame: Frame, fs: nat)

  /** The state after a number of timer ticks on CPU 0. */
  ghost function Ticks(s: Sched, inputs: seq<Input>): (t: Sched)
    requires Shape(s)
    ensures Shape(t)
    decreases |inputs|
  {
    if inputs == [] then s else
      TimerShape(s, 0, inputs[0].frame, inputs[0].fs);
      Ticks(Timer(s, 0, inputs[0].frame, inputs[0].fs).s, inputs[1..])
  }

  lemma TimerShape(s: Sched, cpu: Cpu, frame: Frame, fs: nat)
    requires Shape(s)
    ensures Shape(Timer(s, cpu, frame, fs).s)
  {
    TickedShape(s);
  }

  lemma {:induction false} TicksAppend(s: Sched, a: seq<Input>, b: seq<Input>)
    requires Shape(s)
    ensures Ticks(s, a + b) == Ticks(Ticks(s, a), b)
    decreases |a|
  {
    if a == [] {
      assert a + b == b;
    } else {
      TimerShape(s, 0, a[0].frame, a[0].fs);
      assert (a + b)[1..] == a[1..] + b;
      TicksAppend(Timer(s, 0, a[0].frame, a[0].fs).s, a[1..], b);
    }
  }

  /** Repeated addition, which keeps the arithmetic of the proofs linear. */
  function Times(n: nat, r: nat): nat
  {
    if n == 0 then 0 else Times(n - 1, r) + r
  }

  lemma {:induction false} TimesIsProduct(n: nat, r: nat)
    ensures Times(n, r) == n * r
  {
    if n > 0 {
      TimesIsProduct(n - 1, r);
      assert n * r == (n - 1) * r + r;
    }
  }

  lemma {:induction false} TimesAdd(a: nat, b: nat, r: nat)
    ensures Times(a + b, r) == Times(a, r) + Times(b, r)
  {
    if b > 0 {
      TimesAdd(a, b - 1, r);
    }
  }

  lemma {:induction false} TimesMonotone(a: nat, b: nat, r: nat, r': nat)
    requires a <= b && r <= r'
    ensures Times(a, r) <= Times(b, r')
    decreases b
  {
    if a == b {
      if a > 0 { TimesMonotone(a - 1, b - 1, r, r'); }
    } else {
      TimesMonotone(a, b - 1, r, r');
    }
  }

  // ---------------------------------------------------------------- the runnable set

  predicate Runnable(s: Sched, i: nat)
  {
    i < |s.procs| && Eligible(s.procs[i], 0)
  }

  function Key(s: Sched, i: nat): nat
    requires i < |s.procs|
  {
    s.procs[i].fairKey
  }

  function Rate(s: Sched, i: nat): nat
    requires i < |s.procs|
  {
    Delta(s.procs[i].nice)
  }

  /** Nobody is about to wake, so ticks leave the runnable set alone. */
  ghost predicate Settled(s: Sched)
  {
    Shape(s) && forall i: nat | i < MAX_PROCESSES :: s.procs[i].state != Sleeping
  }

  lemma TickedSettled(s: Sched)
    requires Settled(s)
    ensures Ticked(s) == s.(tick := Ticked(s).tick)
  {
    assert Woken(s.procs, Ticked(s).tick) == s.procs;
  }

  ghost predicate SameRunnable(s: Sched, t: Sched)
  {
    && Shape(s) && Shape(t)
    && forall i: nat | i < MAX_PROCESSES :: (Runnable(t, i) <==> Runnable(s, i)) && Rate(t, i) == Rate(s, i)
  }

  /** Slot `p` is charged and every other key is as before. */
  ghost predicate OnlyCharged(s: Sched, t: Sched, p: nat, amount: nat)
  {
    && SameRunnable(s, t) && p < MAX_PROCESSES
    && Key(t, p) == Key(s, p) + amount
    && forall i: nat | i < MAX_PROCESSES && i != p :: Key(t, i) == Key(s, i)
  }

  // ---------------------------------------------------------------- the invariant

  /** The running process started its slice with the least key, `base`; no other runnable
      key is below `base` or more than ten times the largest rate above it. */
  ghost predicate Fair(s: Sched, rate: nat, base: nat)
  {
    && Settled(s) && IsPid(s.current[0])
    && var p := s.current[0];
       && s.procs[p].state == Running && s.procs[p].cpu == 0 && 1 <= s.procs[p].timeSlice <= 10
       && Key(s, p) == base + Times(10 - s.procs[p].timeSlice, Rate(s, p))
       && forall i: nat {:trigger FairFor(s, rate, base, i)} | Runnable(s, i) :: FairFor(s, rate, base, i)
  }

  ghost predicate FairFor(s: Sched, rate: nat, base: nat, i: nat)
    requires i < |s.procs| && |s.current| > 0
  {
    && s.procs[i].runtime == Key(s, i) && Rate(s, i) <= rate
    && (i != s.current[0] ==> base <= Key(s, i) <= base + 10 * rate)
  }

  /** Every runnable slot below the current one has a larger key: ties go to the lowest slot. */
  ghost predicate LowestFirst(s: Sched)
  {
    && Shape(s) && IsPid(s.current[0])
    && forall i: nat | i < s.current[0] && Runnable(s, i) :: Key(s, i) > Key(s, s.current[0])
  }

  /** The spread of the keys is at most ten times the largest rate. */
  lemma FairSpread(s: Sched, rate: nat, base: nat, i: nat, j: nat)
    requires Fair(s, rate, base) && Runnable(s, i) && Runnable(s, j)
    ensures Key(s, i) <= Key(s, j) + 10 * rate
  {
    var p := s.current[0];
    assert FairFor(s, rate, base, i) && FairFor(s, rate, base, j) && FairFor(s, rate, base, p);
    SliceBound(s.procs[p].timeSlice, Rate(s, p), rate);
  }

  lemma SliceBound(slice: nat, r: nat, rate: nat)
    requires slice <= 10 && r <= rate
    ensures 0 <= Times(10 - slice, r) <= 10 * rate
  {
    TimesMonotone(10 - slice, 10, r, rate);
    TimesIsProduct(10, rate);
  }

  /** One tick while the slice lasts. */
  lemma TickWithinSlice(s: Sched, rate: nat, base: nat, inp: Input)
    requires Fair(s, rate, base) && s.procs[s.current[0]].timeSlice > 1
    requires Key(s, s.current[0]) + rate < WORD64
    ensures var t := Timer(s, 0, inp.frame, inp.fs).s;
            && Fair(t, rate, base) && t.current[0] == s.current[0]
            && t.procs[t.current[0]].timeSlice == s.procs[s.current[0]].timeSlice - 1
            && OnlyCharged(s, t, s.current[0], Rate(s, s.current[0]))
  {
    var p := s.current[0];
    var t := Timer(s, 0, inp.frame, inp.fs).s;
    WithinSliceState(s, rate, base, inp);
    forall i: nat | Runnable(t, i) ensures FairFor(t, rate, base, i) {
      assert FairFor(s, rate, base, i);
    }
  }

  lemma WithinSliceState(s: Sched, rate: nat, base: nat, inp: Input)
    requires Fair(s, rate, base) && s.procs[s.current[0]].timeSlice > 1
    requires Key(s, s.current[0]) + rate < WORD64
    ensures var p := s.current[0];
            var t := Timer(s, 0, inp.frame, inp.fs).s;
            var k := Key(s, p) + Rate(s, p);
            && Settled(t) && t.current == s.current
            && t.procs == s.procs[p := s.procs[p].(ctx := SaveFrame(inp.frame, inp.fs),
                                                   timeSlice := s.procs[p].timeSlice - 1, runtime := k, fairKey := k)]
  {
    TickedSettled(s);
    TickedShape(s);
    assert FairFor(s, rate, base, s.current[0]);
  }

  /** The tick that ends the slice: the least key takes over with a fresh slice. */
  lemma TickEndsSlice(s: Sched, rate: nat, base: nat, inp: Input) returns (least: nat)
    requires Fair(s, rate, base) && s.procs[s.current[0]].timeSlice == 1
    requires Key(s, s.current[0]) + rate < WORD64
    ensures base <= least
    ensures var t := Timer(s, 0, inp.frame, inp.fs).s;
            && Fair(t, rate, least) && t.procs[t.current[0]].timeSlice == 10 && LowestFirst(t)
            && OnlyCharged(s, t, s.current[0], Rate(s, s.current[0]))
  {
    var p := s.current[0];
    var t := Timer(s, 0, inp.frame, inp.fs).s;
    var cur, next := EndSliceState(s, rate, base, inp);
    var procs := s.procs[p := cur];
    EndOfSlice(s, rate, base, cur, next);
    least := procs[next].fairKey;
    forall i: nat | Runnable(t, i) ensures FairFor(t, rate, least, i) {
      assert FairFor(s, rate, base, i);
    }
    forall i: nat | i < next && Runnable(t, i) ensures Key(t, i) > Key(t, next) {
      assert Eligible(procs[i], 0);
    }
  }

  /** The state after the tick that ends a slice: the charged process goes back to the
      ready ones, and the pick among them runs. */
  lemma EndSliceState(s: Sched, rate: nat, base: nat, inp: Input) returns (cur: Process, next: nat)
    requires Fair(s, rate, base) && s.procs[s.current[0]].timeSlice == 1
    requires Key(s, s.current[0]) + rate < WORD64
    ensures var p := s.current[0];
            && cur.fairKey == cur.runtime == Key(s, p) + Rate(s, p) && Eligible(cur, 0) && cur.nice == s.procs[p].nice
            && IsPick(s.procs[p := cur], 0, MAX_PROCESSES, next)
    ensures var p := s.current[0];
            var t := Timer(s, 0, inp.frame, inp.fs).s;
            var q := s.procs[p := cur][next];
            && Settled(t) && t.current[0] == next
            && t.procs[next].state == Running && t.procs[next].cpu == 0 && t.procs[next].timeSlice == 10
            && t.procs[next].fairKey == q.fairKey && t.procs[next].runtime == q.runtime && t.procs[next].nice == q.nice
            && forall i: nat | i < MAX_PROCESSES && i != next :: t.procs[i] == s.procs[p := cur][i]
  {
    TickedSettled(s);
    TickedShape(s);
    var p := s.current[0];
    assert FairFor(s, rate, base, p);
    cur := Charged(s.procs[p], inp.frame, inp.fs).(state := Ready);
    var procs := s.procs[p := cur];
    assert Eligible(procs[p], 0);
    next := Pick(procs, 0, MAX_PROCESSES);
  }

  lemma EndOfSlice(s: Sched, rate: nat, base: nat, cur: Process, next: nat)
    requires Fair(s, rate, base) && s.procs[s.current[0]].timeSlice == 1
    requires cur.fairKey == Key(s, s.current[0]) + Rate(s, s.current[0]) && Eligible(cur, 0)
    requires var procs := s.procs[s.current[0] := cur];
             IsPick(procs, 0, MAX_PROCESSES, next)
    ensures var procs := s.procs[s.current[0] := cur];
            && base <= procs[next].fairKey
            && forall i: nat | Runnable(s, i) :: procs[next].fairKey <= procs[i].fairKey <= procs[next].fairKey + 10 * rate
  {
    var p := s.current[0];
    var procs := s.procs[p := cur];
    assert FairFor(s, rate, base, p);
    assert cur.fairKey == base + Times(10, Rate(s, p));
    SliceBound(0, Rate(s, p), rate);
    assert next != p ==> Runnable(s, next) && FairFor(s, rate, base, next);
    forall i: nat | Runnable(s, i)
      ensures procs[next].fairKey <= procs[i].fairKey <= procs[next].fairKey + 10 * rate
    {
      assert FairFor(s, rate, base, i);
      assert Eligible(procs[i], 0);
    }
  }

  // ---------------------------------------------------------------- bounded spread

  /** All runnable keys equal, nothing running yet, and somebody to run. */
  ghost predicate EqualStart(s: Sched, key: nat)
  {
    && Settled(s) && s.current[0] == -1
    && (exists i: nat :: Runnable(s, i))
    && (forall i: nat | Runnable(s, i) :: s.procs[i].runtime == Key(s, i) == key)
  }

  ghost predicate RatesUpTo(s: Sched, rate: nat)
  {
    forall i: nat | Runnable(s, i) :: Rate(s, i) <= rate
  }

  /** The first tick dispatches the lowest runnable slot. */
  lemma FirstTick(s: Sched, key: nat, rate: nat, inp: Input)
    requires EqualStart(s, key) && RatesUpTo(s, rate)
    ensures var t := Timer(s, 0, inp.frame, inp.fs).s;
            && Fair(t, rate, key) && t.procs[t.current[0]].timeSlice == 10 && SameRunnable(s, t) && LowestFirst(t)
            && forall i: nat | i < MAX_PROCESSES :: Key(t, i) == Key(s, i)
  {
    FirstState(s, key, inp);
    FirstFair(s, key, rate, Timer(s, 0, inp.frame, inp.fs).s);
  }

  lemma FirstFair(s: Sched, key: nat, rate: nat, t: Sched)
    requires EqualStart(s, key) && RatesUpTo(s, rate) && Settled(t) && IsPid(t.current[0])
    requires var next := t.current[0];
             && Eligible(s.procs[next], 0) && IsPick(s.procs, 0, MAX_PROCESSES, next)
             && t.procs == AllReady(s.procs)[next := Dispatched(AllReady(s.procs)[next], 0)]
    ensures Fair(t, rate, key) && t.procs[t.current[0]].timeSlice == 10 && SameRunnable(s, t) && LowestFirst(t)
    ensures forall i: nat | i < MAX_PROCESSES :: Key(t, i) == Key(s, i)
  {
    assert SameRunnable(s, t);
    assert Runnable(s, t.current[0]);
    forall i: nat | Runnable(t, i) ensures FairFor(t, rate, key, i) {
      assert Runnable(s, i);
    }
  }

  lemma FirstState(s: Sched, key: nat, inp: Input)
    requires EqualStart(s, key)
    ensures var next := Pick(s.procs, 0, MAX_PROCESSES);
            var t := Timer(s, 0, inp.frame, inp.fs).s;
            && next >= 0 && Settled(t) && t.current[0] == next && Eligible(s.procs[next], 0)
            && t.procs == AllReady(s.procs)[next := Dispatched(AllReady(s.procs)[next], 0)]
  {
    TickedSettled(s);
    TickedShape(s);
    var i: nat :| Runnable(s, i);
    assert Eligible(s.procs[i], 0);
  }

  /** Fair states stay fair; keys grow by at most the largest rate a tick. */
  lemma {:induction false} FairForever(s: Sched, rate: nat, base: nat, top: nat, inputs: seq<Input>) returns (later: nat)
    requires Fair(s, rate, base) && top + Times(|inputs|, rate) < WORD64
    requires forall i: nat | Runnable(s, i) :: Key(s, i) <= top
    ensures base <= later && Fair(Ticks(s, inputs), rate, later) && SameRunnable(s, Ticks(s, inputs))
    ensures forall i: nat | Runnable(s, i) :: Key(Ticks(s, inputs), i) <= top + Times(|inputs|, rate)
    decreases |inputs|
  {
    later := base;
    if inputs != [] {
      var p := s.current[0];
      assert FairFor(s, rate, base, p) && Runnable(s, p);
      if s.procs[p].timeSlice > 1 {
        TickWithinSlice(s, rate, base, inputs[0]);
      } else {
        later := TickEndsSlice(s, rate, base, inputs[0]);
      }
      var t := Timer(s, 0, inputs[0].frame, inputs[0].fs).s;
      assert forall i: nat | Runnable(t, i) :: Runnable(s, i) && Key(t, i) <= top + rate;
      later := FairForever(t, rate, later, top + rate, inputs[1..]);
    }
  }

  /** From equal keys, through any number of ticks short of wrapping a 64-bit key, no two
      runnable keys are ever further apart than ten times the largest per-tick charge. */
  lemma SpreadBounded(s: Sched, key: nat, rate: nat, inputs: seq<Input>, i: nat, j: nat)
    requires EqualStart(s, key) && RatesUpTo(s, rate) && key + |inputs| * rate < WORD64
    requires Runnable(s, i) && Runnable(s, j)
    ensures var t := Ticks(s, inputs);
            Runnable(t, i) && Runnable(t, j) && Key(t, i) <= Key(t, j) + 10 * rate
  {
    if inputs == [] {
    } else {
      FirstTick(s, key, rate, inputs[0]);
      var t := Timer(s, 0, inputs[0].frame, inputs[0].fs).s;
      TimesIsProduct(|inputs|, rate);
      var later := FairForever(t, rate, key, key, inputs[1..]);
      FairSpread(Ticks(s, inputs), rate, later, i, j);
    }
  }

  // ---------------------------------------------------------------- nobody waits for ever

  /** How many more slices slot `i` can get before slot `q` has the least key. */
  ghost function Ahead(s: Sched, q: nat, step: nat, i: nat): nat
    requires step > 0 && q < |s.procs| && i < |s.procs|
  {
    if i != q && Runnable(s, i) && Key(s, i) <= Key(s, q) then Slices(Key(s, q) - Key(s, i), step) else 0
  }

  ghost function AllAhead(s: Sched, q: nat, step: nat, n: nat): nat
    requires step > 0 && q < |s.procs| && n <= |s.procs|
  {
    if n == 0 then 0 else AllAhead(s, q, step, n - 1) + Ahead(s, q, step, n - 1)
  }

  /** The whole steps that fit below a distance, and one more. */
  function Slices(x: nat, step: nat): nat
    requires step > 0
  {
    if x < step then 1 else 1 + Slices(x - step, step)
  }

  lemma {:induction false} SlicesMonotone(x: nat, y: nat, step: nat)
    requires step > 0 && x <= y
    ensures Slices(x, step) <= Slices(y, step)
    decreases y
  {
    if x >= step {
      SlicesMonotone(x - step, y - step, step);
    }
  }

  /** Slices is the quotient rounded down, plus one. */
  lemma {:induction false} SlicesIsQuotient(x: nat, step: nat)
    requires step > 0
    ensures Slices(x, step) > 0 && Times(Slices(x, step) - 1, step) <= x < Times(Slices(x, step), step)
  {
    if x >= step {
      SlicesIsQuotient(x - step, step);
    }
  }

  /** A whole slice of another process brings it one slice nearer to giving way. */
  lemma {:induction false} SliceLowersAhead(s: Sched, t: Sched, q: nat, step: nat, p: nat, amount: nat, n: nat)
    requires step > 0 && OnlyCharged(s, t, p, amount) && amount >= step
    requires q < MAX_PROCESSES && p != q && Runnable(s, p) && Key(s, p) <= Key(s, q) && n <= MAX_PROCESSES
    ensures AllAhead(t, q, step, n) + (if p < n then 1 else 0) <= AllAhead(s, q, step, n)
  {
    if n > 0 {
      SliceLowersAhead(s, t, q, step, p, amount, n - 1);
      SliceLowersOne(s, t, q, step, p, amount, n - 1);
    }
  }

  lemma SliceLowersOne(s: Sched, t: Sched, q: nat, step: nat, p: nat, amount: nat, i: nat)
    requires step > 0 && OnlyCharged(s, t, p, amount) && amount >= step
    requires q < MAX_PROCESSES && p != q && Runnable(s, p) && Key(s, p) <= Key(s, q) && i < MAX_PROCESSES
    ensures Ahead(t, q, step, i) + (if i == p then 1 else 0) <= Ahead(s, q, step, i)
  {
    if i == p && Key(t, p) <= Key(t, q) {
      SlicesMonotone(Key(t, q) - Key(t, p), Key(s, q) - Key(s, p) - step, step);
    }
  }

  /** The rest of a slice: the running process is charged for each tick, then the least key
      takes over. */
  lemma {:induction false} RestOfSlice(s: Sched, rate: nat, base: nat, inputs: seq<Input>) returns (least: nat)
    requires Fair(s, rate, base) && |inputs| == s.procs[s.current[0]].timeSlice
    requires Key(s, s.current[0]) + Times(|inputs|, rate) < WORD64
    ensures var t := Ticks(s, inputs);
            && Fair(t, rate, least) && t.procs[t.current[0]].timeSlice == 10 && LowestFirst(t)
            && OnlyCharged(s, t, s.current[0], Times(|inputs|, Rate(s, s.current[0])))
    decreases |inputs|
  {
    var p := s.current[0];
    assert FairFor(s, rate, base, p) && Runnable(s, p);
    var t := Timer(s, 0, inputs[0].frame, inputs[0].fs).s;
    if |inputs| > 1 {
      TickWithinSlice(s, rate, base, inputs[0]);
      least := RestOfSlice(t, rate, base, inputs[1..]);
    } else {
      least := TickEndsSlice(s, rate, base, inputs[0]);
      assert inputs[1..] == [];
    }
  }

  ghost predicate RatesAtLeast(s: Sched, slow: nat)
  {
    forall i: nat | Runnable(s, i) :: Rate(s, i) >= slow
  }

  ghost predicate KeysUpTo(s: Sched, top: nat)
  {
    forall i: nat | Runnable(s, i) :: Key(s, i) <= top
  }

  /** A dispatch: the least key is running with a fresh slice. */
  ghost predicate AtDispatch(s: Sched, rate: nat, slow: nat, base: nat, top: nat, q: nat)
  {
    && Fair(s, rate, base) && s.procs[s.current[0]].timeSlice == 10
    && RatesAtLeast(s, slow) && Runnable(s, q) && KeysUpTo(s, top)
  }

  /** From one dispatch to the next, the others' lead over slot `q` shrinks. */
  lemma SliceOfAnother(s: Sched, rate: nat, slow: nat, base: nat, top: nat, q: nat, inputs: seq<Input>) returns (least: nat)
    requires slow > 0 && AtDispatch(s, rate, slow, base, top, q) && s.current[0] != q
    requires |inputs| == 10 && top + 10 * rate < WORD64
    ensures AtDispatch(Ticks(s, inputs), rate, slow, least, top + 10 * rate, q)
    ensures AllAhead(Ticks(s, inputs), q, 10 * slow, MAX_PROCESSES) + 1 <= AllAhead(s, q, 10 * slow, MAX_PROCESSES)
  {
    var p := s.current[0];
    assert FairFor(s, rate, base, p) && FairFor(s, rate, base, q) && Runnable(s, p);
    TimesIsProduct(10, rate);
    TimesIsProduct(10, Rate(s, p));
    least := RestOfSlice(s, rate, base, inputs);
    var t := Ticks(s, inputs);
    SliceLowersAhead(s, t, q, 10 * slow, p, 10 * Rate(s, p), MAX_PROCESSES);
    forall i: nat | Runnable(t, i) ensures Key(t, i) <= top + 10 * rate && Rate(t, i) >= slow {
      assert Runnable(s, i);
    }
  }

  /** Slot `q` is the current one after the first `m` of the ticks. */
  ghost predicate RunsAfter(s: Sched, inputs: seq<Input>, m: nat, q: nat)
  {
    Shape(s) && m <= |inputs| && Ticks(s, inputs[..m]).current[0] == q
  }

  lemma RunsLater(s: Sched, inputs: seq<Input>, n: nat, k: nat, q: nat)
    requires Shape(s) && n <= |inputs| && RunsAfter(Ticks(s, inputs[..n]), inputs[n..], k, q)
    ensures RunsAfter(s, inputs, n + k, q)
  {
    PrefixSplit(inputs, n, k);
    TicksAppend(s, inputs[..n], inputs[n..][..k]);
  }

  lemma PrefixSplit(inputs: seq<Input>, n: nat, k: nat)
    requires n + k <= |inputs|
    ensures inputs[..n + k] == inputs[..n] + inputs[n..][..k]
  {
  }

  /** From a dispatch on, slot `q` is dispatched within ten ticks for each slice the others
      can still get. */
  lemma {:induction false} DispatchedWithin(s: Sched, rate: nat, slow: nat, base: nat, top: nat, q: nat, inputs: seq<Input>)
    returns (m: nat)
    requires slow > 0 && AtDispatch(s, rate, slow, base, top, q)
    requires |inputs| >= 10 * AllAhead(s, q, 10 * slow, MAX_PROCESSES)
    requires top + Times(|inputs|, rate) < WORD64
    ensures m <= 10 * AllAhead(s, q, 10 * slow, MAX_PROCESSES) && RunsAfter(s, inputs, m, q)
    decreases AllAhead(s, q, 10 * slow, MAX_PROCESSES)
  {
    if s.current[0] == q {
      m := 0;
      assert inputs[..0] == [];
    } else {
      LeadIsPositive(s, rate, slow, base, top, q);
      var head, rest := inputs[..10], inputs[10..];
      TimesAdd(10, |inputs| - 10, rate);
      TimesIsProduct(10, rate);
      var least := SliceOfAnother(s, rate, slow, base, top, q, head);
      var k := DispatchedWithin(Ticks(s, head), rate, slow, least, top + 10 * rate, q, rest);
      m := 10 + k;
      RunsLater(s, inputs, 10, k, q);
    }
  }

  lemma LeadIsPositive(s: Sched, rate: nat, slow: nat, base: nat, top: nat, q: nat)
    requires slow > 0 && AtDispatch(s, rate, slow, base, top, q) && s.current[0] != q
    ensures AllAhead(s, q, 10 * slow, MAX_PROCESSES) >= 1
  {
    var p := s.current[0];
    assert FairFor(s, rate, base, p) && FairFor(s, rate, base, q) && Runnable(s, p);
    SomeoneAhead(s, q, 10 * slow, p, MAX_PROCESSES);
  }

  lemma {:induction false} SomeoneAhead(s: Sched, q: nat, step: nat, p: nat, n: nat)
    requires step > 0 && q < |s.procs| && p < n <= |s.procs|
    ensures AllAhead(s, q, step, n) >= Ahead(s, q, step, p)
  {
    if n - 1 > p {
      SomeoneAhead(s, q, step, p, n - 1);
    }
  }

  /** The number of other runnable processes among the first `n` slots. */
  ghost function Others(s: Sched, q: nat, n: nat): nat
  {
    if n == 0 then 0 else Others(s, q, n - 1) + if n - 1 != q && Runnable(s, n - 1) then 1 else 0
  }

  /** The slices each other process can get, from the rates alone. */
  function SlicesEach(rate: nat, slow: nat): nat
    requires slow > 0
  {
    Slices(10 * rate, 10 * slow)
  }

  lemma {:induction false} AheadBounded(s: Sched, rate: nat, slow: nat, base: nat, q: nat, n: nat)
    requires Fair(s, rate, base) && Runnable(s, q) && slow > 0 && n <= MAX_PROCESSES
    ensures AllAhead(s, q, 10 * slow, n) <= Times(Others(s, q, n), SlicesEach(rate, slow))
  {
    if n > 0 {
      AheadBounded(s, rate, slow, base, q, n - 1);
      var i, step := n - 1, 10 * slow;
      if i != q && Runnable(s, i) {
        FairSpread(s, rate, base, q, i);
        if Key(s, i) <= Key(s, q) {
          SlicesMonotone(Key(s, q) - Key(s, i), 10 * rate, step);
        }
        assert Ahead(s, q, step, i) <= SlicesEach(rate, slow);
      }
    }
  }

  /** At any moment of a fair run, with every rate at least `slow` > 0 (every nice value at
      least -9), each runnable process is dispatched within a bound that depends only on
      the number of other runnable processes and on the rates. */
  lemma NobodyStarves(s: Sched, rate: nat, slow: nat, base: nat, top: nat, q: nat, inputs: seq<Input>) returns (m: nat)
    requires Fair(s, rate, base) && slow > 0 && RatesAtLeast(s, slow) && Runnable(s, q) && KeysUpTo(s, top)
    requires |inputs| == 10 + 10 * Times(Others(s, q, MAX_PROCESSES), SlicesEach(rate, slow))
    requires top + Times(|inputs|, rate) < WORD64
    ensures RunsAfter(s, inputs, m, q)
  {
    var slice := s.procs[s.current[0]].timeSlice;
    var others := Others(s, q, MAX_PROCESSES);
    var head, rest := inputs[..slice], inputs[slice..];
    assert |rest| >= 10 * Times(others, SlicesEach(rate, slow)) && |head| + |rest| == |inputs|;
    TimesAdd(|head|, |rest|, rate);
    var least := ToNextDispatch(s, rate, slow, base, top, q, head);
    var t := Ticks(s, head);
    var k := DispatchedInBudget(t, rate, slow, least, top + Times(|head|, rate), q, rest, others);
    m := |head| + k;
    RunsLater(s, inputs, |head|, k, q);
  }

  lemma DispatchedInBudget(t: Sched, rate: nat, slow: nat, base: nat, top: nat, q: nat, inputs: seq<Input>, others: nat)
    returns (k: nat)
    requires slow > 0 && AtDispatch(t, rate, slow, base, top, q) && Others(t, q, MAX_PROCESSES) == others
    requires |inputs| >= 10 * Times(others, SlicesEach(rate, slow))
    requires top + Times(|inputs|, rate) < WORD64
    ensures RunsAfter(t, inputs, k, q)
  {
    AheadBounded(t, rate, slow, base, q, MAX_PROCESSES);
    k := DispatchedWithin(t, rate, slow, base, top, q, inputs);
  }

  lemma ToNextDispatch(s: Sched, rate: nat, slow: nat, base: nat, top: nat, q: nat, inputs: seq<Input>) returns (least: nat)
    requires Fair(s, rate, base) && RatesAtLeast(s, slow) && Runnable(s, q) && KeysUpTo(s, top)
    requires |inputs| == s.procs[s.current[0]].timeSlice && top + Times(|inputs|, rate) < WORD64
    ensures AtDispatch(Ticks(s, inputs), rate, slow, least, top + Times(|inputs|, rate), q)
    ensures Others(Ticks(s, inputs), q, MAX_PROCESSES) == Others(s, q, MAX_PROCESSES)
  {
    var p := s.current[0];
    assert FairFor(s, rate, base, p) && Runnable(s, p);
    least := RestOfSlice(s, rate, base, inputs);
    var t := Ticks(s, inputs);
    SameOthers(s, t, q, MAX_PROCESSES);
    TimesMonotone(|inputs|, |inputs|, Rate(s, p), rate);
    forall i: nat | Runnable(t, i) ensures Key(t, i) <= top + Times(|inputs|, rate) && Rate(t, i) >= slow {
      assert Runnable(s, i);
    }
  }

  lemma {:induction false} SameOthers(s: Sched, t: Sched, q: nat, n: nat)
    requires SameRunnable(s, t) && n <= MAX_PROCESSES
    ensures Others(t, q, n) == Others(s, q, n)
  {
    if n > 0 {
      SameOthers(s, t, q, n - 1);
    }
  }

  /** The same from the moment the keys are equal and nobody runs yet. */
  lemma NobodyStarvesFromStart(s: Sched, key: nat, rate: nat, slow: nat, q: nat, inputs: seq<Input>) returns (m: nat)
    requires EqualStart(s, key) && RatesUpTo(s, rate) && slow > 0 && RatesAtLeast(s, slow) && Runnable(s, q)
    requires |inputs| == 11 + 10 * Times(Others(s, q, MAX_PROCESSES), SlicesEach(rate, slow))
    requires key + Times(|inputs|, rate) < WORD64
    ensures RunsAfter(s, inputs, m, q)
  {
    FirstTick(s, key, rate, inputs[0]);
    TimesMonotone(|inputs| - 1, |inputs|, rate, rate);
    var t := Timer(s, 0, inputs[0].frame, inputs[0].fs).s;
    var k := NobodyStarvesAfterFirst(s, t, key, rate, slow, q, inputs[1..]);
    m := 1 + k;
    FirstThenMore(s, inputs, k, q);
  }

  lemma NobodyStarvesAfterFirst(s: Sched, t: Sched, key: nat, rate: nat, slow: nat, q: nat, inputs: seq<Input>) returns (k: nat)
    requires EqualStart(s, key) && slow > 0 && RatesAtLeast(s, slow) && Runnable(s, q)
    requires Fair(t, rate, key) && SameRunnable(s, t) && forall i: nat | i < MAX_PROCESSES :: Key(t, i) == Key(s, i)
    requires |inputs| == 10 + 10 * Times(Others(s, q, MAX_PROCESSES), SlicesEach(rate, slow))
    requires key + Times(|inputs|, rate) < WORD64
    ensures RunsAfter(t, inputs, k, q)
  {
    SameOthers(s, t, q, MAX_PROCESSES);
    forall i: nat | Runnable(t, i) ensures Key(t, i) <= key && Rate(t, i) >= slow {
      assert Runnable(s, i);
    }
    k := NobodyStarves(t, rate, slow, key, key, q, inputs);
  }

  lemma FirstThenMore(s: Sched, inputs: seq<Input>, k: nat, q: nat)
    requires Shape(s) && inputs != []
    requires RunsAfter(Timer(s, 0, inputs[0].frame, inputs[0].fs).s, inputs[1..], k, q)
    ensures RunsAfter(s, inputs, 1 + k, q)
  {
    assert inputs[..1 + k][1..] == inputs[1..][..k];
  }

  /** Processes created one after the other, each with its entry and its stack. */
  ghost function CreatedAll(s: Sched, starts: seq<(nat, nat)>): (t: Sched)
    requires Shape(s)
    ensures Shape(t)
  {
    if starts == [] then s
    else
      var before := CreatedAll(s, starts[..|starts| - 1]);
      Create(before, starts[|starts| - 1].0, starts[|starts| - 1].1, true)
  }

  /** Every slot is unused or holds a process that has never run. */
  ghost predicate OnlyNew(s: Sched)
  {
    && Shape(s) && s.current[0] == -1
    && forall i: nat | i < MAX_PROCESSES :: s.procs[i].state == Unused || NewProcess(s.procs[i])
  }

  predicate NewProcess(p: Process)
  {
    p.state == Ready && p.cpu == -1 && p.nice == 0 && p.runtime == 0 && p.fairKey == 0
  }

  /** Processes created at boot start with equal keys and equal positive charges, so both
      fairness results hold for them. */
  lemma {:induction false} CreatedStartEqual(s: Sched, starts: seq<(nat, nat)>)
    requires Shape(s) && s.current[0] == -1 && forall i: nat | i < MAX_PROCESSES :: s.procs[i].state == Unused
    ensures OnlyNew(CreatedAll(s, starts))
    ensures starts != [] ==> EqualStart(CreatedAll(s, starts), 0)
    ensures RatesUpTo(CreatedAll(s, starts), 976) && RatesAtLeast(CreatedAll(s, starts), 976)
    decreases |starts|
  {
    if starts != [] {
      CreatedStartEqual(s, starts[..|starts| - 1]);
      CreateNew(CreatedAll(s, starts[..|starts| - 1]), starts[|starts| - 1].0, starts[|starts| - 1].1);
    }
    var t := CreatedAll(s, starts);
    forall i: nat | Runnable(t, i) ensures Rate(t, i) == 976 {
      assert NewProcess(t.procs[i]);
    }
  }

  lemma CreateNew(s: Sched, rip: nat, rsp: nat)
    requires OnlyNew(s)
    ensures OnlyNew(Create(s, rip, rsp, true)) && exists i: nat :: Runnable(Create(s, rip, rsp, true), i)
  {
    var t := Create(s, rip, rsp, true);
    var slot := FreeSlot(s.procs, 0);
    var i := if slot < 0 then 0 else slot;
    assert slot < 0 ==> NewProcess(s.procs[0]);
    assert NewProcess(t.procs[i]) && Runnable(t, i);
  }

  /** With nice values of -9 or more every rate is positive, as starvation freedom needs;
      below that a process is charged nothing and keeps the least key. */
  lemma NiceEnough(s: Sched)
    requires Shape(s)
    ensures RatesAtLeast(s, 1) <==> forall i: nat | Runnable(s, i) :: s.procs[i].nice >= -9
  {
    forall i: nat | Runnable(s, i) ensures Rate(s, i) >= 1 <==> s.procs[i].nice >= -9 {
      DeltaPositive(s.procs[i].nice);
    }
  }

  /** Slot `p` runs, is charged nothing, and is what the scan would pick. */
  ghost predicate FreeRider(s: Sched, p: nat)
  {
    && Settled(s) && p < MAX_PROCESSES && s.current[0] == p
    && s.procs[p].state == Running && s.procs[p].cpu == 0 && Rate(s, p) == 0 && s.procs[p].runtime == Key(s, p) < WORD64
    && (forall i: nat | Runnable(s, i) :: Key(s, p) <= Key(s, i))
    && (forall i: nat | i < p && Runnable(s, i) :: Key(s, p) < Key(s, i))
  }

  /** Below nice -9 the bound is lost: such a process with the least key runs for ever. */
  lemma {:induction false} FreeRiderKeepsTheCpu(s: Sched, p: nat, inputs: seq<Input>)
    requires FreeRider(s, p)
    ensures FreeRider(Ticks(s, inputs), p)
    decreases |inputs|
  {
    if inputs != [] {
      TickedSettled(s);
      TickedShape(s);
      var t := Timer(s, 0, inputs[0].frame, inputs[0].fs).s;
      var cur := Charged(s.procs[p], inputs[0].frame, inputs[0].fs);
      var procs := s.procs[p := cur.(state := Ready)];
      assert forall i: nat | i < MAX_PROCESSES && Eligible(procs[i], 0) :: Runnable(s, i);
      PickUnique(procs, 0, MAX_PROCESSES, Pick(procs, 0, MAX_PROCESSES), p);
      assert forall i: nat | Runnable(t, i) :: Runnable(s, i);
      FreeRiderKeepsTheCpu(t, p, inputs[1..]);
    }
  }
}
