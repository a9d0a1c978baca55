/** When the least-key scheduler starves somebody: exactly when a process is charged nothing and
    is not alone. */
module Starvation {
  import opened SchedModel
  import opened Fairness

  /** The number of runnable slots below `n`. */
  ghost function Below(s: Sched, n: nat): nat
  {
    if n == 0 then 0 else Below(s, n - 1) + if Runnable(s, n - 1) then 1 else 0
  }

  lemma {:induction false} BelowBound(s: Sched, n: nat)
    ensures Below(s, n) <= n
  {
    if n > 0 {
      BelowBound(s, n - 1);
    }
  }

  lemma {:induction false} SameBelow(s: Sched, t: Sched, n: nat)
    requires SameRunnable(s, t) && n <= MAX_PROCESSES
    ensures Below(t, n) == Below(s, n)
  {
    if n > 0 {
      SameBelow(s, t, n - 1);
    }
  }

  /** From one runnable slot to the next one above it. */
  lemma {:induction false} BelowNext(s: Sched, j: nat, c: nat)
    requires Runnable(s, j) && j < c && forall i: nat | j < i < c :: !Runnable(s, i)
    ensures Below(s, c) == Below(s, j) + 1
    decreases c
  {
    if c > j + 1 {
      BelowNext(s, j, c - 1);
    }
  }

  /** Slot `j` was just dispatched: the slots below it have had their slice, the others still
      have the key they started with. */
  ghost predicate Round(s: Sched, rate: nat, key: nat, j: nat)
  {
    && Fair(s, rate, key) && s.current[0] == j && s.procs[j].timeSlice == 10
    && (forall i: nat | i < j && Runnable(s, i) :: Key(s, i) > key)
    && (forall i: nat | j <= i && Runnable(s, i) :: Key(s, i) == key)
  }

  /** Slot `p` is the lowest one that is charged nothing. */
  ghost predicate FirstFree(s: Sched, p: nat)
  {
    Runnable(s, p) && Rate(s, p) == 0 && forall i: nat | i < p && Runnable(s, i) :: Rate(s, i) > 0
  }

  /** After the slice of a charged slot the next runnable slot is dispatched. */
  lemma RoundStep(s: Sched, rate: nat, key: nat, j: nat, p: nat, inputs: seq<Input>) returns (c: nat)
    requires Round(s, rate, key, j) && FirstFree(s, p) && p < MAX_PROCESSES && j < p && |inputs| == 10
    requires key + 10 * rate < WORD64
    ensures j < c <= p && Round(Ticks(s, inputs), rate, key, c) && FirstFree(Ticks(s, inputs), p)
    ensures SameRunnable(s, Ticks(s, inputs)) && Below(s, c) == Below(s, j) + 1
  {
    assert FairFor(s, rate, key, j) && Runnable(s, j);
    TimesIsProduct(10, rate);
    TimesIsProduct(10, Rate(s, j));
    var least := RestOfSlice(s, rate, key, inputs);
    var t := Ticks(s, inputs);
    c := t.current[0];
    NextRound(s, t, rate, key, least, j, p, c);
    BelowNext(s, j, c);
  }

  lemma NextRound(s: Sched, t: Sched, rate: nat, key: nat, least: nat, j: nat, p: nat, c: nat)
    requires Round(s, rate, key, j) && FirstFree(s, p) && p < MAX_PROCESSES && j < p
    requires Fair(t, rate, least) && t.procs[t.current[0]].timeSlice == 10 && LowestFirst(t) && t.current[0] == c
    requires OnlyCharged(s, t, j, 10 * Rate(s, j))
    ensures j < c <= p && Round(t, rate, key, c) && FirstFree(t, p)
    ensures forall i: nat | j < i < c :: !Runnable(s, i)
  {
    assert FairFor(s, rate, key, j) && Runnable(s, j) && Runnable(t, j);
    assert Runnable(t, p) && Key(t, p) == key;
    assert Runnable(t, c) && FairFor(t, rate, least, p) && FairFor(t, rate, least, c);
    forall i: nat | Runnable(t, i) ensures Key(t, i) >= key && (i <= j ==> Key(t, i) > key) && (i > j ==> Key(t, i) == key) {
      assert Runnable(s, i);
    }
    assert Key(t, c) == least == key;
    forall i: nat | j < i < c ensures !Runnable(s, i) {
      assert Runnable(s, i) ==> Runnable(t, i);
    }
  }

  /** After the given ticks slot `p` runs, is charged nothing and has the least key. */
  ghost predicate RidesAfter(s: Sched, inputs: seq<Input>, p: nat)
  {
    Shape(s) && FreeRider(Ticks(s, inputs), p)
  }

  lemma RidesLater(s: Sched, inputs: seq<Input>, n: nat, p: nat)
    requires Shape(s) && n <= |inputs| && RidesAfter(Ticks(s, inputs[..n]), inputs[n..], p)
    ensures RidesAfter(s, inputs, p)
  {
    Split(inputs, n);
    TicksAppend(s, inputs[..n], inputs[n..]);
  }

  lemma Split(inputs: seq<Input>, n: nat)
    requires n <= |inputs|
    ensures inputs == inputs[..n] + inputs[n..]
  {
  }

  lemma RoundIsRide(s: Sched, rate: nat, key: nat, p: nat)
    requires Round(s, rate, key, p) && FirstFree(s, p) && p < MAX_PROCESSES && key < WORD64
    ensures RidesAfter(s, [], p)
  {
    assert FairFor(s, rate, key, p);
  }

  /** Round after round, up to the first slot that is charged nothing. */
  lemma {:induction false} RoundsTo(s: Sched, rate: nat, key: nat, j: nat, p: nat, inputs: seq<Input>)
    requires Round(s, rate, key, j) && FirstFree(s, p) && j <= p < MAX_PROCESSES && key + 10 * rate < WORD64
    requires |inputs| == 10 * (Below(s, p) - Below(s, j))
    ensures RidesAfter(s, inputs, p)
    decreases p - j
  {
    if j == p {
      assert inputs == [];
      RoundIsRide(s, rate, key, p);
    } else {
      assert FairFor(s, rate, key, j) && Runnable(s, j);
      BelowGrows(s, j, p);
      var c := RoundStep(s, rate, key, j, p, inputs[..10]);
      var t := Ticks(s, inputs[..10]);
      SameBelow(s, t, c);
      SameBelow(s, t, p);
      RoundsTo(t, rate, key, c, p, inputs[10..]);
      RidesLater(s, inputs, 10, p);
    }
  }

  /** From equal keys, the lowest slot that is charged nothing has the CPU for good after one
      tick and one slice for each runnable slot below it. */
  lemma FreeRiderReached(s: Sched, key: nat, rate: nat, p: nat, inputs: seq<Input>)
    requires EqualStart(s, key) && RatesUpTo(s, rate) && FirstFree(s, p) && key + 10 * rate < WORD64
    requires |inputs| == 1 + 10 * Below(s, p)
    ensures RidesAfter(s, inputs, p)
  {
    FirstTick(s, key, rate, inputs[0]);
    var t := Timer(s, 0, inputs[0].frame, inputs[0].fs).s;
    FirstRound(s, t, key, rate, p);
    SameBelow(s, t, p);
    RoundsTo(t, rate, key, t.current[0], p, inputs[1..]);
  }

  lemma FirstRound(s: Sched, t: Sched, key: nat, rate: nat, p: nat)
    requires EqualStart(s, key) && FirstFree(s, p) && Fair(t, rate, key) && t.procs[t.current[0]].timeSlice == 10
    requires SameRunnable(s, t) && LowestFirst(t) && forall i: nat | i < MAX_PROCESSES :: Key(t, i) == Key(s, i)
    ensures t.current[0] <= p < MAX_PROCESSES && Round(t, rate, key, t.current[0]) && FirstFree(t, p)
    ensures Below(t, t.current[0]) == 0
  {
    var c := t.current[0];
    assert FairFor(t, rate, key, c) && Runnable(t, c) && Runnable(s, c) && Runnable(t, p);
    forall i: nat | i < c ensures !Runnable(t, i) {
      assert Runnable(t, i) ==> Runnable(s, i);
    }
    NoneBelow(t, c);
  }

  lemma {:induction false} NoneBelow(s: Sched, n: nat)
    requires forall i: nat | i < n :: !Runnable(s, i)
    ensures Below(s, n) == 0
  {
    if n > 0 {
      NoneBelow(s, n - 1);
    }
  }

  lemma {:induction false} BelowMonotone(s: Sched, a: nat, b: nat)
    requires a <= b
    ensures Below(s, a) <= Below(s, b)
  {
    if a < b {
      BelowMonotone(s, a, b - 1);
    }
  }

  lemma BelowGrows(s: Sched, j: nat, p: nat)
    requires Runnable(s, j) && j < p
    ensures Below(s, j) < Below(s, p)
  {
    BelowMonotone(s, j + 1, p);
  }

  // ---------------------------------------------------------------- going on

  /** Ticks after which a free rider, if there is one, has the CPU. */
  const SETTLE: nat := 1 + 10 * MAX_PROCESSES

  /** Ticks in which every process gets its turn when all are charged. */
  function Turnaround(rate: nat): nat
  {
    10 + 10 * Times(MAX_PROCESSES, SlicesEach(rate, 1))
  }

  /** Slot `q` still gets the CPU after the settling time. */
  ghost predicate GoesOn(s: Sched, inputs: seq<Input>, q: nat)
  {
    exists m: nat :: SETTLE <= m && RunsAfter(s, inputs, m, q)
  }

  ghost predicate Alone(s: Sched, q: nat)
  {
    forall i: nat | Runnable(s, i) :: i == q
  }

  /** The run at the end of the settling time. */
  lemma SettledState(s: Sched, key: nat, rate: nat, inputs: seq<Input>) returns (later: nat)
    requires EqualStart(s, key) && RatesUpTo(s, rate) && |inputs| >= SETTLE && key + Times(|inputs|, rate) < WORD64
    ensures var t := Ticks(s, inputs[..SETTLE]);
            && Fair(t, rate, later) && SameRunnable(s, t) && KeysUpTo(t, key + Times(SETTLE, rate))
  {
    FirstTick(s, key, rate, inputs[0]);
    var t := Timer(s, 0, inputs[0].frame, inputs[0].fs).s;
    TimesMonotone(SETTLE - 1, |inputs|, rate, rate);
    TimesMonotone(SETTLE - 1, SETTLE, rate, rate);
    var head := inputs[..SETTLE];
    later := SettledFrom(s, t, key, rate, head[1..]);
  }

  lemma SettledFrom(s: Sched, t: Sched, key: nat, rate: nat, inputs: seq<Input>) returns (later: nat)
    requires EqualStart(s, key) && Fair(t, rate, key) && SameRunnable(s, t)
    requires forall i: nat | i < MAX_PROCESSES :: Key(t, i) == Key(s, i)
    requires |inputs| == SETTLE - 1 && key + Times(|inputs|, rate) < WORD64
    ensures Fair(Ticks(t, inputs), rate, later) && SameRunnable(s, Ticks(t, inputs))
    ensures KeysUpTo(Ticks(t, inputs), key + Times(SETTLE, rate))
  {
    forall i: nat | Runnable(t, i) ensures Key(t, i) <= key {
      assert Runnable(s, i);
    }
    TimesMonotone(|inputs|, SETTLE, rate, rate);
    later := FairForever(t, rate, key, key, inputs);
    var u := Ticks(t, inputs);
    forall i: nat | Runnable(u, i) ensures Key(u, i) <= key + Times(SETTLE, rate) {
      assert Runnable(t, i);
    }
  }

  /** With positive charges everybody goes on. */
  lemma ChargedGoOn(s: Sched, key: nat, rate: nat, inputs: seq<Input>, q: nat)
    requires EqualStart(s, key) && RatesUpTo(s, rate) && RatesAtLeast(s, 1) && Runnable(s, q)
    requires |inputs| == SETTLE + Turnaround(rate) && key + Times(|inputs|, rate) < WORD64
    ensures GoesOn(s, inputs, q)
  {
    var later := SettledState(s, key, rate, inputs);
    var t, rest := Ticks(s, inputs[..SETTLE]), inputs[SETTLE..];
    TimesAdd(SETTLE, |rest|, rate);
    var k := TurnWithin(s, t, rate, later, key + Times(SETTLE, rate), rest, q);
    RunsLater(s, inputs, SETTLE, k, q);
  }

  lemma TurnWithin(s: Sched, t: Sched, rate: nat, base: nat, top: nat, inputs: seq<Input>, q: nat) returns (k: nat)
    requires Fair(t, rate, base) && SameRunnable(s, t) && RatesAtLeast(s, 1) && Runnable(s, q) && KeysUpTo(t, top)
    requires |inputs| == Turnaround(rate) && top + Times(|inputs|, rate) < WORD64
    ensures RunsAfter(t, inputs, k, q)
  {
    OthersBound(t, q, MAX_PROCESSES);
    var need := 10 + 10 * Times(Others(t, q, MAX_PROCESSES), SlicesEach(rate, 1));
    TimesMonotone(Others(t, q, MAX_PROCESSES), MAX_PROCESSES, SlicesEach(rate, 1), SlicesEach(rate, 1));
    TimesMonotone(need, |inputs|, rate, rate);
    forall i: nat | Runnable(t, i) ensures Rate(t, i) >= 1 {
      assert Runnable(s, i);
    }
    k := NobodyStarves(t, rate, 1, base, top, q, inputs[..need]);
    assert inputs[..need][..k] == inputs[..k];
  }

  lemma {:induction false} OthersBound(s: Sched, q: nat, n: nat)
    ensures Others(s, q, n) <= n
  {
    if n > 0 {
      OthersBound(s, q, n - 1);
    }
  }

  /** Whoever is alone goes on. */
  lemma AloneGoesOn(s: Sched, key: nat, rate: nat, inputs: seq<Input>, q: nat)
    requires EqualStart(s, key) && RatesUpTo(s, rate) && Alone(s, q) && Runnable(s, q)
    requires |inputs| >= SETTLE && key + Times(|inputs|, rate) < WORD64
    ensures GoesOn(s, inputs, q)
  {
    var later := SettledState(s, key, rate, inputs);
    var t := Ticks(s, inputs[..SETTLE]);
    assert Runnable(t, t.current[0]) && Runnable(s, t.current[0]);
    assert RunsAfter(s, inputs, SETTLE, q);
  }

  /** Beside a free rider nobody goes on. */
  lemma RiderStopsOthers(s: Sched, key: nat, rate: nat, inputs: seq<Input>, p: nat, q: nat)
    requires EqualStart(s, key) && RatesUpTo(s, rate) && FirstFree(s, p) && q != p && key + 10 * rate < WORD64
    ensures !GoesOn(s, inputs, q)
  {
    BelowBound(s, p);
    forall m: nat | SETTLE <= m && RunsAfter(s, inputs, m, q) ensures false {
      RiderStillRuns(s, key, rate, inputs[..m], p);
    }
  }

  /** The lowest slot that is charged nothing has the CPU from then on. */
  lemma RiderStillRuns(s: Sched, key: nat, rate: nat, inputs: seq<Input>, p: nat)
    requires EqualStart(s, key) && RatesUpTo(s, rate) && FirstFree(s, p) && key + 10 * rate < WORD64
    requires |inputs| >= 1 + 10 * Below(s, p)
    ensures Ticks(s, inputs).current[0] == p
  {
    var n := 1 + 10 * Below(s, p);
    FreeRiderReached(s, key, rate, p, inputs[..n]);
    FreeRiderKeepsTheCpu(Ticks(s, inputs[..n]), p, inputs[n..]);
    Split(inputs, n);
    TicksAppend(s, inputs[..n], inputs[n..]);
  }

  /** The lowest slot that is charged nothing, when there is one. */
  lemma {:induction false} LowestFree(s: Sched, n: nat) returns (p: nat)
    requires Shape(s) && Runnable(s, n) && Rate(s, n) == 0
    ensures p <= n && FirstFree(s, p)
    decreases n
  {
    if i: nat :| i < n && Runnable(s, i) && Rate(s, i) == 0 {
      p := LowestFree(s, i);
    } else {
      p := n;
    }
  }

  ghost predicate EverybodyGoesOn(s: Sched, inputs: seq<Input>)
  {
    forall q: nat | Runnable(s, q) :: GoesOn(s, inputs, q)
  }

  /** Every runnable process has a nice value of at least -9. */
  ghost predicate AllNice(s: Sched)
  {
    forall i: nat | Runnable(s, i) :: s.procs[i].nice >= -9
  }

  /** Somebody is the only runnable process. */
  ghost predicate Single(s: Sched)
  {
    exists q: nat :: Runnable(s, q) && Alone(s, q)
  }

  lemma AllGoOn(s: Sched, key: nat, rate: nat, inputs: seq<Input>)
    requires EqualStart(s, key) && RatesUpTo(s, rate) && (RatesAtLeast(s, 1) || Single(s))
    requires |inputs| == SETTLE + Turnaround(rate) && key + Times(|inputs|, rate) < WORD64
    ensures EverybodyGoesOn(s, inputs)
  {
    forall q: nat | Runnable(s, q) ensures GoesOn(s, inputs, q) {
      if RatesAtLeast(s, 1) {
        ChargedGoOn(s, key, rate, inputs, q);
      } else {
        AloneGoesOn(s, key, rate, inputs, q);
      }
    }
  }

  lemma SomebodyStops(s: Sched, key: nat, rate: nat, inputs: seq<Input>)
    requires EqualStart(s, key) && RatesUpTo(s, rate) && !RatesAtLeast(s, 1) && !Single(s) && key + 10 * rate < WORD64
    ensures !EverybodyGoesOn(s, inputs)
  {
    var n: nat :| Runnable(s, n) && Rate(s, n) < 1;
    var p := LowestFree(s, n);
    assert !Alone(s, p);
    var q: nat :| Runnable(s, q) && q != p;
    RiderStopsOthers(s, key, rate, inputs, p, q);
  }

  /** From equal keys everybody goes on being dispatched if and only if every runnable process
      has a nice value of at least -9, or only one process is runnable. */
  lemma EverybodyGoesOnIff(s: Sched, key: nat, rate: nat, inputs: seq<Input>)
    requires EqualStart(s, key) && RatesUpTo(s, rate)
    requires |inputs| == SETTLE + Turnaround(rate) && key + Times(|inputs|, rate) < WORD64
    ensures EverybodyGoesOn(s, inputs) <==> AllNice(s) || Single(s)
  {
    NiceEnough(s);
    if RatesAtLeast(s, 1) || Single(s) {
      AllGoOn(s, key, rate, inputs);
    } else {
      TimesIsProduct(10, rate);
      TimesMonotone(10, |inputs|, rate, rate);
      SomebodyStops(s, key, rate, inputs);
    }
  }
}
