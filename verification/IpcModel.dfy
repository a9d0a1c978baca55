/** Semaphores as step systems: one call's check, registration and blocking is one step, and a
    woken process tries again in a later step. */
module IpcModel {
  import opened Common

  const MAX_BLOCKED: nat := 16

  type Pid = nat

  ghost function Members(s: seq<Pid>): set<Pid>
  {
    set p | p in s
  }

  /** Popping the first of a list of distinct processes leaves it out of the rest. */
  lemma PopFacts(s: seq<Pid>)
    requires s != [] && NoDup(s)
    ensures NoDup(s[1..]) && s[0] !in s[1..] && Members(s) == Members(s[1..]) + {s[0]}
  {
    assert s == [s[0]] + s[1..];
  }

  lemma PushFacts(s: seq<Pid>, p: Pid)
    requires NoDup(s) && p !in s
    ensures NoDup(s + [p]) && Members(s + [p]) == Members(s) + {p}
  {
  }

  /** Waking the first of a list moves it to the woken ones, which grow by one. */
  lemma WakeOne(list: seq<Pid>, woken: set<Pid>)
    requires NoDup(list) && Members(list) !! woken
    ensures list != [] ==>
              && NoDup(list[1..]) && |woken + Members([list[0]])| == |woken| + 1
              && Members(list[1..]) !! woken + Members([list[0]])
    ensures Members([]) == {}
  {
    if list != [] {
      PopFacts(list);
      assert list[0] in Members(list);
      assert Members([list[0]]) == {list[0]};
    }
  }

  // ---------------------------------------------------------------- semaphores

  datatype Semaphore = Semaphore(count: int, blocked: seq<Pid>)

  datatype Result = Done | Refused | Waiting

  /** One turn of the wait loop. */
  function WaitStep(s: Semaphore, p: Pid): (Semaphore, Result)
  {
    if s.count > 0 then (s.(count := s.count - 1), Done)
    else if |s.blocked| >= MAX_BLOCKED then (s, Refused)
    else (s.(blocked := s.blocked + [p]), Waiting)
  }

  function PostStep(s: Semaphore): (Semaphore, seq<Pid>)
  {
    if s.blocked == [] then (s.(count := s.count + 1), [])
    else (Semaphore(s.count + 1, s.blocked[1..]), [s.blocked[0]])
  }

  /** A semaphore with its past: `woken` have been taken off the list and not yet retried. */
  datatype SemSystem = SemSystem(s: Semaphore, woken: set<Pid>, initial: nat, posts: nat, completed: nat)

  datatype SemStep = SemWait(pid: Pid) | SemPost

  /** A blocked process makes no call. */
  ghost predicate SemLegal(y: SemSystem, step: SemStep)
  {
    step.SemWait? ==> step.pid !in y.s.blocked
  }

  ghost function SemAfter(y: SemSystem, step: SemStep): SemSystem
  {
    match step
    case SemWait(p) =>
      var (s, r) := WaitStep(y.s, p);
      y.(s := s, woken := y.woken - {p}, completed := y.completed + if r == Done then 1 else 0)
    case SemPost =>
      var (s, w) := PostStep(y.s);
      y.(s := s, woken := y.woken + Members(w), posts := y.posts + 1)
  }

  /** Permits are conserved, and while somebody is blocked no more permits are available
      than there are woken processes on their way to take them: no wakeup is lost. */
  ghost predicate SemInv(y: SemSystem)
  {
    && y.s.count >= 0 && y.s.count == y.initial + y.posts - y.completed
    && |y.s.blocked| <= MAX_BLOCKED && NoDup(y.s.blocked) && Members(y.s.blocked) !! y.woken
    && (y.s.blocked != [] ==> y.s.count <= |y.woken|)
  }

  lemma SemStepKeeps(y: SemSystem, step: SemStep)
    requires SemInv(y) && SemLegal(y, step)
    ensures SemInv(SemAfter(y, step))
  {
    match step
    case SemWait(p) =>
      PushFacts(y.s.blocked, p);
      CardBound(y.woken, y.woken - {p}, p);
    case SemPost =>
      WakeOne(y.s.blocked, y.woken);
  }

  lemma CardBound(a: set<Pid>, b: set<Pid>, p: Pid)
    requires b == a - {p}
    ensures |b| >= |a| - 1
  {
    if p in a {
      assert a == b + {p};
    } else {
      assert a == b;
    }
  }

  ghost predicate SemRunOk(y: SemSystem, steps: seq<SemStep>)
    decreases |steps|
  {
    steps == [] || (SemLegal(y, steps[0]) && SemRunOk(SemAfter(y, steps[0]), steps[1..]))
  }

  ghost function SemRun(y: SemSystem, steps: seq<SemStep>): SemSystem
    decreases |steps|
  {
    if steps == [] then y else SemRun(SemAfter(y, steps[0]), steps[1..])
  }

  /** Every run of waits, retries and posts conserves permits and loses no wakeup. */
  lemma {:induction false} SemRunKeeps(y: SemSystem, steps: seq<SemStep>)
    requires SemInv(y) && SemRunOk(y, steps)
    ensures SemInv(SemRun(y, steps))
    decreases |steps|
  {
    if steps != [] {
      SemStepKeeps(y, steps[0]);
      SemRunKeeps(SemAfter(y, steps[0]), steps[1..]);
    }
  }

  // ---------------------------------------------------------------- the order of waking

  ghost function Posts(steps: seq<SemStep>): nat
  {
    if steps == [] then 0 else (if steps[0].SemPost? then 1 else 0) + Posts(steps[1..])
  }

  /** Each post moves a blocked process one place forward, and nothing else moves it. */
  lemma {:induction false} MovesUp(y: SemSystem, steps: seq<SemStep>, i: nat)
    requires i < |y.s.blocked| && Posts(steps) <= i
    ensures var z := SemRun(y, steps);
            i - Posts(steps) < |z.s.blocked| && z.s.blocked[i - Posts(steps)] == y.s.blocked[i]
    decreases |steps|
  {
    if steps != [] {
      MovesUp(SemAfter(y, steps[0]), steps[1..], if steps[0].SemPost? then i - 1 else i);
    }
  }

  /** The calls of processes that wait one after the other. */
  ghost function Waits(ps: seq<Pid>): (steps: seq<SemStep>)
    ensures |steps| == |ps|
  {
    seq(|ps|, i requires 0 <= i < |ps| => SemWait(ps[i]))
  }

  /** Without a permit they line up in the order of their calls. */
  lemma {:induction false} LineUp(y: SemSystem, ps: seq<Pid>)
    requires y.s.count == 0 && |y.s.blocked| + |ps| <= 16
    ensures SemRun(y, Waits(ps)).s == Semaphore(0, y.s.blocked + ps)
    decreases |ps|
  {
    if ps == [] {
      assert y.s.blocked + ps == y.s.blocked;
    } else {
      var z := SemAfter(y, SemWait(ps[0]));
      assert Waits(ps)[1..] == Waits(ps[1..]);
      LineUp(z, ps[1..]);
      assert y.s.blocked + ps == (y.s.blocked + [ps[0]]) + ps[1..];
    }
  }

  lemma LinedUp(y: SemSystem, ps: seq<Pid>)
    requires y.s == Semaphore(0, []) && |ps| <= 16
    ensures SemRun(y, Waits(ps)).s.blocked == ps
  {
    LineUp(y, ps);
    assert [] + ps == ps;
  }

  /** A post wakes the process that is first in line. */
  lemma FirstWoken(z: SemSystem)
    requires SemInv(z) && z.s.blocked != []
    ensures var p := z.s.blocked[0];
            && p in z.s.blocked && p !in z.woken
            && p !in SemAfter(z, SemPost).s.blocked && SemAfter(z, SemPost).woken == z.woken + {p}
  {
    var p := z.s.blocked[0];
    assert p in Members(z.s.blocked);
    PopFacts(z.s.blocked);
    assert Members([p]) == {p};
  }

  /** From a semaphore without permits and without waiters, the process that waited as number
      `k` sleeps through the first `k` posts, whatever else is called between them, and post
      number `k` (counted from nought) wakes it and nobody else. */
  lemma WokenInTurn(y: SemSystem, ps: seq<Pid>, more: seq<SemStep>, k: nat)
    requires SemInv(y) && y.s.count == 0 && y.s.blocked == []
    requires |ps| <= 16 && k < |ps| && Posts(more) == k
    requires SemRunOk(y, Waits(ps)) && SemRunOk(SemRun(y, Waits(ps)), more)
    ensures var z := SemRun(SemRun(y, Waits(ps)), more);
            && ps[k] in z.s.blocked && ps[k] !in z.woken
            && ps[k] !in SemAfter(z, SemPost).s.blocked && SemAfter(z, SemPost).woken == z.woken + {ps[k]}
  {
    SemRunKeeps(y, Waits(ps));
    LinedUp(y, ps);
    var x := SemRun(y, Waits(ps));
    SemRunKeeps(x, more);
    MovesUp(x, more, k);
    FirstWoken(SemRun(x, more));
  }
}
