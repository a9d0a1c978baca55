/** Pipes as a step system: a bounded FIFO of bytes with lists of blocked readers and
    writers.  A blocking call's attempt and registration is one step. */
module PipeModel {
  import opened Common

  type Pid = nat

  const WAIT_MAX: nat := 32

  /** `cap` is the number of bytes the ring holds, one less than its size.  The waiters are
      listed in the order in which a wake reports them. */
  datatype Pipe = Pipe(content: seq<bv8>, cap: nat, readWaiters: seq<Pid>, writeWaiters: seq<Pid>)

  /** Stores as much as fits; storing anything wakes every blocked reader. */
  function Written(p: Pipe, data: seq<bv8>): Pipe
    requires |p.content| <= p.cap
  {
    var n := Min(|data|, p.cap - |p.content|);
    p.(content := p.content + data[..n], readWaiters := if n > 0 then [] else p.readWaiters)
  }

  /** Takes up to `len` bytes; taking anything wakes every blocked writer. */
  function Taken(p: Pipe, len: nat): Pipe
  {
    var n := Min(len, |p.content|);
    p.(content := p.content[n..], writeWaiters := if n > 0 then [] else p.writeWaiters)
  }

  lemma TakenNothing(p: Pipe, len: nat)
    ensures p.content == [] ==> Taken(p, len) == p
    ensures len > 0 && p.content != [] ==> Min(len, |p.content|) > 0
  {
  }

  /** A registration goes into the first slot that holds 0, so it overwrites that of process
      0; a caller without a process (-1) and one that finds no slot are not registered. */
  function Enqueued(list: seq<Pid>, pid: int): seq<Pid>
  {
    if pid < 0 then list
    else if list != [] && list[|list| - 1] == 0 then list[|list| - 1 := pid]
    else if |list| < WAIT_MAX then list + [pid]
    else list
  }

  datatype Step =
    | Write(data: seq<bv8>)
    | Read(len: nat)
    | WriteTurn(pid: int, data: seq<bv8>)  // one turn of a blocking write
    | ReadTurn(pid: int, len: nat)         // one turn of a blocking read

  function After(p: Pipe, step: Step): Pipe
    requires |p.content| <= p.cap
  {
    match step
    case Write(data) => Written(p, data)
    case Read(len) => Taken(p, len)
    case WriteTurn(pid, data) =>
      if data != [] && |p.content| == p.cap then p.(writeWaiters := Enqueued(p.writeWaiters, pid)) else Written(p, data)
    case ReadTurn(pid, len) =>
      if len > 0 && p.content == [] then p.(readWaiters := Enqueued(p.readWaiters, pid)) else Taken(p, len)
  }

  /** Only the last of the waiters can be process 0, and they fit the slots. */
  ghost predicate Packed(list: seq<Pid>)
  {
    |list| <= WAIT_MAX && forall i: nat | i + 1 < |list| :: list[i] != 0
  }

  /** Readers wait only while the pipe is empty, writers only while it is full. */
  ghost predicate Inv(p: Pipe)
  {
    && |p.content| <= p.cap && p.cap > 0 && Packed(p.readWaiters) && Packed(p.writeWaiters)
    && (p.readWaiters != [] ==> p.content == [])
    && (p.writeWaiters != [] ==> |p.content| == p.cap)
  }

  lemma StepKeeps(p: Pipe, step: Step)
    requires Inv(p)
    ensures Inv(After(p, step)) && After(p, step).cap == p.cap
  {
  }

  /** The bytes a step puts into the pipe, and those it takes out. */
  function In(p: Pipe, step: Step): seq<bv8>
    requires |p.content| <= p.cap
  {
    match step
    case Write(data) => data[..Min(|data|, p.cap - |p.content|)]
    case WriteTurn(_, data) => data[..Min(|data|, p.cap - |p.content|)]
    case _ => []
  }

  function Out(p: Pipe, step: Step): seq<bv8>
  {
    match step
    case Read(len) => p.content[..Min(len, |p.content|)]
    case ReadTurn(_, len) => p.content[..Min(len, |p.content|)]
    case _ => []
  }

  /** Whom a step wakes: all waiting readers when it stores something, all waiting writers
      when it takes something. */
  function Woken(p: Pipe, step: Step): seq<Pid>
    requires |p.content| <= p.cap
  {
    if In(p, step) != [] then p.readWaiters else if Out(p, step) != [] then p.writeWaiters else []
  }

  /** What one turn of a read does to each field: the first bytes leave, and with them all blocked
      writers; a turn that blocks registers its process. */
  ghost predicate ReadFields(p: Pipe, q: Pipe, pid: int, len: nat, out: seq<bv8>, blocked: bool, woken: seq<Pid>)
  {
    && |out| == Min(len, |p.content|) && p.content == out + q.content && q.cap == p.cap
    && woken == (if out == [] then [] else p.writeWaiters)
    && q.writeWaiters == (if out == [] then p.writeWaiters else [])
    && q.readWaiters == (if blocked then Enqueued(p.readWaiters, pid) else p.readWaiters)
  }

  lemma ReadTurnFields(p: Pipe, pid: int, len: nat, open: bool)
    requires |p.content| <= p.cap
    ensures var step := ReadTurn(pid, len);
            var blocked := len > 0 && p.content == [] && open;
            var q := if open then After(p, step) else Taken(p, len);
            && ReadFields(p, q, pid, len, Out(p, step), blocked, Woken(p, step))
            && q == Taken(p, len).(readWaiters := if blocked then Enqueued(p.readWaiters, pid) else p.readWaiters)
            && Out(p, step) == p.content[..Min(len, |p.content|)]
            && Woken(p, step) == if Out(p, step) == [] then [] else p.writeWaiters
  {
    var n := Min(len, |p.content|);
    assert p.content == p.content[..n] + p.content[n..];
  }

  /** What one turn of a write does to each field. */
  ghost predicate WriteFields(p: Pipe, q: Pipe, pid: int, data: seq<bv8>, n: int, blocked: bool, woken: seq<Pid>)
    requires |p.content| <= p.cap
  {
    && 0 <= n == Min(|data|, p.cap - |p.content|) && q.content == p.content + data[..n] && q.cap == p.cap
    && woken == (if n == 0 then [] else p.readWaiters)
    && q.readWaiters == (if n == 0 then p.readWaiters else [])
    && q.writeWaiters == (if blocked then Enqueued(p.writeWaiters, pid) else p.writeWaiters)
  }

  lemma WriteTurnFields(p: Pipe, pid: int, data: seq<bv8>)
    requires |p.content| <= p.cap
    ensures var step := WriteTurn(pid, data);
            WriteFields(p, After(p, step), pid, data, |In(p, step)|, data != [] && |p.content| == p.cap, Woken(p, step))
  {
    var n := Min(|data|, p.cap - |p.content|);
    assert |p.content| == p.cap ==> data[..n] == [] && p.content + data[..n] == p.content;
  }

  /** What a step puts in and takes out accounts for the change of the contents. */
  lemma StepIsFifo(p: Pipe, step: Step)
    requires Inv(p)
    ensures p.content + In(p, step) == Out(p, step) + After(p, step).content
  {
    match step
    case Read(len) =>
      assert p.content == p.content[..Min(len, |p.content|)] + p.content[Min(len, |p.content|)..];
    case ReadTurn(_, len) =>
      assert p.content == p.content[..Min(len, |p.content|)] + p.content[Min(len, |p.content|)..];
    case _ =>
  }

  ghost function Run(p: Pipe, steps: seq<Step>): (q: Pipe)
    requires Inv(p)
    ensures Inv(q) && q.cap == p.cap
    decreases |steps|
  {
    if steps == [] then p else
      StepKeeps(p, steps[0]);
      Run(After(p, steps[0]), steps[1..])
  }

  ghost function AllIn(p: Pipe, steps: seq<Step>): seq<bv8>
    requires Inv(p)
    decreases |steps|
  {
    if steps == [] then [] else
      StepKeeps(p, steps[0]);
      In(p, steps[0]) + AllIn(After(p, steps[0]), steps[1..])
  }

  ghost function AllOut(p: Pipe, steps: seq<Step>): seq<bv8>
    requires Inv(p)
    decreases |steps|
  {
    if steps == [] then [] else
      StepKeeps(p, steps[0]);
      Out(p, steps[0]) + AllOut(After(p, steps[0]), steps[1..])
  }

  /** Over every interleaving: what was there and was written is what was read followed by
      what is there now, byte for byte and in order. */
  lemma {:induction false} RunIsFifo(p: Pipe, steps: seq<Step>)
    requires Inv(p)
    ensures p.content + AllIn(p, steps) == AllOut(p, steps) + Run(p, steps).content
    decreases |steps|
  {
    if steps != [] {
      var q := After(p, steps[0]);
      StepKeeps(p, steps[0]);
      StepIsFifo(p, steps[0]);
      RunIsFifo(q, steps[1..]);
      Regroup(p.content, In(p, steps[0]), AllIn(q, steps[1..]), Out(p, steps[0]), q.content, AllOut(q, steps[1..]),
              Run(q, steps[1..]).content);
    }
  }

  lemma Regroup(a: seq<bv8>, i: seq<bv8>, ins: seq<bv8>, o: seq<bv8>, b: seq<bv8>, outs: seq<bv8>, c: seq<bv8>)
    requires a + i == o + b && b + ins == outs + c
    ensures a + (i + ins) == (o + outs) + c
  {
    assert a + (i + ins) == (a + i) + ins;
    assert (o + b) + ins == o + (b + ins);
    assert o + (outs + c) == (o + outs) + c;
  }

  // ---------------------------------------------------------------- the waiters

  function EnqueuedAll(list: seq<Pid>, later: seq<Pid>): seq<Pid>
    decreases |later|
  {
    if later == [] then list else EnqueuedAll(Enqueued(list, later[0]), later[1..])
  }

  /** Whether a registration finds a slot. */
  predicate Room(list: seq<Pid>)
  {
    |list| < WAIT_MAX || list[|list| - 1] == 0
  }

  lemma EnqueuedPacked(list: seq<Pid>, pid: int)
    requires Packed(list)
    ensures Packed(Enqueued(list, pid))
    ensures forall q <- Enqueued(list, pid) :: q in list || q == pid
    ensures forall q <- list | q != 0 :: q in Enqueued(list, pid)
    ensures pid >= 0 ==> (pid in Enqueued(list, pid) <==> Room(list) || pid in list)
  {
    var after := Enqueued(list, pid);
    forall q <- list | q != 0 ensures q in after {
      var k :| 0 <= k < |list| && list[k] == q;
      assert after[k] == q;
    }
    if pid >= 0 && Room(list) {
      assert after[|after| - 1] == pid;
    }
  }

  lemma {:induction false} KeptOrOut(list: seq<Pid>, later: seq<Pid>, pid: Pid)
    requires Packed(list) && pid !in later
    ensures pid != 0 && pid in list ==> pid in EnqueuedAll(list, later)
    ensures pid !in list ==> pid !in EnqueuedAll(list, later)
    decreases |later|
  {
    if later != [] {
      EnqueuedPacked(list, later[0]);
      KeptOrOut(Enqueued(list, later[0]), later[1..], pid);
    }
  }

  /** Who a wake reports, exactly: a process that registered, with others registering after it,
      is woken if and only if it found a slot and is not process 0 with a follower. */
  lemma RegisteredUntilWake(list: seq<Pid>, pid: Pid, later: seq<Pid>)
    requires Packed(list) && pid !in list && pid !in later
    ensures pid in EnqueuedAll(Enqueued(list, pid), later) <==> (|list| < 32 || list[|list| - 1] == 0) && (pid != 0 || later == [])
  {
    EnqueuedPacked(list, pid);
    var first := Enqueued(list, pid);
    if pid == 0 && Room(list) && later != [] {
      var second := Enqueued(first, later[0]);
      assert second == list + [later[0]];
      EnqueuedPacked(first, later[0]);
      KeptOrOut(second, later[1..], 0);
    } else {
      KeptOrOut(first, later, pid);
    }
  }

  /** Process 0 waits on an empty pipe and is woken by the next write; when another process
      starts to wait in between, only that one is. */
  lemma ProcessZeroOverwritten(p: Pipe, other: Pid, x: bv8)
    requires Inv(p) && p.content == [] && p.readWaiters == [] && other != 0
    ensures Woken(Run(p, [ReadTurn(0, 1)]), Write([x])) == [0]
    ensures Woken(Run(p, [ReadTurn(0, 1), ReadTurn(other, 1)]), Write([x])) == [other]
  {
    var q := After(p, ReadTurn(0, 1));
    StepKeeps(p, ReadTurn(0, 1));
    assert Run(p, [ReadTurn(0, 1)]) == Run(q, []) == q;
    assert [ReadTurn(0, 1), ReadTurn(other, 1)][1..] == [ReadTurn(other, 1)];
    assert Run(q, [ReadTurn(other, 1)]) == After(q, ReadTurn(other, 1));
  }
}
