/** The IPC tables edited in place: semaphores and message queues with fixed arrays, each
    call's turn proved to be the step of the model. */
module Ipc {
  import opened Common
  import opened IpcModel
  import opened QueueModel

  const DATA_SIZE: nat := 64

  /** A fixed array of blocked processes; the first is taken off by shifting the rest down. */
  class WaitList {
    const pids: array<Pid>
    var count: nat

    ghost predicate Valid()
      reads this
    {
      pids.Length == MAX_BLOCKED && count <= MAX_BLOCKED
    }

    ghost function List(): seq<Pid>
      requires Valid()
      reads this, pids
    {
      pids[..count]
    }

    constructor ()
      ensures Valid() && List() == [] && fresh(pids)
    {
      pids := new Pid[MAX_BLOCKED](_ => 0);
      count := 0;
    }

    method Push(p: Pid)
      requires Valid() && count < MAX_BLOCKED
      modifies this, pids
      ensures Valid() && List() == old(List()) + [p]
    {
      pids[count] := p;
      count := count + 1;
    }

    method Pop() returns (p: Pid)
      requires Valid() && List() != []
      modifies this, pids
      ensures Valid() && p == old(List())[0] && List() == old(List())[1..]
    {
      p := pids[0];
      for i := 1 to count
        invariant count == old(count)
        invariant forall k: nat | k < count :: pids[k] == if k < i - 1 then old(pids[k + 1]) else old(pids[k])
      {
        pids[i - 1] := pids[i];
      }
      count := count - 1;
      assert List() == old(List())[1..];
    }

    /** Takes everybody off the list, in order. */
    method PopAll() returns (all: seq<Pid>)
      requires Valid()
      modifies this, pids
      ensures Valid() && all == old(List()) && List() == []
    {
      all := [];
      while count > 0
        invariant Valid() && all + List() == old(List())
        decreases count
      {
        ghost var rest := List();
        var q := Pop();
        assert rest == [q] + List();
        all := all + [q];
      }
      assert all == all + List();
    }
  }

  class SemaphoreTable {
    var count: int
    const waiters: WaitList

    ghost predicate Valid()
      reads this, waiters
    {
      waiters.Valid()
    }

    ghost function View(): Semaphore
      requires Valid()
      reads this, waiters, waiters.pids
    {
      Semaphore(count, waiters.List())
    }

    /** A negative initial value counts as none. */
    constructor (initial: int)
      ensures Valid() && fresh(waiters) && fresh(waiters.pids)
      ensures View() == Semaphore(if initial < 0 then 0 else initial, [])
    {
      count := if initial < 0 then 0 else initial;
      waiters := new WaitList();
    }

    /** One turn of the wait loop; on Waiting the caller blocks and tries again when woken. */
    method WaitTurn(p: Pid) returns (r: Result)
      requires Valid()
      modifies this, waiters, waiters.pids
      ensures Valid() && (View(), r) == WaitStep(old(View()), p)
      ensures r == Done <==> old(count) > 0
      ensures r == Refused <==> old(count) <= 0 && |old(waiters.List())| == 16
      ensures count == if r == Done then old(count) - 1 else old(count)
      ensures waiters.List() == if r == Waiting then old(waiters.List()) + [p] else old(waiters.List())
    {
      if count <= 0 {
        if waiters.count >= MAX_BLOCKED {
          return Refused;
        }
        waiters.Push(p);
        return Waiting;
      }
      count := count - 1;
      return Done;
    }

    method Post() returns (woken: seq<Pid>)
      requires Valid()
      modifies this, waiters, waiters.pids
      ensures Valid() && (View(), woken) == PostStep(old(View()))
      ensures count == old(count) + 1
      ensures old(waiters.List()) == woken + waiters.List()
      ensures |woken| == if old(waiters.List()) == [] then 0 else 1
    {
      count := count + 1;
      if waiters.count > 0 {
        ghost var list := waiters.List();
        var p := waiters.Pop();
        assert list == [p] + list[1..];
        return [p];
      }
      return [];
    }
  }

  datatype Slot = Slot(kind: nat, data: seq<bv8>, valid: bool)

  const EMPTY: Slot := Slot(0, seq(DATA_SIZE, _ => 0), false)

  function CellOf(s: Slot): Cell
  {
    Cell(Message(s.kind, s.data), s.valid)
  }

  class MessageQueue {
    const msgs: array<Slot>
    const head: nat
    var count: nat
    const senders: WaitList
    const receivers: WaitList

    ghost predicate Valid()
      reads this, msgs, senders, receivers
    {
      && msgs.Length == QUEUE_SIZE && head < QUEUE_SIZE && count <= QUEUE_SIZE
      && senders.Valid() && receivers.Valid() && senders != receivers && senders.pids != receivers.pids
      && (forall k: nat | k < QUEUE_SIZE :: |msgs[k].data| == DATA_SIZE)
    }

    function Index(k: nat): (i: nat)
      requires head < QUEUE_SIZE
      ensures i < QUEUE_SIZE
    {
      (head + k) % 16
    }

    ghost function Cells(): (c: seq<Cell>)
      requires Valid()
      reads this, msgs, senders, receivers
      ensures |c| == count
    {
      seq(count, k requires 0 <= k < count reads this, msgs, senders, receivers requires Valid() => CellOf(msgs[Index(k)]))
    }

    ghost function View(): Queue
      requires Valid()
      reads this, msgs, senders, senders.pids, receivers, receivers.pids
    {
      Queue(Cells(), senders.List(), receivers.List())
    }

    constructor ()
      ensures Valid() && View() == Queue([], [], [])
      ensures fresh(msgs) && fresh(senders) && fresh(senders.pids) && fresh(receivers) && fresh(receivers.pids)
    {
      msgs := new Slot[QUEUE_SIZE](_ => EMPTY);
      head, count := 0, 0;
      senders := new WaitList();
      receivers := new WaitList();
    }

    /** Different places of the queue are different slots. */
    lemma IndexInjective(a: nat, b: nat)
      requires head < QUEUE_SIZE && a < QUEUE_SIZE && b < QUEUE_SIZE && Index(a) == Index(b)
      ensures a == b
    {
    }

    /** Puts a message behind the others; its first bytes are the payload. */
    method Store(kind: nat, data: seq<bv8>) returns (ghost m: Message)
      requires Valid() && count < QUEUE_SIZE && |data| <= DATA_SIZE
      modifies this`count, msgs
      ensures Valid() && Cells() == old(Cells()) + [Cell(m, true)] && m.kind == kind && data <= m.data
    {
      var tail := Index(count);
      ghost var before := Cells();
      forall k: nat | k < count ensures Index(k) != tail {
        if Index(k) == tail { IndexInjective(k, count); }
      }
      msgs[tail] := Slot(kind, data + msgs[tail].data[|data|..], true);
      count := count + 1;
      m := Message(kind, msgs[tail].data);
      assert Cells() == before + [Cell(m, true)];
    }

    /** One turn of a send: the effect is the model's, for a message that carries the payload. */
    method SendTurn(p: Pid, kind: nat, data: seq<bv8>) returns (r: Result, woken: seq<Pid>, ghost m: Message)
      requires Valid()
      modifies this, msgs, senders, senders.pids, receivers, receivers.pids
      ensures Valid()
      ensures |data| > DATA_SIZE ==> r == Refused && View() == old(View()) && woken == []
      ensures |data| <= DATA_SIZE ==> Effect(View(), r, woken) == SendStep(old(View()), p, m)
      ensures |data| <= DATA_SIZE && r == Done ==> m.kind == kind && data <= m.data
      ensures r == Done <==> |data| <= 64 && old(count) < 16
      ensures r == Waiting <==> |data| <= 64 && old(count) == 16 && |old(senders.List())| < 16
      ensures Cells() == if r == Done then old(Cells()) + [Cell(m, true)] else old(Cells())
      ensures senders.List() == if r == Waiting then old(senders.List()) + [p] else old(senders.List())
      ensures old(receivers.List()) == woken + receivers.List()
      ensures |data| <= 64 ==>
                |woken| == if old(count) == 16 then |old(receivers.List())| else if old(receivers.List()) == [] then 0 else 1
    {
      woken := [];
      m := Message(kind, data);
      if |data| > DATA_SIZE {
        return Refused, [], m;
      }
      if count >= QUEUE_SIZE {
        r, woken := SendWhenFull(p, m);
        return;
      }
      m := Store(kind, data);
      ghost var stored := Cells();
      if receivers.count > 0 {
        var q := receivers.Pop();
        woken := [q];
      }
      assert Cells() == stored;
      r := Done;
    }

    /** A full queue: everybody who waits to receive is woken, and the sender queues up. */
    method SendWhenFull(p: Pid, ghost m: Message) returns (r: Result, woken: seq<Pid>)
      requires Valid() && count == QUEUE_SIZE
      modifies this, msgs, senders, senders.pids, receivers, receivers.pids
      ensures Valid() && r != Done && Effect(View(), r, woken) == SendStep(old(View()), p, m)
    {
      woken := receivers.PopAll();
      assert Cells() == old(Cells());
      if senders.count >= MAX_BLOCKED {
        return Refused, woken;
      }
      senders.Push(p);
      return Waiting, woken;
    }

    /** Shifts the messages one place down and clears the last slot. */
    method DropFirst()
      requires Valid() && count > 0
      modifies this`count, msgs
      ensures Valid() && Cells() == old(Cells())[1..]
    {
      ghost var before := Cells();
      for k := 0 to count - 1
        invariant Valid() && count == old(count)
        invariant forall j: nat | j < count ::
                    msgs[Index(j)] == if j < k then old(msgs[Index(j + 1)]) else old(msgs[Index(j)])
      {
        forall j: nat | j < count && j != k ensures Index(j) != Index(k) {
          if Index(j) == Index(k) { IndexInjective(j, k); }
        }
        msgs[Index(k)] := msgs[Index(k + 1)];
      }
      forall j: nat | j < count - 1 ensures Index(j) != Index(count - 1) {
        if Index(j) == Index(count - 1) { IndexInjective(j, count - 1); }
      }
      msgs[Index(count - 1)] := EMPTY;
      count := count - 1;
      assert Cells() == before[1..];
    }

    /** The first slot that holds a message of the wanted kind, or the number of slots. */
    method Search(want: nat) returns (k: nat)
      requires Valid()
      ensures k == Match(Cells(), want)
    {
      k := 0;
      while k < count && !(msgs[Index(k)].valid && (want == 0 || msgs[Index(k)].kind == want))
        invariant k <= count
        invariant forall j: nat | j < k :: !Wanted(Cells()[j], want)
      {
        k := k + 1;
      }
      MatchIs(Cells(), want, k);
    }

    /** Marks a slot dead. */
    method Kill(k: nat)
      requires Valid() && k < count
      modifies msgs
      ensures Valid() && Cells() == old(Cells())[k := old(Cells())[k].(valid := false)]
    {
      forall j: nat | j < count && j != k ensures Index(j) != Index(k) {
        if Index(j) == Index(k) { IndexInjective(j, k); }
      }
      msgs[Index(k)] := msgs[Index(k)].(valid := false);
    }

    /** The sender that has waited longest, if any, is taken off its list. */
    method WakeSender() returns (woken: seq<Pid>)
      requires Valid()
      modifies senders, senders.pids
      ensures Valid() && Cells() == old(Cells()) && receivers.List() == old(receivers.List())
      ensures var list := old(senders.List());
              if list == [] then senders.List() == [] && woken == [] else senders.List() == list[1..] && woken == [list[0]]
    {
      woken := [];
      if senders.count > 0 {
        var q := senders.Pop();
        woken := [q];
      }
      assert Cells() == old(Cells());
    }

    /** One turn of a receive: the oldest message of the wanted kind is delivered, its kind and
        its first `len` bytes, at most 64. */
    method RecvTurn(p: Pid, want: nat, len: nat) returns (r: Result, woken: seq<Pid>, kind: nat, data: seq<bv8>)
      requires Valid()
      modifies this, msgs, senders, senders.pids, receivers, receivers.pids
      ensures Valid() && Effect(View(), r, woken) == RecvStep(old(View()), p, want)
      ensures r == Done ==>
                var m := old(Cells())[Match(old(Cells()), want)].m;
                kind == m.kind && data <= m.data && |data| == if len > DATA_SIZE then DATA_SIZE else len
      ensures r == Done <==> exists k: nat :: k < old(count) && Wanted(old(Cells())[k], want)
      ensures r == Refused ==> |old(receivers.List())| == 16
      ensures r == Waiting ==> |old(receivers.List())| < 16
      ensures receivers.List() == if r == Waiting then old(receivers.List()) + [p] else old(receivers.List())
      ensures old(senders.List()) == woken + senders.List()
      ensures |woken| == if r == Done && old(senders.List()) != [] then 1 else 0
      ensures r != Done ==> Cells() == old(Cells())
    {
      woken, kind, data := [], 0, [];
      var k := Search(want);
      if k < count {
        kind := msgs[Index(k)].kind;
        data := msgs[Index(k)].data[..if len > DATA_SIZE then DATA_SIZE else len];
        assert Cells()[k].m == Message(kind, msgs[Index(k)].data);
        Kill(k);
        DropFirst();
        woken := WakeSender();
        return Done, woken, kind, data;
      }
      if receivers.count >= MAX_BLOCKED {
        return Refused, [], kind, data;
      }
      receivers.Push(p);
      assert Cells() == old(Cells());
      return Waiting, [], kind, data;
    }
  }
}
