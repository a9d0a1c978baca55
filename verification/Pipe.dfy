/** The pipe's ring buffer and waiter arrays edited in place. */
module PipeRing {
  import opened Common
  import opened PipeModel

  /** A fixed array of waiting processes in which 0 marks an empty slot. */
  class WaiterSlots {
    const slots: array<Pid>
    var count: nat

    ghost predicate Valid()
      reads this, slots
    {
      && slots.Length == WAIT_MAX && count <= WAIT_MAX && Packed(slots[..count])
      && forall i: nat | count <= i < WAIT_MAX :: slots[i] == 0
    }

    /** The waiters, in the order in which they are woken. */
    ghost function List(): (list: seq<Pid>)
      requires Valid()
      reads this, slots
      ensures |list| == count
    {
      slots[..count]
    }

    constructor ()
      ensures Valid() && List() == [] && slots.Length == 32 && fresh(slots)
    {
      slots := new Pid[WAIT_MAX](_ => 0);
      count := 0;
    }

    /** Puts a process into the first slot that holds 0 and raises the count to cover it. */
    method Add(pid: Pid) returns (ok: bool)
      requires Valid()
      modifies this, slots
      ensures Valid() && List() == Enqueued(old(List()), pid)
      ensures ok <==> Room(old(List()))
      ensures count == old(count) + if ok && (old(count) == 0 || old(List())[old(count) - 1] != 0) then 1 else 0
    {
      ghost var before := List();
      var i := 0;
      while i < WAIT_MAX && slots[i] != 0
        invariant 0 <= i <= WAIT_MAX && forall k: nat | k < i :: slots[k] != 0
      {
        i := i + 1;
      }
      assert count < WAIT_MAX ==> slots[count] == 0;
      assert count < WAIT_MAX ==> i <= count;
      assert count > 0 && before[count - 1] == 0 ==> i < count;
      assert forall k: nat | k < count :: before[k] == slots[k];
      if i == WAIT_MAX {
        return false;
      }
      slots[i] := pid;
      if i + 1 > count {
        count := i + 1;
      }
      assert List() == Enqueued(before, pid);
      return true;
    }

    /** Wakes everybody below the count, process 0 included, and empties the array. */
    method WakeAll() returns (woken: seq<Pid>)
      requires Valid()
      modifies this, slots
      ensures Valid() && List() == [] && woken == old(List())
    {
      woken := [];
      for i := 0 to count
        invariant count == old(count) && woken == old(slots[..i])
        invariant forall k: nat | k < WAIT_MAX :: slots[k] == if k < i then 0 else old(slots[k])
      {
        woken := woken + [slots[i]];
        slots[i] := 0;
      }
      count := 0;
    }
  }

  /** The bytes from `head` up to `tail`, going round. */
  function Ring(buffer: seq<bv8>, head: nat, tail: nat): (c: seq<bv8>)
    requires head < |buffer| && tail < |buffer|
  {
    if head <= tail then buffer[head..tail] else buffer[head..] + buffer[..tail]
  }

  /** The place after `i`, going round. */
  function Next(i: nat, size: nat): (j: nat)
    requires i < size
    ensures j < size
  {
    if i + 1 == size then 0 else i + 1
  }

  lemma NextIsModulo(i: nat, size: nat)
    requires i < size
    ensures (i + 1) % size == Next(i, size)
  {
  }

  /** Storing at the tail appends; the ring is full when the next place is the head. */
  lemma RingPut(buffer: seq<bv8>, head: nat, tail: nat, x: bv8)
    requires head < |buffer| && tail < |buffer|
    ensures |Ring(buffer, head, tail)| < |buffer|
    ensures Next(tail, |buffer|) == head <==> |Ring(buffer, head, tail)| == |buffer| - 1
    ensures Next(tail, |buffer|) != head ==>
              Ring(buffer[tail := x], head, Next(tail, |buffer|)) == Ring(buffer, head, tail) + [x]
  {
    if Next(tail, |buffer|) != head {
      assert Ring(buffer[tail := x], head, Next(tail, |buffer|)) == Ring(buffer, head, tail) + [x];
    }
  }

  /** Taking at the head removes the first byte. */
  lemma RingTake(buffer: seq<bv8>, head: nat, tail: nat)
    requires head < |buffer| && tail < |buffer| && head != tail
    ensures Ring(buffer, head, tail) != [] && buffer[head] == Ring(buffer, head, tail)[0]
    ensures Ring(buffer, Next(head, |buffer|), tail) == Ring(buffer, head, tail)[1..]
  {
    assert Ring(buffer, Next(head, |buffer|), tail) == Ring(buffer, head, tail)[1..];
  }

  lemma RingSpace(head: nat, tail: nat, size: nat)
    requires head < size && tail < size
    ensures (head + size - tail - 1) % size == if head > tail then head - tail - 1 else head + size - tail - 1
  {
    if head > tail {
      ModuloOnce(head + size - tail - 1, size);
    }
  }

  lemma ModuloOnce(x: nat, size: nat)
    requires 0 < size <= x < 2 * size
    ensures x % size == x - size
  {
    assert x == (x - size) + size * 1;
  }

  lemma TakeNext(before: seq<bv8>, data: seq<bv8>, n: nat)
    requires n < |data|
    ensures before + data[..n] + [data[n]] == before + data[..n + 1]
  {
    assert data[..n] + [data[n]] == data[..n + 1];
  }

  lemma DropNext(before: seq<bv8>, n: nat)
    requires n < |before|
    ensures before[n..][1..] == before[n + 1..] && before[n..][0] == before[n]
    ensures before[..n] + [before[n]] == before[..n + 1]
  {
  }

  class PipeTable {
    const buffer: array<bv8>
    var head: nat
    var tail: nat
    var readers: nat
    var writers: nat
    const readWait: WaiterSlots
    const writeWait: WaiterSlots

    ghost predicate Valid()
      reads this, buffer, readWait, readWait.slots, writeWait, writeWait.slots
    {
      && buffer.Length > 1 && head < buffer.Length && tail < buffer.Length
      && readWait.Valid() && writeWait.Valid() && readWait != writeWait && readWait.slots != writeWait.slots
      && buffer as object != readWait.slots && buffer as object != writeWait.slots
    }

    ghost function Bytes(): seq<bv8>
      requires Valid()
      reads this, buffer, readWait, readWait.slots, writeWait, writeWait.slots
    {
      Ring(buffer[..], head, tail)
    }

    ghost function View(): Pipe
      requires Valid()
      reads this, buffer, readWait, readWait.slots, writeWait, writeWait.slots
    {
      Pipe(Bytes(), buffer.Length - 1, readWait.List(), writeWait.List())
    }

    constructor (size: nat)
      requires size > 1
      ensures Valid() && View() == Pipe([], size - 1, [], []) && readers == writers == 1
      ensures fresh(buffer) && fresh(readWait) && fresh(readWait.slots) && fresh(writeWait) && fresh(writeWait.slots)
    {
      buffer := new bv8[size](_ => 0);
      head, tail, readers, writers := 0, 0, 1, 1;
      readWait := new WaiterSlots();
      writeWait := new WaiterSlots();
    }

    /** The free space is what the contents leave of the capacity. */
    method Space() returns (n: nat)
      requires Valid()
      ensures |View().content| + n == buffer.Length - 1
    {
      n := (head + buffer.Length - tail - 1) % buffer.Length;
      RingSpace(head, tail, buffer.Length);
    }

    /** The ring never holds more than its size less one. */
    lemma Bounded()
      requires Valid()
      ensures |View().content| < buffer.Length
    {
      RingPut(buffer[..], head, tail, 0);
    }

    /** Stores one byte unless the ring is full. */
    method PutByte(x: bv8) returns (ok: bool)
      requires Valid()
      modifies this`tail, buffer
      ensures Valid() && (ok <==> |old(Bytes())| < buffer.Length - 1)
      ensures Bytes() == if ok then old(Bytes()) + [x] else old(Bytes())
    {
      RingPut(buffer[..], head, tail, x);
      var next := (tail + 1) % buffer.Length;
      NextIsModulo(tail, buffer.Length);
      if next == head {
        return false;
      }
      ghost var bytes := buffer[..];
      buffer[tail] := x;
      assert buffer[..] == bytes[tail := x];
      tail := next;
      return true;
    }

    /** Moves bytes into the ring while there is room. */
    method PutBytes(data: seq<bv8>) returns (n: nat)
      requires Valid()
      modifies this`tail, buffer
      ensures Valid() && |old(View()).content| <= buffer.Length - 1
      ensures n == Min(|data|, buffer.Length - 1 - |old(View()).content|)
      ensures View() == old(View()).(content := old(View()).content + data[..n])
    {
      n := 0;
      ghost var before := Bytes();
      Bounded();
      assert data[..0] == [];
      while n < |data|
        invariant n <= |data| && Valid() && |before| + n <= buffer.Length - 1
        invariant Bytes() == before + data[..n]
      {
        var ok := PutByte(data[n]);
        if !ok {
          break;
        }
        TakeNext(before, data, n);
        n := n + 1;
      }
    }

    /** Moves bytes out of the ring while there are any. */
    method TakeBytes(len: nat) returns (out: seq<bv8>)
      requires Valid()
      modifies this`head
      ensures Valid() && |out| == Min(len, |old(View()).content|)
      ensures out == old(View()).content[..|out|] && View() == old(View()).(content := old(View()).content[|out|..])
    {
      out := [];
      ghost var before := Bytes();
      while |out| < len && head != tail
        invariant Valid() && |out| <= len && |out| <= |before|
        invariant out == before[..|out|] && Bytes() == before[|out|..]
        decreases len - |out|
      {
        RingTake(buffer[..], head, tail);
        DropNext(before, |out|);
        out := out + [buffer[head]];
        NextIsModulo(head, buffer.Length);
        head := (head + 1) % buffer.Length;
      }
    }

    /** Stores what fits and wakes the blocked readers; -1 when nobody reads. */
    method Write(data: seq<bv8>) returns (n: int, woken: seq<Pid>)
      requires Valid()
      modifies this, buffer, readWait, readWait.slots
      ensures Valid() && readers == old(readers) && writers == old(writers)
      ensures data == [] ==> n == 0 && View() == old(View())
      ensures data != [] && readers == 0 ==> n == -1 && View() == old(View())
      ensures data != [] && readers > 0 ==>
                n == Min(|data|, buffer.Length - 1 - |old(View()).content|) && View() == Written(old(View()), data)
      ensures woken == if n > 0 then old(View()).readWaiters else []
    {
      woken := [];
      if data == [] {
        return 0, [];
      }
      if readers == 0 {
        return -1, [];
      }
      Bounded();
      n := PutBytes(data);
      if n > 0 {
        if readWait.count > 0 {
          woken := readWait.WakeAll();
        }
      }
    }

    /** Takes what is there and wakes the blocked writers. */
    method Read(len: nat) returns (out: seq<bv8>, woken: seq<Pid>)
      requires Valid()
      modifies this, writeWait, writeWait.slots
      ensures Valid() && readers == old(readers) && writers == old(writers)
      ensures out == old(View()).content[..Min(len, |old(View()).content|)] && View() == Taken(old(View()), len)
      ensures woken == if out != [] then old(View()).writeWaiters else []
    {
      woken := [];
      if len == 0 {
        return [], [];
      }
      if writers == 0 && head == tail {
        return [], [];
      }
      out := TakeBytes(len);
      if |out| > 0 {
        woken := WakeWriters();
      }
    }

    method WakeWriters() returns (woken: seq<Pid>)
      requires Valid()
      modifies writeWait, writeWait.slots
      ensures Valid() && woken == old(View()).writeWaiters && View() == old(View()).(writeWaiters := [])
    {
      woken := [];
      if writeWait.count > 0 {
        woken := writeWait.WakeAll();
      }
    }

    /** One turn of a blocking read by a process, or by nobody (-1): takes something, or
        registers and blocks. */
    method BlockingReadTurn(pid: int, len: nat) returns (out: seq<bv8>, blocked: bool, woken: seq<Pid>)
      requires Valid() && pid >= -1
      modifies this, readWait, readWait.slots, writeWait, writeWait.slots
      ensures Valid() && |old(View()).content| <= old(View()).cap
      ensures out == Out(old(View()), ReadTurn(pid, len)) && woken == Woken(old(View()), ReadTurn(pid, len))
      ensures blocked <==> len > 0 && old(View()).content == [] && writers > 0
      ensures View() == if writers > 0 then After(old(View()), ReadTurn(pid, len)) else Taken(old(View()), len)
      ensures ReadFields(old(View()), View(), pid, len, out, blocked, woken)
    {
      Bounded();
      ghost var before := View();
      TakenNothing(before, len);
      out, woken := Read(len);
      blocked := len > 0 && out == [] && writers > 0;
      if blocked {
        RegisterReader(pid);
      }
      ReadTurnFields(before, pid, len, writers > 0);
    }

    method RegisterReader(pid: int)
      requires Valid() && pid >= -1
      modifies readWait, readWait.slots
      ensures Valid() && View() == old(View()).(readWaiters := Enqueued(old(View()).readWaiters, pid))
    {
      if pid >= 0 {
        var ok := readWait.Add(pid);
      }
    }

    method RegisterWriter(pid: int)
      requires Valid() && pid >= -1
      modifies writeWait, writeWait.slots
      ensures Valid() && View() == old(View()).(writeWaiters := Enqueued(old(View()).writeWaiters, pid))
    {
      if pid >= 0 {
        var ok := writeWait.Add(pid);
      }
    }

    /** One turn of a blocking write: stores something, or registers and blocks; -1 when
        nobody reads. */
    method BlockingWriteTurn(pid: int, data: seq<bv8>) returns (n: int, blocked: bool, woken: seq<Pid>)
      requires Valid() && pid >= -1
      modifies this, buffer, readWait, readWait.slots, writeWait, writeWait.slots
      ensures Valid() && |old(View()).content| <= old(View()).cap
      ensures blocked <==> data != [] && |old(View()).content| == old(View()).cap && readers > 0
      ensures readers == 0 && data != [] ==> n == -1 && woken == [] && View() == old(View())
      ensures readers > 0 || data == [] ==>
                && n == |In(old(View()), WriteTurn(pid, data))| && woken == Woken(old(View()), WriteTurn(pid, data))
                && View() == After(old(View()), WriteTurn(pid, data))
                && WriteFields(old(View()), View(), pid, data, n, blocked, woken)
    {
      Bounded();
      ghost var before := View();
      n, woken := Write(data);
      blocked := data != [] && n == 0;
      if blocked {
        RegisterWriter(pid);
      }
      WriteTurnFields(before, pid, data);
    }
  }
}
