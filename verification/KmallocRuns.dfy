/** Runs of the heap in one region, and two that go wrong. */
module KmallocRuns {
  import opened Kmalloc
  import opened KmallocHeaders

  // ---------------------------------------------------------------------------------
  // Runs
  // ---------------------------------------------------------------------------------

  /** `torn` are the addresses of headers that a block handed out, or a new header, may have been
      written over. */
  datatype State = State(headers: Headers, nodes: seq<Node>, torn: set<nat>)

  /** One call.  The list is that of the list model; freeing an address outside it touches
      headers only. */
  function After(s: State, op: Op): State {
    match op
    case Malloc(size) =>
      if Served(s.nodes, size) && s.nodes[FirstFit(s.nodes, size, 0)].addr in s.headers then
        var h := TookHeaders(s.headers, s.nodes[FirstFit(s.nodes, size, 0)].addr, size);
        State(h, ListAfter(s.nodes, op), NowTorn(s.torn, s.headers, h))
      else s
    case Free(ptr) =>
      if ptr < 40 || ptr - 40 !in s.headers then s
      else State(FreedHeaders(s.headers, ptr - 40), ListAfter(s.nodes, op), s.torn)
  }

  function Run(s: State, ops: seq<Op>): State
    decreases |ops|
  {
    if ops == [] then s else Run(After(s, ops[0]), ops[1..])
  }

  /** Null, or an address at which no header was ever written. */
  predicate NoHeader(s: State, ptr: nat) {
    ptr < 40 || (ptr - 40 !in s.headers && ptr - 40 !in s.torn)
  }

  /** What a free can be followed for: no header, or an intact one. */
  predicate Readable(s: State, ptr: nat) {
    NoHeader(s, ptr) || Intact(s.headers, ptr - 40)
  }

  /** What a caller may free: null, an address without a header, a block of the list, or an
      intact swallowed header with no free neighbour. */
  ghost predicate Legal(s: State, op: Op) {
    match op
    case Malloc(_) => true
    case Free(ptr) =>
      || NoHeader(s, ptr) || InList(s.nodes, ptr - 40)
      || (Intact(s.headers, ptr - 40) && !NextFree(s.headers, ptr - 40) && !PrevFree(s.headers, ptr - 40))
  }

  ghost predicate LegalRun(s: State, ops: seq<Op>)
    decreases |ops|
  {
    ops == [] || (Legal(s, ops[0]) && LegalRun(After(s, ops[0]), ops[1..]))
  }

  lemma FindInList(nodes: seq<Node>, ptr: nat)
    requires 40 <= ptr
    ensures Find(nodes, ptr, 0) < |nodes| <==> InList(nodes, ptr - 40)
  {
    if InList(nodes, ptr - 40) {
      var i :| 0 <= i < |nodes| && nodes[i].addr == ptr - 40;
      assert Payload(nodes[i]) == ptr;
    }
  }

  lemma LegalReadable(base: nat, end: nat, s: State, ptr: nat)
    requires StateInv(base, end, s.headers, s.nodes) && Legal(s, Free(ptr))
    ensures Readable(s, ptr)
  {
    if ptr >= 40 && InList(s.nodes, ptr - 40) {
      var i :| 0 <= i < |s.nodes| && s.nodes[i].addr == ptr - 40;
      assert LinkOk(s.headers, s.nodes, i);
      NextFacts(base, end, s.headers, s.nodes, i);
    }
  }

  lemma AfterKeeps(base: nat, end: nat, s: State, op: Op, n: Node)
    requires StateInv(base, end, s.headers, s.nodes) && Legal(s, op)
    ensures StateInv(base, end, After(s, op).headers, After(s, op).nodes) && After(s, op).nodes == ListAfter(s.nodes, op)
    ensures n in Used(s.nodes) && op != Free(Payload(n)) ==> n in Used(After(s, op).nodes)
  {
    StepKeeps(base, end, s.nodes, op, n);
    match op
    case Malloc(size) =>
      if Served(s.nodes, size) {
        var k := FirstFit(s.nodes, size, 0);
        assert LinkOk(s.headers, s.nodes, k);
        TookState(base, end, s.headers, s.nodes, k, size);
      }
    case Free(ptr) =>
      var k := Find(s.nodes, ptr, 0);
      assert k < |s.nodes| ==> LinkOk(s.headers, s.nodes, k);
      if 40 <= ptr && ptr - 40 in s.headers {
        FindInList(s.nodes, ptr);
        if k < |s.nodes| {
          FreedState(base, end, s.headers, s.nodes, k);
        } else {
          QuietChangesNothing(base, end, s.headers, s.nodes, ptr - 40);
        }
      }
  }

  /** Over every legal run: the blocks go on tiling the region with no two free neighbours, the
      headers stay linked accordingly, and a live allocation keeps its place and size until it
      is itself freed. */
  lemma {:induction false} RunKeeps(base: nat, end: nat, s: State, ops: seq<Op>, n: Node)
    requires StateInv(base, end, s.headers, s.nodes) && LegalRun(s, ops)
    ensures StateInv(base, end, Run(s, ops).headers, Run(s, ops).nodes)
    ensures n in Used(s.nodes) && Free(Payload(n)) !in ops ==> n in Used(Run(s, ops).nodes)
    decreases |ops|
  {
    if ops != [] {
      AfterKeeps(base, end, s, ops[0], n);
      RunKeeps(base, end, After(s, ops[0]), ops[1..], n);
    }
  }

  /** The region as the first request leaves it: one block, handed out. */
  function Start(base: nat, end: nat): State
    requires base + 40 <= end
  {
    State(map[base := Header(end - base - 40, true, 0, 0)], [Node(base, end - base - 40, true)], {})
  }

  lemma StartOk(base: nat, end: nat)
    requires 0 < base && base + 40 <= end
    ensures StateInv(base, end, Start(base, end).headers, Start(base, end).nodes)
  {
    var s := Start(base, end);
    assert s.nodes[0].addr == base && InList(s.nodes, base);
    assert LinkOk(s.headers, s.nodes, 0);
  }

  /** Over every legal run that starts with the fresh region: the live allocations are disjoint
      and inside the region, and when none is left the region is one free block again. */
  lemma RunSafe(base: nat, end: nat, ops: seq<Op>, a: Node, b: Node)
    requires 0 < base && base + 40 <= end && LegalRun(Start(base, end), ops)
    ensures var nodes := Run(Start(base, end), ops).nodes;
            && (a in Used(nodes) && b in Used(nodes) && a != b ==> End(a) <= b.addr || End(b) <= a.addr)
            && (a in Used(nodes) ==> base <= a.addr && End(a) <= end)
            && (Used(nodes) == {} ==> nodes == [Node(base, end - base - 40, false)])
  {
    StartOk(base, end);
    RunKeeps(base, end, Start(base, end), ops, a);
    var nodes := Run(Start(base, end), ops).nodes;
    if a in Used(nodes) && b in Used(nodes) {
      LiveDisjoint(base, end, nodes, a, b);
    }
    if a in Used(nodes) {
      LiveDisjoint(base, end, nodes, a, a);
    }
    if Used(nodes) == {} {
      AllFreeIsWhole(base, end, nodes);
    }
  }

  // ---------------------------------------------------------------------------------
  // A run that loses the tiling
  // ---------------------------------------------------------------------------------

  /** Frees the first block and hands out two blocks of 16 bytes. */
  function TwoBlocks(): seq<Op> {
    [Free(4136), Malloc(16), Malloc(16)]
  }

  /** The heap of one page with those two blocks. */
  function TwoBlocksState(): State {
    State(map[4096 := Header(16, true, 4152, 0), 4152 := Header(16, true, 4208, 4096), 4208 := Header(3944, false, 0, 4152)],
          [Node(4096, 16, true), Node(4152, 16, true), Node(4208, 3944, false)], {})
  }

  /** The same heap with both blocks freed: the second header is swallowed and still there. */
  function BothFreedState(): State {
    State(map[4096 := Header(4056, false, 0, 0), 4152 := Header(4000, false, 0, 4096), 4208 := Header(3944, false, 0, 4152)],
          [Node(4096, 4056, false)], {})
  }

  lemma ReachTwoBlocks()
    ensures Run(Start(4096, 8192), TwoBlocks()) == TwoBlocksState()
  {
    var s0 := Start(4096, 8192);
    var s1 := State(map[4096 := Header(4056, false, 0, 0)], [Node(4096, 4056, false)], {});
    var s2 := State(map[4096 := Header(16, true, 4152, 0), 4152 := Header(4000, false, 0, 4096)],
                    [Node(4096, 16, true), Node(4152, 4000, false)], {});
    assert After(s0, Free(4136)) == s1;
    FirstSixteen(s1, s2);
    SecondSixteen(s2);
    RunThree(s0, Free(4136), Malloc(16), Malloc(16));
  }

  lemma FirstSixteen(s1: State, s2: State)
    requires s1 == State(map[4096 := Header(4056, false, 0, 0)], [Node(4096, 4056, false)], {})
    requires s2 == State(map[4096 := Header(16, true, 4152, 0), 4152 := Header(4000, false, 0, 4096)],
                         [Node(4096, 16, true), Node(4152, 4000, false)], {})
    ensures After(s1, Malloc(16)) == s2
  {
    assert Spared(s1.headers, 4136, 4192) == s1.headers;
  }

  lemma SecondSixteen(s2: State)
    requires s2 == State(map[4096 := Header(16, true, 4152, 0), 4152 := Header(4000, false, 0, 4096)],
                         [Node(4096, 16, true), Node(4152, 4000, false)], {})
    ensures After(s2, Malloc(16)) == TwoBlocksState()
  {
    assert FirstFit(s2.nodes, 16, 0) == 1;
    assert Spared(s2.headers, 4192, 4248) == s2.headers;
  }

  lemma RunThree(s: State, a: Op, b: Op, c: Op)
    ensures Run(s, [a, b, c]) == After(After(After(s, a), b), c)
  {
    assert [a, b, c][1..] == [b, c] && [b, c][1..] == [c];
    var t := After(After(s, a), b);
    assert Run(t, [c]) == After(t, c);
  }

  lemma ReachBothFreed()
    ensures After(After(TwoBlocksState(), Free(4136)), Free(4192)) == BothFreedState()
  {
    var s0 := TwoBlocksState();
    assert Find(s0.nodes, 4136, 0) == 0;
    var s1 := After(s0, Free(4136));
    assert s1 == State(s0.headers[4096 := Header(16, false, 4152, 0)], s0.nodes[0 := Node(4096, 16, false)], {});
    assert Find(s1.nodes, 4192, 0) == 1;
    var h1 := MergedNext(s1.headers[4152 := s1.headers[4152].(used := false)], 4152);
    assert h1 == s1.headers[4152 := Header(4000, false, 0, 4096)];
    assert JoinNext([Node(4096, 16, false), Node(4152, 16, false), Node(4208, 3944, false)], 1)
        == [Node(4096, 16, false), Node(4152, 4000, false)];
  }

  lemma BothFreedOk()
    ensures StateInv(4096, 8192, BothFreedState().headers, BothFreedState().nodes)
  {
    var s := BothFreedState();
    assert LinkOk(s.headers, s.nodes, 0);
    assert s.nodes[0].addr == 4096 && InList(s.nodes, 4096);
    forall a | a in s.headers && a != 4096 ensures Under(s.headers, s.nodes, a) {
      assert Covers(s.nodes[0], a, a + 40 + s.headers[a].size);
    }
  }

  lemma {:induction false} RunCat(s: State, a: seq<Op>, b: seq<Op>)
    ensures Run(s, a + b) == Run(Run(s, a), b)
    decreases |a|
  {
    if a == [] {
      assert a + b == b;
    } else {
      assert (a + b)[1..] == a[1..] + b;
      RunCat(After(s, a[0]), a[1..], b);
    }
  }

  /** From the fresh page: two blocks, both freed, and the second freed again.  The first block
      grows past the end of its page, and no list tiles the region any more. */
  lemma DoubleFreeBreaks()
    ensures var s := Run(Start(4096, 8192), TwoBlocks() + [Free(4136), Free(4192), Free(4192)]);
            4096 in s.headers && s.headers[4096].size == 8096 && !Formed(4096, 8192, s.headers)
  {
    RunCat(Start(4096, 8192), TwoBlocks(), [Free(4136), Free(4192), Free(4192)]);
    ReachTwoBlocks();
    ReachBothFreed();
    RunThree(TwoBlocksState(), Free(4136), Free(4192), Free(4192));
    BothFreedOk();
    var s := BothFreedState();
    assert s.nodes[0].addr == 4096 && InList(s.nodes, 4096);
    StaleFreeIff(4096, 8192, s.headers, s.nodes, 4152);
  }

  /** The page with both blocks freed and 20 bytes handed out: the rest's header overlaps the
      swallowed one at 4152. */
  function TornState(): State {
    State(map[4096 := Header(20, true, 4156, 0), 4156 := Header(3996, false, 0, 4096), 4208 := Header(3944, false, 0, 4152)],
          [Node(4096, 20, true), Node(4156, 3996, false)], {4152})
  }

  lemma TwentyHeaders()
    ensures TookHeaders(BothFreedState().headers, 4096, 20) == TornState().headers
  {
    var h := BothFreedState().headers;
    assert Spared(h, 4136, 4196) == map[4096 := h[4096], 4208 := h[4208]];
  }

  lemma TwentyBytes()
    ensures After(BothFreedState(), Malloc(20)) == TornState()
  {
    TwentyHeaders();
    assert FirstFit(BothFreedState().nodes, 20, 0) == 0;
  }

  lemma NotInTornList()
    ensures !InList(TornState().nodes, 4152) && !InList(TornState().nodes, 4208)
  {
  }

  /** That state is reached from the fresh page.  Freeing the torn header is not legal, nor is
      freeing the one behind it, whose predecessor is torn. */
  lemma ReachTorn()
    ensures Run(Start(4096, 8192), TwoBlocks() + [Free(4136), Free(4192), Malloc(20)]) == TornState()
    ensures !Legal(TornState(), Free(4192)) && !Legal(TornState(), Free(4248))
  {
    RunCat(Start(4096, 8192), TwoBlocks(), [Free(4136), Free(4192), Malloc(20)]);
    ReachTwoBlocks();
    ReachBothFreed();
    RunThree(TwoBlocksState(), Free(4136), Free(4192), Malloc(20));
    TwentyBytes();
    NotInTornList();
  }
}
