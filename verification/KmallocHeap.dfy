/** The heap's headers edited in place. */
module KmallocHeap {
  import opened Kmalloc
  import opened KmallocHeaders
  import opened KmallocRuns

  class Heap {
    const base: nat
    const end: nat
    /** The payload bytes of the region, by address from `base`. */
    const mem: array<bv8>
    /** The headers in memory; a header swallowed by a merge stays where it was, until a block
        handed out or a new header goes over it. */
    var headers: map<nat, Header>
    ghost var nodes: seq<Node>
    ghost var torn: set<nat>  // where headers were gone over

    ghost predicate Valid()
      reads this
    {
      mem.Length == end - base && StateInv(base, end, headers, nodes)
    }

    ghost function View(): State
      reads this
    {
      State(headers, nodes, torn)
    }

    /** A live block of at least `size` bytes at `r` that starts with `bytes`. */
    ghost predicate Holds(r: nat, size: nat, bytes: seq<bv8>)
      reads this, mem
    {
      exists m :: m in Used(nodes) && Payload(m) == r && size <= m.size && bytes <= Slice(mem[..], base, m)
    }

    /** The first allocation: a region of whole pages is mapped and handed out as one block. */
    constructor (start: nat, size: nat)
      requires 0 < start && 0 < size <= 0x100000
      ensures Valid() && fresh(mem) && base == start && end == start + RegionSize(size)
      ensures View() == Start(base, end)
    {
      base := start;
      end := start + RegionSize(size);
      mem := new bv8[RegionSize(size)];
      headers := map[start := Header(RegionSize(size) - 40, true, 0, 0)];
      nodes := [Node(start, RegionSize(size) - 40, true)];
      torn := {};
      new;
      StartOk(base, end);
    }

    /** First fit: the payload address of the first free block that is large enough, split
        when the rest can hold a block; 0 for a bad size or when no vacant stretch of the
        region is large enough. */
    method Kmalloc(size: nat) returns (p: nat)
      requires Valid()
      modifies this
      ensures Valid() && View() == After(old(View()), Malloc(size)) && nodes == ListAfter(old(nodes), Malloc(size))
      ensures p == 0 <==> !Served(old(nodes), size)
      ensures size == 0 || size > 0x100000 ==> p == 0
      ensures p == 0 ==> nodes == old(nodes) && headers == old(headers)
      ensures p != 0 ==> FirstFit(old(nodes), size, 0) < |nodes| && p == Payload(nodes[FirstFit(old(nodes), size, 0)])
      ensures p == 0 && 0 < size <= 0x100000 ==>
                forall lo, hi :: base <= lo < hi <= end && Vacant(nodes, lo, hi) ==> hi - lo < 40 + size
    {
      p := 0;
      AfterKeeps(base, end, View(), Malloc(size), nodes[0]);
      if size == 0 || size > MAX_SIZE {
        return;
      }
      ghost var k := FirstFit(nodes, size, 0);
      ghost var i := 0;
      var block := base;
      while block != 0
        invariant Valid() && nodes == old(nodes) && headers == old(headers) && torn == old(torn)
        invariant i <= |nodes| && k == FirstFit(nodes, size, i)
        invariant block == if i < |nodes| then nodes[i].addr else 0
        decreases |nodes| - i
      {
        assert LinkOk(headers, nodes, i);
        if !headers[block].used && headers[block].size >= size {
          p := Take(block, size, i);
          return;
        }
        NextFacts(base, end, headers, nodes, i);
        block := headers[block].next;
        i := i + 1;
      }
      if i < |nodes| {
        InRegion(base, end, nodes, i);
        assert false;
      }
      MissIff(base, end, nodes, size);
    }

    method Take(block: nat, size: nat, ghost k: nat) returns (p: nat)
      requires Valid() && k < |nodes| && Fits(nodes[k], size) && block == nodes[k].addr
      modifies this
      ensures Valid() && nodes == Taken(old(nodes), k, size) && p == block + 40
      ensures block in old(headers) && headers == TookHeaders(old(headers), block, size)
      ensures torn == NowTorn(old(torn), old(headers), headers)
    {
      assert LinkOk(headers, nodes, k);
      NextFacts(base, end, headers, nodes, k);
      TookState(base, end, headers, nodes, k, size);
      if headers[block].next != 0 {
        NextSpared(base, end, headers, nodes, k, size, block);
      }
      WriteTaken(block, size);
      nodes := Taken(nodes, k, size);
      torn := NowTorn(torn, old(headers), headers);
      p := block + HEADER;
    }

    /** The header writes of an allocation. */
    method WriteTaken(block: nat, size: nat)
      requires block in headers
      requires headers[block].next != 0 ==> headers[block].next in Spared(headers, block + 40, Reach(headers, block, size))
      modifies this`headers
      ensures headers == TookHeaders(old(headers), block, size)
    {
      headers := Spared(headers, block + HEADER, Reach(headers, block, size));
      if headers[block].size >= size + HEADER + MIN_SIZE {
        var rest := block + HEADER + size;
        var next := headers[block].next;
        headers := headers[rest := Header(headers[block].size - size - HEADER, false, next, block)];
        if next != 0 {
          headers := headers[next := headers[next].(prev := rest)];
        }
        headers := headers[block := headers[block].(next := rest, size := size)];
      }
      headers := headers[block := headers[block].(used := true)];
    }

    /** Frees whatever has a header at the address.  A block of the list is released and joined
        with its free neighbours; null, an address without a header and a block that is already
        free change no block.  After the free of an intact swallowed header the headers describe
        a tiling of the region if and only if it was harmless. */
    method Kfree(ptr: nat)
      requires Valid() && Readable(View(), ptr)
      modifies this
      ensures View() == After(old(View()), Free(ptr))
      ensures Legal(old(View()), Free(ptr)) ==> Valid() && Used(nodes) == set n | n in Used(old(nodes)) && Payload(n) != ptr
      ensures 40 <= ptr && ptr - 40 in old(headers) && !InList(old(nodes), ptr - 40) ==>
                (Formed(base, end, headers) <==> Harmless(old(headers), old(nodes), ptr - 40))
    {
      FreeFacts(base, end, View(), ptr);
      if ptr < HEADER || ptr - HEADER !in headers {
        return;
      }
      FreeHeader(ptr - HEADER);
      nodes := ListAfter(nodes, Free(ptr));
    }

    /** Clears the flag, takes in the next header when it is free, then lets the previous one,
        when free, take this one in. */
    method FreeHeader(block: nat)
      requires Intact(headers, block) && HeadersOk(headers, base, end) && 0 < base
      modifies this`headers
      ensures headers == FreedHeaders(old(headers), block)
    {
      UnflaggedOk(base, end, headers, block);
      headers := headers[block := headers[block].(used := false)];
      MergedNextOk(base, end, headers, block);
      NextKeepsPrev(base, end, headers, block);
      TakeInNext(block);
      JoinPrev(block);
    }

    method TakeInNext(block: nat)
      requires block in headers && HeadersOk(headers, base, end) && 0 < base
      modifies this`headers
      ensures headers == MergedNext(old(headers), block)
    {
      assert HeaderOk(headers, base, end, block);
      var next := headers[block].next;
      if next != 0 && !headers[next].used {
        assert HeaderOk(headers, base, end, next);
        headers := headers[block := headers[block].(size := headers[block].size + HEADER + headers[next].size)];
        headers := headers[block := headers[block].(next := headers[next].next)];
        if headers[block].next != 0 {
          headers := headers[headers[block].next := headers[headers[block].next].(prev := block)];
        }
      }
    }

    method JoinPrev(block: nat)
      requires Intact(headers, block) && HeadersOk(headers, base, end) && 0 < base
      modifies this`headers
      ensures headers == MergedPrev(old(headers), block)
    {
      assert HeaderOk(headers, base, end, block);
      var prev := headers[block].prev;
      if prev != 0 && !headers[prev].used {
        headers := headers[prev := headers[prev].(size := headers[prev].size + HEADER + headers[block].size)];
        headers := headers[prev := headers[prev].(next := headers[block].next)];
        if headers[block].next != 0 {
          headers := headers[headers[block].next := headers[headers[block].next].(prev := headers[block].prev)];
        }
      }
    }

    /** Grows an allocation: the block itself when it is large enough, else a new block with
        the old bytes; every other live block keeps its bytes.  For a header outside the list
        only what happens to the headers is said. */
    method Krealloc(ptr: nat, size: nat) returns (r: nat)
      requires Valid() && CanRealloc(View(), ptr, size)
      modifies this, mem
      ensures View() == Run(old(View()), ReallocCalls(old(View()), ptr, size))
      ensures ptr == 0 ==> (r == 0 <==> !Served(old(nodes), size))
      ensures ptr != 0 && (size == 0 || ptr < 40 || ptr - 40 !in old(headers)) ==> r == 0
      ensures ptr != 0 && size != 0 && 40 <= ptr && ptr - 40 in old(headers) ==>
                if old(headers)[ptr - 40].size >= size then r == ptr else (r == 0 <==> !Served(old(nodes), size))
      ensures Known(old(View()), ptr) ==>
                && Valid() && OthersLive(old(nodes), nodes, ptr)
                && KeepsBytes(old(mem[..]), mem[..], base, old(nodes), ptr)
      ensures ptr != 0 && size != 0 && Find(old(nodes), ptr, 0) < |old(nodes)| && r != 0 && r != ptr ==>
                Holds(r, size, Slice(old(mem[..]), base, old(nodes)[Find(old(nodes), ptr, 0)]))
    {
      ghost var before := View();
      RunShort(before, Malloc(size), Free(ptr));
      if ptr == 0 {
        OthersLiveAfter(base, end, nodes, Malloc(size), ptr);
        r := Kmalloc(size);
        return;
      }
      if size == 0 {
        OthersLiveAfter(base, end, nodes, Free(ptr), ptr);
        FreeFacts(base, end, before, ptr);
        Kfree(ptr);
        return 0;
      }
      NoHeaderNoBlock(headers, nodes, ptr);
      if ptr < HEADER || ptr - HEADER !in headers {
        return 0;
      }
      var oldSize := headers[ptr - HEADER].size;
      if oldSize >= size {
        return ptr;
      }
      r := Move(ptr, size, oldSize);
    }

    /** A new block with the old bytes in place of one that is too small; 0 and no change
        when there is no room. */
    method Move(ptr: nat, size: nat, oldSize: nat) returns (r: nat)
      requires Valid() && 40 <= ptr && ptr - 40 in headers && headers[ptr - 40].size == oldSize < size
      requires Served(nodes, size) ==> Readable(After(View(), Malloc(size)), ptr)
      modifies this, mem
      ensures r == 0 <==> !Served(old(nodes), size)
      ensures r == 0 ==> View() == old(View()) && mem[..] == old(mem[..])
      ensures r != 0 ==> View() == After(After(old(View()), Malloc(size)), Free(ptr))
      ensures Known(old(View()), ptr) ==>
                && Valid() && OthersLive(old(nodes), nodes, ptr)
                && KeepsBytes(old(mem[..]), mem[..], base, old(nodes), ptr)
      ensures r != 0 && Find(old(nodes), ptr, 0) < |old(nodes)| ==>
                r != ptr && Holds(r, size, Slice(old(mem[..]), base, old(nodes)[Find(old(nodes), ptr, 0)]))
    {
      ghost var before, was, k := nodes, mem[..], Find(nodes, ptr, 0);
      FindInList(nodes, ptr);
      assert HeaderOk(headers, base, end, ptr - 40);
      assert k < |nodes| ==> LinkOk(headers, nodes, k);
      StepKeepsAll(base, end, nodes, Malloc(size));
      r := Kmalloc(size);
      if r == 0 {
        return;
      }
      ghost var m := CopyToNew(ptr, r, oldSize, size, before);
      StepFrees(base, end, nodes, ptr);
      Kfree(ptr);
      if k < |before| {
        assert m in Used(nodes) && Payload(m) == r && size <= m.size;
        assert Holds(r, size, Slice(old(mem[..]), base, before[k]));
      }
    }

    /** Copies the old bytes into the new block; no other live block is touched when the old
        one is a block of the list. */
    method CopyToNew(ptr: nat, r: nat, oldSize: nat, size: nat, ghost before: seq<Node>) returns (ghost m: Node)
      requires mem.Length == end - base && Inv(base, end, before) && Served(before, size) && oldSize < size
      requires base + 40 <= ptr && ptr + oldSize <= end
      requires r == Payload(ListAfter(before, Malloc(size))[FirstFit(before, size, 0)])
      requires Find(before, ptr, 0) < |before| ==> before[Find(before, ptr, 0)].size == oldSize
      modifies mem
      ensures m in Used(ListAfter(before, Malloc(size))) && Payload(m) == r && size <= m.size
      ensures Find(before, ptr, 0) < |before| ==>
                && r != ptr && KeepsBytes(old(mem[..]), mem[..], base, before, 0)
                && Slice(old(mem[..]), base, before[Find(before, ptr, 0)]) <= Slice(mem[..], base, m)
                && Find(ListAfter(before, Malloc(size)), ptr, 0) < |ListAfter(before, Malloc(size))|
    {
      ghost var k, was := Find(before, ptr, 0), mem[..];
      m := Granted(base, end, before, size);
      CopyBytes(ptr - base, r - base, oldSize);
      if k < |before| {
        CopiedNew(base, end, before, k, size, was, mem[..], m);
      }
    }

    /** The byte-by-byte copy. */
    method CopyBytes(src: nat, dst: nat, len: nat)
      requires src + len <= mem.Length && dst + len <= mem.Length
      modifies mem
      ensures src + len <= dst || dst + len <= src ==> CopiedTo(old(mem[..]), mem[..], src, dst, len)
    {
      ghost var apart := src + len <= dst || dst + len <= src;
      for i := 0 to len
        invariant apart ==> forall x :: dst <= x < dst + i ==> mem[x] == old(mem[x - dst + src])
        invariant apart ==> forall x :: 0 <= x < mem.Length && !(dst <= x < dst + i) ==> mem[x] == old(mem[x])
      {
        mem[dst + i] := mem[src + i];
      }
    }
  }

  /** Null, an address without a header, or a block of the list. */
  ghost predicate Known(s: State, ptr: nat) {
    NoHeader(s, ptr) || InList(s.nodes, ptr - 40)
  }

  /** The header is intact at every call that growing the allocation makes. */
  ghost predicate CanRealloc(s: State, ptr: nat, size: nat) {
    && Readable(s, ptr)
    && (|ReallocCalls(s, ptr, size)| == 2 ==> Readable(After(s, Malloc(size)), ptr))
  }

  /** So it is for null, an address without a header and a block of the list. */
  lemma KnownCanRealloc(base: nat, end: nat, s: State, ptr: nat, size: nat)
    requires StateInv(base, end, s.headers, s.nodes) && Known(s, ptr)
    ensures CanRealloc(s, ptr, size)
  {
    LegalReadable(base, end, s, ptr);
    if |ReallocCalls(s, ptr, size)| == 2 {
      AfterKeeps(base, end, s, Malloc(size), s.nodes[0]);
      var i :| 0 <= i < |s.nodes| && s.nodes[i].addr == ptr - 40;
      TakenKeepsAddr(s.nodes, FirstFit(s.nodes, size, 0), size, i);
      LegalReadable(base, end, After(s, Malloc(size)), ptr);
    }
  }

  /** The calls that growing the allocation at `ptr` amounts to. */
  function ReallocCalls(s: State, ptr: nat, size: nat): seq<Op> {
    if ptr == 0 then [Malloc(size)]
    else if size == 0 then [Free(ptr)]
    else if ptr < 40 || ptr - 40 !in s.headers || s.headers[ptr - 40].size >= size || !Served(s.nodes, size) then []
    else [Malloc(size), Free(ptr)]
  }

  lemma RunShort(s: State, a: Op, b: Op)
    ensures Run(s, []) == s && Run(s, [a]) == After(s, a) && Run(s, [b]) == After(s, b)
    ensures Run(s, [a, b]) == After(After(s, a), b)
  {
    assert [a, b][1..] == [b];
    assert Run(After(s, a), [b]) == After(After(s, a), b);
  }

  /** Every live block but the one at `ptr` stays live. */
  ghost predicate OthersLive(was: seq<Node>, now: seq<Node>, ptr: nat) {
    forall n :: n in Used(was) && Payload(n) != ptr ==> n in Used(now)
  }

  /** Every live block but the one at `ptr` keeps its bytes. */
  ghost predicate KeepsBytes(was: seq<bv8>, now: seq<bv8>, base: nat, nodes: seq<Node>, ptr: nat) {
    forall n :: n in Used(nodes) && Payload(n) != ptr ==> Slice(now, base, n) == Slice(was, base, n)
  }

  lemma OthersLiveAfter(base: nat, end: nat, nodes: seq<Node>, op: Op, ptr: nat)
    requires Inv(base, end, nodes) && (op.Malloc? || op == Free(ptr))
    ensures OthersLive(nodes, ListAfter(nodes, op), ptr)
  {
    StepKeepsAll(base, end, nodes, op);
  }

  lemma NoHeaderNoBlock(h: Headers, nodes: seq<Node>, ptr: nat)
    requires Linked(h, nodes)
    ensures ptr < 40 || ptr - 40 !in h ==> Find(nodes, ptr, 0) == |nodes|
  {
    var k := Find(nodes, ptr, 0);
    assert k < |nodes| ==> LinkOk(h, nodes, k);
  }

  /** All that a free does. */
  lemma FreeFacts(base: nat, end: nat, s: State, ptr: nat)
    requires StateInv(base, end, s.headers, s.nodes) && Readable(s, ptr)
    ensures var t := After(s, Free(ptr));
            && t.nodes == ListAfter(s.nodes, Free(ptr))
            && (Known(s, ptr) ==> Legal(s, Free(ptr)))
            && (Legal(s, Free(ptr)) ==>
                  && StateInv(base, end, t.headers, t.nodes)
                  && Used(t.nodes) == set n | n in Used(s.nodes) && Payload(n) != ptr)
            && (40 <= ptr && ptr - 40 in s.headers && !InList(s.nodes, ptr - 40) ==>
                  (Formed(base, end, t.headers) <==> Harmless(s.headers, s.nodes, ptr - 40)))
  {
    if Legal(s, Free(ptr)) {
      AfterKeeps(base, end, s, Free(ptr), s.nodes[0]);
    }
    StepFrees(base, end, s.nodes, ptr);
    NoHeaderNoBlock(s.headers, s.nodes, ptr);
    if 40 <= ptr && ptr - 40 in s.headers {
      FindInList(s.nodes, ptr);
      if !InList(s.nodes, ptr - 40) {
        StaleFreeIff(base, end, s.headers, s.nodes, ptr - 40);
      }
    }
  }

  /** Copying block `k`, too small for a request, to the block the request takes. */
  lemma CopiedNew(base: nat, end: nat, before: seq<Node>, k: nat, size: nat, was: seq<bv8>, now: seq<bv8>, m: Node)
    requires Inv(base, end, before) && Served(before, size) && k < |before| && before[k].size < size && |was| == end - base
    requires m == ListAfter(before, Malloc(size))[FirstFit(before, size, 0)] && base <= m.addr && base <= before[k].addr
    requires var src, dst, len := Payload(before[k]) - base, Payload(m) - base, before[k].size;
             src + len <= dst || dst + len <= src ==> CopiedTo(was, now, src, dst, len)
    ensures Payload(m) != Payload(before[k]) && KeepsBytes(was, now, base, before, 0)
    ensures Slice(was, base, before[k]) <= Slice(now, base, m)
    ensures Find(ListAfter(before, Malloc(size)), Payload(before[k]), 0) < |ListAfter(before, Malloc(size))|
  {
    var same := Fresh(base, end, before, k, size);
    CopiedSlices(was, now, base, before[k], m);
    KeptAround(was, now, base, before, m);
  }

  lemma KeptAround(was: seq<bv8>, now: seq<bv8>, base: nat, before: seq<Node>, m: Node)
    requires OthersKept(was, now, base, m)
    requires forall n :: n in Used(before) ==> End(m) <= n.addr || End(n) <= m.addr
    ensures KeepsBytes(was, now, base, before, 0)
  {
  }

  /** The block a request takes lies in the region. */
  lemma Granted(base: nat, end: nat, nodes: seq<Node>, size: nat) returns (m: Node)
    requires Inv(base, end, nodes) && Served(nodes, size)
    ensures m == ListAfter(nodes, Malloc(size))[FirstFit(nodes, size, 0)] && m in Used(ListAfter(nodes, Malloc(size)))
    ensures size <= m.size && base <= m.addr && End(m) <= end
  {
    var f := FirstFit(nodes, size, 0);
    TakenKeeps(base, end, nodes, f, size);
    m := Taken(nodes, f, size)[f];
    InRegion(base, end, Taken(nodes, f, size), f);
  }

  /** The payload bytes of a block of the region that starts at `base`. */
  function Slice(bytes: seq<bv8>, base: nat, n: Node): seq<bv8> {
    if base <= n.addr && End(n) <= base + |bytes| then bytes[Payload(n) - base..End(n) - base] else []
  }

  /** `len` bytes were copied from `src` to `dst`. */
  ghost predicate CopiedTo(was: seq<bv8>, now: seq<bv8>, src: nat, dst: nat, len: nat) {
    && |was| == |now| && src + len <= |was| && dst + len <= |was|
    && (forall i :: dst <= i < dst + len ==> now[i] == was[i - dst + src])
    && (forall i :: 0 <= i < |now| && !(dst <= i < dst + len) ==> now[i] == was[i])
  }

  /** Blocks apart from `m` hold the same bytes. */
  ghost predicate OthersKept(was: seq<bv8>, now: seq<bv8>, base: nat, m: Node) {
    forall o {:trigger Slice(now, base, o)} ::
      End(o) <= m.addr || End(m) <= o.addr ==> Slice(now, base, o) == Slice(was, base, o)
  }

  /** Copying the bytes of `n` to the start of `m` changes no block apart from `m`. */
  lemma CopiedSlices(was: seq<bv8>, now: seq<bv8>, base: nat, n: Node, m: Node)
    requires base <= n.addr && base <= m.addr && End(m) <= base + |was| && n.size <= m.size
    requires CopiedTo(was, now, Payload(n) - base, Payload(m) - base, n.size)
    ensures Slice(was, base, n) <= Slice(now, base, m) && OthersKept(was, now, base, m)
  {
    assert Slice(now, base, m)[..n.size] == Slice(was, base, n);
    var x, y := Payload(m) - base, Payload(m) - base + n.size;
    assert forall i :: 0 <= i < |was| && !(x <= i < y) ==> now[i] == was[i];
    forall o | End(o) <= m.addr || End(m) <= o.addr ensures Slice(now, base, o) == Slice(was, base, o) {
      if base <= o.addr && End(o) <= base + |was| {
        SliceKept(was, now, x, y, Payload(o) - base, End(o) - base);
      }
    }
  }

  lemma SliceKept(was: seq<bv8>, now: seq<bv8>, x: nat, y: nat, lo: nat, hi: nat)
    requires |was| == |now| && lo <= hi <= |was| && (hi <= x || y <= lo)
    requires forall i :: 0 <= i < |was| && !(x <= i < y) ==> now[i] == was[i]
    ensures now[lo..hi] == was[lo..hi]
  {
  }
}
