/**
 * The heap over many regions.  A request that no block can hold maps a new region above the
 * old ones and puts its block at the head of the list.  A block's successor in the list is
 * then either the block behind it in memory or the first block of an older region, and
 * freeing joins neighbours in the list.
 */
module KmallocGrowth {
  import opened Kmalloc
  import opened KmallocHeaders

  /** `top` is where the next region goes; `torn` are headers gone over, as in one region. */
  datatype Grown = Grown(headers: Headers, nodes: seq<Node>, top: nat, torn: set<nat>)

  /** `mapped` says whether pages for a new region are there. */
  datatype Request = Alloc(size: nat, mapped: bool) | Release(ptr: nat)

  // ---------------------------------------------------------------------------------
  // What the calls do
  // ---------------------------------------------------------------------------------

  /** A new block at `top`, in front of the list that starts at `head`. */
  function GrewHeaders(h: Headers, head: nat, top: nat, size: nat): Headers {
    var h1 := h[top := Header(RegionSize(size) - 40, true, head, 0)];
    if head != 0 && head in h1 then h1[head := h1[head].(prev := top)] else h1
  }

  function Head(nodes: seq<Node>): nat {
    if nodes == [] then 0 else nodes[0].addr
  }

  function GrownAfter(g: Grown, r: Request): Grown {
    match r
    case Alloc(size, mapped) =>
      if Served(g.nodes, size) then
        var k := FirstFit(g.nodes, size, 0);
        var a := g.nodes[k].addr;
        var h := if a in g.headers then TookHeaders(g.headers, a, size) else g.headers;
        Grown(h, Taken(g.nodes, k, size), g.top, NowTorn(g.torn, g.headers, h))
      else if 0 < size <= 0x100000 && mapped then
        Grown(GrewHeaders(g.headers, Head(g.nodes), g.top, size),
              [Node(g.top, RegionSize(size) - 40, true)] + g.nodes, g.top + RegionSize(size), g.torn)
      else
        g
    case Release(ptr) =>
      if ptr < 40 || ptr - 40 !in g.headers then
        g
      else
        var k, h := Find(g.nodes, ptr, 0), FreedHeaders(g.headers, ptr - 40);
        g.(headers := h, nodes := if k < |g.nodes| then Released(g.nodes, k) else g.nodes)
  }

  // ---------------------------------------------------------------------------------
  // The invariant
  // ---------------------------------------------------------------------------------

  predicate InHeap(base: nat, top: nat, n: Node) {
    base <= n.addr && End(n) <= top
  }

  predicate Clear(nodes: seq<Node>, i: nat, j: nat)
    requires i < |nodes| && j < |nodes|
  {
    End(nodes[i]) <= nodes[j].addr || End(nodes[j]) <= nodes[i].addr
  }

  /** The blocks lie in the mapped memory without overlap. */
  ghost predicate Sound(base: nat, top: nat, nodes: seq<Node>) {
    && (forall i :: 0 <= i < |nodes| ==> InHeap(base, top, nodes[i]))
    && forall i, j {:trigger Clear(nodes, i, j)} :: 0 <= i < |nodes| && 0 <= j < |nodes| && i != j ==> Clear(nodes, i, j)
  }

  /** The successor of block `i` lies right behind it, or below it. */
  predicate StepOk(nodes: seq<Node>, i: nat)
    requires i < |nodes|
  {
    i + 1 == |nodes| || nodes[i + 1].addr == End(nodes[i]) || nodes[i + 1].addr < nodes[i].addr
  }

  /** Where block `i` ends a block starts, or the mapped memory ends. */
  ghost predicate Meets(top: nat, nodes: seq<Node>, i: nat)
    requires i < |nodes|
  {
    End(nodes[i]) == top || InList(nodes, End(nodes[i]))
  }

  ghost predicate Shape(base: nat, top: nat, nodes: seq<Node>) {
    && Sound(base, top, nodes)
    && (forall i {:trigger StepOk(nodes, i)} :: 0 <= i < |nodes| ==> StepOk(nodes, i))
    && (forall i {:trigger Meets(top, nodes, i)} :: 0 <= i < |nodes| ==> Meets(top, nodes, i))
  }

  ghost predicate GrownInv(base: nat, g: Grown) {
    0 < base <= g.top && Shape(base, g.top, g.nodes) && Merged(g.nodes) && Linked(g.headers, g.nodes)
  }

  lemma ShapeDistinct(base: nat, top: nat, nodes: seq<Node>)
    requires 0 < base && Sound(base, top, nodes)
    ensures Distinct(nodes)
  {
    forall i, j | 0 <= i < |nodes| && 0 <= j < |nodes| && i != j ensures Differ(nodes, i, j) {
      assert Clear(nodes, i, j);
    }
  }

  // ---------------------------------------------------------------------------------
  // Allocating
  // ---------------------------------------------------------------------------------

  /** Every address at which a block of `nodes` starts is one at which a block of `t` does. */
  ghost predicate StartsKept(nodes: seq<Node>, t: seq<Node>) {
    forall a {:trigger InList(nodes, a)} :: InList(nodes, a) ==> InList(t, a)
  }

  lemma SplitStarts(nodes: seq<Node>, k: nat, a: Node, b: Node)
    requires k < |nodes| && a.addr == nodes[k].addr
    ensures StartsKept(nodes, nodes[..k] + [a, b] + nodes[k + 1..])
    ensures InList(nodes[..k] + [a, b] + nodes[k + 1..], b.addr)
  {
    var t := nodes[..k] + [a, b] + nodes[k + 1..];
    forall x | InList(nodes, x) ensures InList(t, x) {
      var j :| 0 <= j < |nodes| && nodes[j].addr == x;
      assert t[if j <= k then j else j + 1].addr == x;
    }
    assert t[k + 1] == b;
  }

  lemma SplitSound(base: nat, top: nat, nodes: seq<Node>, k: nat, a: Node, b: Node)
    requires Sound(base, top, nodes) && k < |nodes|
    requires a.addr == nodes[k].addr && b.addr == End(a) && End(b) == End(nodes[k])
    ensures Sound(base, top, nodes[..k] + [a, b] + nodes[k + 1..])
  {
    var t := nodes[..k] + [a, b] + nodes[k + 1..];
    forall i | 0 <= i < |t| ensures InHeap(base, top, t[i]) {
      assert InHeap(base, top, nodes[if i <= k then i else i - 1]);
    }
    forall i, j | 0 <= i < |t| && 0 <= j < |t| && i != j ensures Clear(t, i, j) {
      var x, y := if i <= k then i else i - 1, if j <= k then j else j - 1;
      assert x != y ==> Clear(nodes, x, y);
    }
  }

  lemma SplitShape(base: nat, top: nat, nodes: seq<Node>, k: nat, a: Node, b: Node)
    requires Shape(base, top, nodes) && k < |nodes|
    requires a.addr == nodes[k].addr && b.addr == End(a) && End(b) == End(nodes[k])
    ensures Shape(base, top, nodes[..k] + [a, b] + nodes[k + 1..])
  {
    var t := nodes[..k] + [a, b] + nodes[k + 1..];
    SplitSound(base, top, nodes, k, a, b);
    SplitStarts(nodes, k, a, b);
    forall i | 0 <= i < |t| ensures StepOk(t, i) && Meets(top, t, i) {
      var x := if i <= k then i else i - 1;
      assert StepOk(nodes, x) && Meets(top, nodes, x);
    }
  }

  lemma FlagShape(base: nat, top: nat, nodes: seq<Node>, k: nat, used: bool)
    requires Shape(base, top, nodes) && k < |nodes|
    ensures Shape(base, top, nodes[k := nodes[k].(used := used)])
  {
    var t := nodes[k := nodes[k].(used := used)];
    forall x | InList(nodes, x) ensures InList(t, x) {
      var j :| 0 <= j < |nodes| && nodes[j].addr == x;
      assert t[j].addr == x;
    }
    forall i | 0 <= i < |t| ensures InHeap(base, top, t[i]) && StepOk(t, i) && Meets(top, t, i) {
      assert InHeap(base, top, nodes[i]) && StepOk(nodes, i) && Meets(top, nodes, i);
    }
    forall i, j | 0 <= i < |t| && 0 <= j < |t| && i != j ensures Clear(t, i, j) {
      assert Clear(nodes, i, j);
    }
  }

  lemma TakenMerged(nodes: seq<Node>, k: nat, size: nat)
    requires Merged(nodes) && k < |nodes| && Fits(nodes[k], size)
    ensures Merged(Taken(nodes, k, size))
  {
    var t := Taken(nodes, k, size);
    var d := |t| - |nodes|;
    forall i | 0 <= i < |t| ensures Apart(t, i) {
      if i < k {
        assert Apart(nodes, i);
      } else if k + d < i {
        assert Apart(nodes, i - d);
      } else {
        assert Apart(nodes, k);
      }
    }
  }

  lemma TakenShape(base: nat, top: nat, nodes: seq<Node>, k: nat, size: nat)
    requires Shape(base, top, nodes) && k < |nodes| && Fits(nodes[k], size)
    ensures Shape(base, top, Taken(nodes, k, size))
  {
    var n := nodes[k];
    if n.size >= size + 56 {
      SplitShape(base, top, nodes, k, Node(n.addr, size, true), Node(n.addr + 40 + size, n.size - size - 40, false));
    } else {
      FlagShape(base, top, nodes, k, true);
    }
  }

  lemma TookGrown(base: nat, g: Grown, size: nat, mapped: bool)
    requires GrownInv(base, g) && Served(g.nodes, size)
    ensures GrownInv(base, GrownAfter(g, Alloc(size, mapped)))
  {
    var nodes, k := g.nodes, FirstFit(g.nodes, size, 0);
    assert LinkOk(g.headers, nodes, k);
    ShapeDistinct(base, g.top, nodes);
    forall i | 0 <= i < |nodes| ensures OutsideOf(nodes[i].addr, nodes[k]) {
      assert i != k ==> Clear(nodes, i, k);
    }
    TookLinked(g.headers, nodes, k, size);
    TakenMerged(nodes, k, size);
    TakenShape(base, g.top, nodes, k, size);
  }

  lemma GrewStarts(nodes: seq<Node>, n: Node)
    ensures StartsKept(nodes, [n] + nodes) && InList([n] + nodes, n.addr)
  {
    var t := [n] + nodes;
    forall x | InList(nodes, x) ensures InList(t, x) {
      var j :| 0 <= j < |nodes| && nodes[j].addr == x;
      assert t[j + 1].addr == x;
    }
    assert t[0] == n;
  }

  lemma GrewSound(base: nat, top: nat, nodes: seq<Node>, n: Node)
    requires base <= top && Sound(base, top, nodes) && n.addr == top
    ensures Sound(base, End(n), [n] + nodes)
  {
    var t := [n] + nodes;
    forall i | 0 <= i < |t| ensures InHeap(base, End(n), t[i]) {
      assert 0 < i ==> InHeap(base, top, nodes[i - 1]);
    }
    forall i, j | 0 <= i < |t| && 0 <= j < |t| && i != j ensures Clear(t, i, j) {
      assert 0 < i ==> InHeap(base, top, nodes[i - 1]);
      assert 0 < j ==> InHeap(base, top, nodes[j - 1]);
      assert 0 < i && 0 < j ==> Clear(nodes, i - 1, j - 1);
    }
  }

  lemma GrewShape(base: nat, top: nat, nodes: seq<Node>, n: Node)
    requires base <= top && Shape(base, top, nodes) && n.addr == top
    ensures Shape(base, End(n), [n] + nodes)
  {
    var t := [n] + nodes;
    GrewSound(base, top, nodes, n);
    GrewStarts(nodes, n);
    forall i | 0 <= i < |t| ensures StepOk(t, i) && Meets(End(n), t, i) {
      assert nodes != [] ==> InHeap(base, top, nodes[0]);
      assert 0 < i ==> StepOk(nodes, i - 1) && Meets(top, nodes, i - 1);
    }
  }

  lemma GrewLinked(h: Headers, nodes: seq<Node>, top: nat, size: nat)
    requires Distinct(nodes) && Linked(h, nodes) && 0 < top && forall i :: 0 <= i < |nodes| ==> nodes[i].addr != top
    ensures Linked(GrewHeaders(h, Head(nodes), top, size), [Node(top, RegionSize(size) - 40, true)] + nodes)
  {
    var t, h2 := [Node(top, RegionSize(size) - 40, true)] + nodes, GrewHeaders(h, Head(nodes), top, size);
    forall i | 0 <= i < |t| ensures LinkOk(h2, t, i) {
      if 0 < i {
        assert LinkOk(h, nodes, i - 1);
        assert 1 < i ==> Differ(nodes, 0, i - 1);
      }
    }
  }

  lemma GrewGrown(base: nat, g: Grown, size: nat)
    requires GrownInv(base, g) && 0 < size <= 0x100000 && !Served(g.nodes, size)
    ensures GrownInv(base, GrownAfter(g, Alloc(size, true)))
  {
    var n := Node(g.top, RegionSize(size) - 40, true);
    ShapeDistinct(base, g.top, g.nodes);
    GrewShape(base, g.top, g.nodes, n);
    forall i | 0 <= i < |g.nodes| ensures g.nodes[i].addr != g.top {
      assert InHeap(base, g.top, g.nodes[i]);
    }
    GrewLinked(g.headers, g.nodes, g.top, size);
    var t := [n] + g.nodes;
    forall i | 0 <= i < |t| ensures Apart(t, i) {
      assert 0 < i ==> Apart(g.nodes, i - 1);
    }
  }

  // ---------------------------------------------------------------------------------
  // Freeing
  // ---------------------------------------------------------------------------------

  /** A free neighbour in the list that lies in another region. */
  predicate CrossesNext(nodes: seq<Node>, k: nat)
    requires k < |nodes|
  {
    k + 1 < |nodes| && !nodes[k + 1].used && nodes[k + 1].addr < nodes[k].addr
  }

  predicate CrossesPrev(nodes: seq<Node>, k: nat)
    requires k < |nodes|
  {
    0 < k && !nodes[k - 1].used && nodes[k].addr < nodes[k - 1].addr
  }

  /** The blocks from `lo` to `hi` lie one behind the other; `m` is as large as all of them. */
  ghost predicate Stretch(nodes: seq<Node>, lo: nat, hi: nat, m: Node) {
    && lo < hi <= |nodes| && hi <= lo + 3
    && (forall i :: lo <= i < hi - 1 ==> nodes[i + 1].addr == End(nodes[i]))
    && m.addr == nodes[lo].addr && End(m) == End(nodes[hi - 1])
  }

  lemma SpliceShape(base: nat, top: nat, nodes: seq<Node>, lo: nat, hi: nat, m: Node)
    requires Shape(base, top, nodes) && Stretch(nodes, lo, hi, m)
    ensures Shape(base, top, nodes[..lo] + [m] + nodes[hi..])
  {
    var t := nodes[..lo] + [m] + nodes[hi..];
    forall i, j | 0 <= i < |t| && 0 <= j < |t| && i != j ensures Clear(t, i, j) {
      SpliceClear(base, top, nodes, lo, hi, m, i, j);
    }
    forall i | 0 <= i < |t| ensures InHeap(base, top, t[i]) && StepOk(t, i) && Meets(top, t, i) {
      SpliceStep(base, top, nodes, lo, hi, m, i);
      SpliceMeets(base, top, nodes, lo, hi, m, i);
    }
  }

  lemma SpliceStep(base: nat, top: nat, nodes: seq<Node>, lo: nat, hi: nat, m: Node, i: nat)
    requires Shape(base, top, nodes) && Stretch(nodes, lo, hi, m)
    requires i < |nodes[..lo] + [m] + nodes[hi..]|
    ensures var t := nodes[..lo] + [m] + nodes[hi..]; InHeap(base, top, t[i]) && StepOk(t, i)
  {
    var x := if i < lo then i else i + hi - lo - 1;
    assert InHeap(base, top, nodes[x]) && InHeap(base, top, nodes[lo]) && StepOk(nodes, x);
    if i == lo && hi < |nodes| {
      SpliceClear(base, top, nodes, lo, hi, m, lo, lo + 1);
    }
  }

  lemma SpliceMeets(base: nat, top: nat, nodes: seq<Node>, lo: nat, hi: nat, m: Node, i: nat)
    requires Shape(base, top, nodes) && Stretch(nodes, lo, hi, m)
    requires i < |nodes[..lo] + [m] + nodes[hi..]|
    ensures Meets(top, nodes[..lo] + [m] + nodes[hi..], i)
  {
    var t, x := nodes[..lo] + [m] + nodes[hi..], if i < lo then i else i + hi - lo - 1;
    assert Meets(top, nodes, x) && End(t[i]) == End(nodes[x]);
    if End(nodes[x]) != top {
      var j :| 0 <= j < |nodes| && nodes[j].addr == End(nodes[x]);
      SpliceStart(base, top, nodes, lo, hi, m, x, j);
      assert t[if j <= lo then j else j - hi + lo + 1].addr == End(t[i]);
    }
  }

  /** No block outside a stretch ends inside it. */
  lemma SpliceStart(base: nat, top: nat, nodes: seq<Node>, lo: nat, hi: nat, m: Node, x: nat, j: nat)
    requires Sound(base, top, nodes) && Stretch(nodes, lo, hi, m)
    requires x < |nodes| && j < |nodes| && (x < lo || hi - 1 <= x) && nodes[j].addr == End(nodes[x])
    ensures j <= lo || hi <= j
  {
    assert 0 < j && x != j - 1 ==> Clear(nodes, x, j - 1);
  }

  lemma SpliceClear(base: nat, top: nat, nodes: seq<Node>, lo: nat, hi: nat, m: Node, i: nat, j: nat)
    requires Sound(base, top, nodes) && Stretch(nodes, lo, hi, m)
    requires var t := nodes[..lo] + [m] + nodes[hi..]; i < |t| && j < |t| && i != j
    ensures Clear(nodes[..lo] + [m] + nodes[hi..], i, j)
  {
    var d := hi - lo - 1;
    var x, y := if i < lo then i else i + d, if j < lo then j else j + d;
    assert Clear(nodes, x, y);
    if i == lo {
      assert Clear(nodes, y, lo) && (lo + 1 < hi ==> Clear(nodes, y, lo + 1));
    }
    if j == lo {
      assert Clear(nodes, x, lo) && (lo + 1 < hi ==> Clear(nodes, x, lo + 1));
    }
  }

  /** The list after a release. */
  ghost function Spliced(nodes: seq<Node>, k: nat): seq<Node>
    requires k < |nodes|
  {
    nodes[..From(nodes, k)] + [Whole(nodes, k)] + nodes[To(nodes, k)..]
  }

  lemma ReleasedShapeKept(base: nat, top: nat, nodes: seq<Node>, k: nat)
    requires Shape(base, top, nodes) && k < |nodes| && !CrossesNext(nodes, k) && !CrossesPrev(nodes, k)
    ensures Shape(base, top, Spliced(nodes, k))
  {
    assert StepOk(nodes, k) && (0 < k ==> StepOk(nodes, k - 1));
    SpliceShape(base, top, nodes, From(nodes, k), To(nodes, k), Whole(nodes, k));
  }

  /** A block that took in a neighbour of another region reaches beyond where it ended, into
      the block there or out of the mapped memory. */
  lemma TooLong(base: nat, top: nat, nodes: seq<Node>, lo: nat, hi: nat, m: Node, c: nat)
    requires Shape(base, top, nodes) && lo <= c < hi <= |nodes| && !m.used
    requires m.addr <= nodes[c].addr && End(nodes[c]) < End(m)
    requires forall i :: lo <= i < hi ==> nodes[i].addr != End(nodes[c])
    ensures !Sound(base, top, nodes[..lo] + [m] + nodes[hi..])
  {
    var t := nodes[..lo] + [m] + nodes[hi..];
    assert t[lo] == m;
    assert Meets(top, nodes, c);
    if End(nodes[c]) == top {
      assert !InHeap(base, top, t[lo]);
    } else {
      var j :| 0 <= j < |nodes| && nodes[j].addr == End(nodes[c]);
      var x := if j < lo then j else j - hi + lo + 1;
      assert t[x] == nodes[j];
      assert !Clear(t, lo, x);
    }
  }

  lemma CrossingPrevBreaks(base: nat, top: nat, nodes: seq<Node>, k: nat)
    requires Shape(base, top, nodes) && k < |nodes| && CrossesPrev(nodes, k)
    ensures !Sound(base, top, Spliced(nodes, k))
  {
    var lo, hi, m, c := From(nodes, k), To(nodes, k), Whole(nodes, k), End(nodes[k - 1]);
    assert Clear(nodes, k - 1, k) && StepOk(nodes, k);
    assert nodes[k].addr < c && nodes[k - 1].addr < c && c < End(m);
    assert hi == k + 2 ==> nodes[k + 1].addr < c;
    TooLong(base, top, nodes, lo, hi, m, k - 1);
  }

  lemma CrossingNextBreaks(base: nat, top: nat, nodes: seq<Node>, k: nat)
    requires Shape(base, top, nodes) && k < |nodes| && CrossesNext(nodes, k) && !CrossesPrev(nodes, k)
    ensures !Sound(base, top, Spliced(nodes, k))
  {
    var lo, hi, m, c := From(nodes, k), To(nodes, k), Whole(nodes, k), End(nodes[k]);
    assert 0 < k ==> Clear(nodes, k - 1, k) && StepOk(nodes, k - 1);
    assert nodes[k].addr < c && nodes[k + 1].addr < c;
    assert lo < k ==> nodes[k - 1].addr < c && End(nodes[k - 1]) == nodes[k].addr;
    assert c < End(m);
    TooLong(base, top, nodes, lo, hi, m, k);
  }

  /** Freeing a block of the list keeps the blocks apart and inside the mapped memory if and
      only if no free neighbour in the list lies in another region. */
  lemma ReleaseSoundIff(base: nat, g: Grown, k: nat)
    requires GrownInv(base, g) && k < |g.nodes|
    ensures Sound(base, g.top, Released(g.nodes, k)) <==> !CrossesNext(g.nodes, k) && !CrossesPrev(g.nodes, k)
  {
    ReleasedIs(g.nodes, k);
    if CrossesPrev(g.nodes, k) {
      CrossingPrevBreaks(base, g.top, g.nodes, k);
    } else if CrossesNext(g.nodes, k) {
      CrossingNextBreaks(base, g.top, g.nodes, k);
    } else {
      ReleasedShapeKept(base, g.top, g.nodes, k);
    }
  }

  lemma ReleasedGrown(base: nat, g: Grown, ptr: nat)
    requires GrownInv(base, g)
    requires var k := Find(g.nodes, ptr, 0); k < |g.nodes| && !CrossesNext(g.nodes, k) && !CrossesPrev(g.nodes, k)
    ensures GrownInv(base, GrownAfter(g, Release(ptr)))
  {
    var k := Find(g.nodes, ptr, 0);
    ShapeDistinct(base, g.top, g.nodes);
    assert LinkOk(g.headers, g.nodes, k);
    FreedLinks(g.headers, g.nodes, k);
    ReleasedShapeKept(base, g.top, g.nodes, k);
    ReleasedIs(g.nodes, k);
    SpliceMerged(g.nodes, k, From(g.nodes, k), To(g.nodes, k), Whole(g.nodes, k));
  }

  // ---------------------------------------------------------------------------------
  // Runs
  // ---------------------------------------------------------------------------------

  function Empty(base: nat): Grown {
    Grown(map[], [], base, {})
  }

  lemma EmptyOk(base: nat)
    requires 0 < base
    ensures GrownInv(base, Empty(base))
  {
  }

  /** A swallowed header, whole and with no free neighbour. */
  predicate Quiet(h: Headers, s: nat) {
    Intact(h, s) && !h[s].used && (h[s].next == 0 || h[s].next in h) && !NextFree(h, s) && !PrevFree(h, s)
  }

  /** A pointer freed is that of a block of the list, or nothing happens: it is null, no header
      was ever written there, or the header is quiet. */
  predicate KnownFree(g: Grown, r: Request) {
    r.Release? ==>
      || Find(g.nodes, r.ptr, 0) < |g.nodes| || r.ptr < 40
      || (r.ptr - 40 !in g.headers && r.ptr - 40 !in g.torn) || Quiet(g.headers, r.ptr - 40)
  }

  /** In that case nothing happens. */
  lemma QuietGrown(g: Grown, ptr: nat)
    requires KnownFree(g, Release(ptr)) && Find(g.nodes, ptr, 0) == |g.nodes|
    ensures GrownAfter(g, Release(ptr)) == g
  {
    if ptr >= 40 && ptr - 40 in g.headers {
      assert g.headers[ptr - 40 := g.headers[ptr - 40].(used := false)] == g.headers;
    }
  }

  /** A block freed has a free neighbour in the list that lies in another region. */
  predicate Crosses(g: Grown, r: Request) {
    r.Release? &&
    var k := Find(g.nodes, r.ptr, 0);
    k < |g.nodes| && (CrossesNext(g.nodes, k) || CrossesPrev(g.nodes, k))
  }

  ghost predicate KnownFrees(g: Grown, rs: seq<Request>)
    decreases |rs|
  {
    rs == [] || (KnownFree(g, rs[0]) && KnownFrees(GrownAfter(g, rs[0]), rs[1..]))
  }

  ghost predicate NoCrossing(g: Grown, rs: seq<Request>)
    decreases |rs|
  {
    rs == [] || (!Crosses(g, rs[0]) && NoCrossing(GrownAfter(g, rs[0]), rs[1..]))
  }

  /** The blocks are sound after every call. */
  ghost predicate EverSound(base: nat, g: Grown, rs: seq<Request>)
    decreases |rs|
  {
    rs == [] || (Sound(base, GrownAfter(g, rs[0]).top, GrownAfter(g, rs[0]).nodes) && EverSound(base, GrownAfter(g, rs[0]), rs[1..]))
  }

  ghost function GrownRun(g: Grown, rs: seq<Request>): Grown
    decreases |rs|
  {
    if rs == [] then g else GrownRun(GrownAfter(g, rs[0]), rs[1..])
  }

  lemma StepGrown(base: nat, g: Grown, r: Request)
    requires GrownInv(base, g) && KnownFree(g, r) && !Crosses(g, r)
    ensures GrownInv(base, GrownAfter(g, r))
  {
    match r
    case Alloc(size, mapped) =>
      if Served(g.nodes, size) {
        TookGrown(base, g, size, mapped);
      } else if 0 < size <= 0x100000 && mapped {
        GrewGrown(base, g, size);
      }
    case Release(ptr) =>
      if Find(g.nodes, ptr, 0) < |g.nodes| {
        ReleasedGrown(base, g, ptr);
      } else {
        QuietGrown(g, ptr);
      }
  }

  /** Over a whole run the blocks stay apart and inside the mapped memory if and only if no free
      joins blocks of two regions; the headers then describe the list. */
  lemma {:induction false} EverSoundIff(base: nat, g: Grown, rs: seq<Request>)
    requires GrownInv(base, g) && KnownFrees(g, rs)
    ensures EverSound(base, g, rs) <==> NoCrossing(g, rs)
    ensures NoCrossing(g, rs) ==> GrownInv(base, GrownRun(g, rs))
    decreases |rs|
  {
    if rs != [] {
      if !Crosses(g, rs[0]) {
        StepGrown(base, g, rs[0]);
        EverSoundIff(base, GrownAfter(g, rs[0]), rs[1..]);
      } else {
        assert LinkOk(g.headers, g.nodes, Find(g.nodes, rs[0].ptr, 0));
        ReleaseSoundIff(base, g, Find(g.nodes, rs[0].ptr, 0));
      }
    }
  }

  /** So for runs from the empty heap. */
  lemma SoundFromEmptyIff(base: nat, rs: seq<Request>)
    requires 0 < base && KnownFrees(Empty(base), rs)
    ensures EverSound(base, Empty(base), rs) <==> NoCrossing(Empty(base), rs)
  {
    EmptyOk(base);
    EverSoundIff(base, Empty(base), rs);
  }

  lemma TakenLive(nodes: seq<Node>, k: nat, size: nat, i: nat)
    requires k < |nodes| && Fits(nodes[k], size) && i < |nodes| && nodes[i].used
    ensures nodes[i] in Taken(nodes, k, size)
  {
    var t := Taken(nodes, k, size);
    assert t[if i < k then i else i + |t| - |nodes|] == nodes[i];
  }

  lemma ReleasedLive(nodes: seq<Node>, k: nat, i: nat)
    requires k < |nodes| && i < |nodes| && nodes[i].used && i != k
    ensures nodes[i] in Spliced(nodes, k)
  {
    var lo, hi, t := From(nodes, k), To(nodes, k), Spliced(nodes, k);
    assert t[if i < lo then i else i - hi + lo + 1] == nodes[i];
  }

  /** A call leaves every live block alone, except the one it frees. */
  lemma LiveKept(g: Grown, r: Request, n: Node)
    requires n in Used(g.nodes) && r != Release(Payload(n))
    ensures n in Used(GrownAfter(g, r).nodes)
  {
    var i :| 0 <= i < |g.nodes| && g.nodes[i] == n;
    match r
    case Alloc(size, mapped) =>
      if Served(g.nodes, size) {
        TakenLive(g.nodes, FirstFit(g.nodes, size, 0), size, i);
      }
    case Release(ptr) =>
      if Find(g.nodes, ptr, 0) < |g.nodes| {
        ReleasedIs(g.nodes, Find(g.nodes, ptr, 0));
        ReleasedLive(g.nodes, Find(g.nodes, ptr, 0), i);
      }
  }

  lemma ApartLive(base: nat, g: Grown, n: Node, m: Node)
    requires Sound(base, g.top, g.nodes) && n in Used(g.nodes) && m in Used(g.nodes)
    ensures InHeap(base, g.top, n) && (n == m || End(n) <= m.addr || End(m) <= n.addr)
  {
    var i :| 0 <= i < |g.nodes| && g.nodes[i] == n;
    var j :| 0 <= j < |g.nodes| && g.nodes[j] == m;
    assert InHeap(base, g.top, g.nodes[i]) && (i != j ==> Clear(g.nodes, i, j));
  }

  /** In a run whose frees join no blocks of two regions, an allocation that is not freed stays
      live, inside the mapped memory, and shares no byte with any other. */
  lemma {:induction false} GrownSafe(base: nat, g: Grown, rs: seq<Request>, n: Node, m: Node)
    requires GrownInv(base, g) && KnownFrees(g, rs) && NoCrossing(g, rs)
    requires n in Used(g.nodes) && Release(Payload(n)) !in rs
    ensures var z := GrownRun(g, rs);
            && n in Used(z.nodes) && InHeap(base, z.top, n)
            && (m in Used(z.nodes) ==> n == m || End(n) <= m.addr || End(m) <= n.addr)
    decreases |rs|
  {
    if rs == [] {
      ApartLive(base, g, n, n);
      if m in Used(g.nodes) {
        ApartLive(base, g, n, m);
      }
    } else {
      LiveKept(g, rs[0], n);
      StepGrown(base, g, rs[0]);
      GrownSafe(base, GrownAfter(g, rs[0]), rs[1..], n, m);
    }
  }

  /** In one region no free crosses. */
  lemma OneRegionNeverCrosses(base: nat, end: nat, g: Grown, r: Request)
    requires Tiling(base, end, g.nodes)
    ensures !Crosses(g, r)
  {
    if r.Release? {
      var k := Find(g.nodes, r.ptr, 0);
      if k < |g.nodes| {
        assert End(g.nodes[k]) == Stop(g.nodes, end, k);
        assert 0 < k ==> End(g.nodes[k - 1]) == Stop(g.nodes, end, k - 1);
      }
    }
  }

  // ---------------------------------------------------------------------------------
  // A run that crosses
  // ---------------------------------------------------------------------------------

  /** Three requests of a page each get a region each. */
  function ThreePages(): seq<Request> {
    [Alloc(4000, true), Alloc(4000, true), Alloc(4000, true)]
  }

  lemma RunCons(g: Grown, r: Request, rest: seq<Request>)
    ensures GrownRun(g, [r] + rest) == GrownRun(GrownAfter(g, r), rest)
    ensures KnownFrees(g, [r] + rest) <==> KnownFree(g, r) && KnownFrees(GrownAfter(g, r), rest)
  {
    assert ([r] + rest)[1..] == rest;
  }

  lemma {:induction false} RunCat(g: Grown, a: seq<Request>, b: seq<Request>)
    ensures GrownRun(g, a + b) == GrownRun(GrownRun(g, a), b)
    ensures KnownFrees(g, a + b) <==> KnownFrees(g, a) && KnownFrees(GrownRun(g, a), b)
    decreases |a|
  {
    if a == [] {
      assert a + b == b;
    } else {
      assert (a + b)[1..] == a[1..] + b;
      RunCat(GrownAfter(g, a[0]), a[1..], b);
    }
  }

  lemma ReachThreePages(base: nat)
    requires 0 < base
    ensures var z := GrownRun(Empty(base), ThreePages());
            && z.nodes == [Node(base + 8192, 4056, true), Node(base + 4096, 4056, true), Node(base, 4056, true)]
            && KnownFrees(Empty(base), ThreePages()) && Linked(z.headers, z.nodes)
  {
    var g1 := GrownAfter(Empty(base), Alloc(4000, true));
    assert g1.nodes == [Node(base, 4056, true)] && g1.top == base + 4096;
    var g2 := GrownAfter(g1, Alloc(4000, true));
    assert g2.nodes == [Node(base + 4096, 4056, true), Node(base, 4056, true)] && g2.top == base + 8192;
    RunCons(g2, Alloc(4000, true), []);
    RunCons(g1, Alloc(4000, true), [Alloc(4000, true)]);
    RunCons(Empty(base), Alloc(4000, true), [Alloc(4000, true), Alloc(4000, true)]);
    EmptyOk(base);
    GrewGrown(base, Empty(base), 4000);
    GrewGrown(base, g1, 4000);
    GrewGrown(base, g2, 4000);
  }

  /** The oldest two regions are freed, each pointer once, and the next request is served from
      a block that reaches into the third region, whose allocation is still live. */
  lemma OverlapFromThree(base: nat, g: Grown)
    requires g.nodes == [Node(base + 8192, 4056, true), Node(base + 4096, 4056, true), Node(base, 4056, true)]
    requires base in g.headers && base + 4096 in g.headers
    ensures var rs := [Release(base + 40), Release(base + 4136), Alloc(8000, false)];
            var z := GrownRun(g, rs);
            var old3, new3 := Node(base + 8192, 4056, true), Node(base + 4096, 8000, true);
            && KnownFrees(g, rs) && old3 in Used(z.nodes) && new3 in Used(z.nodes)
            && old3.addr < End(new3) && new3.addr < End(old3)
  {
    var g1 := GrownAfter(g, Release(base + 40));
    assert Find(g.nodes, base + 40, 1) == 2 == Find(g.nodes, base + 40, 0);
    assert g1.nodes == [Node(base + 8192, 4056, true), Node(base + 4096, 4056, true), Node(base, 4056, false)];
    var g2 := GrownAfter(g1, Release(base + 4136));
    assert Find(g1.nodes, base + 4136, 0) == 1;
    assert g2.nodes == [Node(base + 8192, 4056, true), Node(base + 4096, 8152, false)];
    var g3 := GrownAfter(g2, Alloc(8000, false));
    assert FirstFit(g2.nodes, 8000, 0) == 1;
    assert g3.nodes == [Node(base + 8192, 4056, true), Node(base + 4096, 8000, true), Node(base + 12136, 112, false)];
    assert g3.nodes[0] in g3.nodes && g3.nodes[1] in g3.nodes;
    RunCons(g2, Alloc(8000, false), []);
    RunCons(g1, Release(base + 4136), [Alloc(8000, false)]);
    RunCons(g, Release(base + 40), [Release(base + 4136), Alloc(8000, false)]);
  }

  /** From the empty heap, six calls after which two live allocations overlap; every pointer freed
      is that of a live block. */
  lemma RegionsOverlap(base: nat)
    requires 0 < base
    ensures var rs := ThreePages() + [Release(base + 40), Release(base + 4136), Alloc(8000, false)];
            var z := GrownRun(Empty(base), rs);
            var a, b := Node(base + 8192, 4056, true), Node(base + 4096, 8000, true);
            && KnownFrees(Empty(base), rs) && a in Used(z.nodes) && b in Used(z.nodes)
            && a.addr < End(b) && b.addr < End(a)
  {
    RunCat(Empty(base), ThreePages(), [Release(base + 40), Release(base + 4136), Alloc(8000, false)]);
    ReachThreePages(base);
    var g := GrownRun(Empty(base), ThreePages());
    assert LinkOk(g.headers, g.nodes, 1) && LinkOk(g.headers, g.nodes, 2);
    OverlapFromThree(base, g);
  }
}
