/**
 * The kernel heap in one region: block headers in address order, first-fit allocation
 * with splitting, freeing with merging.
 *
 * The list of blocks is a value, `seq<Node>`, on which the laws are proved, together with
 * what each change of the list does to the linked headers.
 */
module Kmalloc {
  const HEADER: nat := 40
  const MIN_SIZE: nat := 16
  const MAX_SIZE: nat := 0x100000

  /** One block: its header at `addr`, `size` payload bytes right after the header. */
  datatype Node = Node(addr: nat, size: nat, used: bool)

  function Payload(n: Node): nat { n.addr + 40 }

  function End(n: Node): nat { n.addr + 40 + n.size }

  // ---------------------------------------------------------------------------------
  // The invariant of the list
  // ---------------------------------------------------------------------------------

  /** Where block `i` must stop: at the next header, or at the end of the region. */
  function Stop(nodes: seq<Node>, end: nat, i: nat): nat
    requires i < |nodes|
  {
    if i + 1 < |nodes| then nodes[i + 1].addr else end
  }

  /** Block `i` and its successor are not both free. */
  predicate Apart(nodes: seq<Node>, i: nat)
    requires i < |nodes|
  {
    nodes[i].used || i + 1 == |nodes| || nodes[i + 1].used
  }

  /** The blocks tile the region exactly. */
  ghost predicate Tiling(base: nat, end: nat, nodes: seq<Node>) {
    && nodes != [] && nodes[0].addr == base
    && forall i {:trigger Stop(nodes, end, i)} :: 0 <= i < |nodes| ==> End(nodes[i]) == Stop(nodes, end, i)
  }

  /** No free block is followed by a free block. */
  ghost predicate Merged(nodes: seq<Node>) {
    forall i {:trigger Apart(nodes, i)} :: 0 <= i < |nodes| ==> Apart(nodes, i)
  }

  ghost predicate Inv(base: nat, end: nat, nodes: seq<Node>) {
    0 < base && Tiling(base, end, nodes) && Merged(nodes)
  }

  /** The live allocations. */
  ghost function Used(nodes: seq<Node>): set<Node> {
    set n | n in nodes && n.used
  }

  lemma UsedConcat(a: seq<Node>, b: seq<Node>)
    ensures Used(a + b) == Used(a) + Used(b)
  {
    forall m ensures m in Used(a + b) <==> m in Used(a) + Used(b) {
      assert m in a + b <==> m in a || m in b;
    }
  }

  /** The live blocks of a list, part by part. */
  lemma UsedParts(a: seq<Node>, b: seq<Node>, c: seq<Node>)
    ensures Used(a + b + c) == Used(a) + Used(b) + Used(c)
  {
    UsedConcat(a + b, c);
    UsedConcat(a, b);
  }

  /** Blocks lie in list order without overlap, inside the region. */
  lemma {:induction false} InOrder(base: nat, end: nat, nodes: seq<Node>, i: nat, j: nat)
    requires Tiling(base, end, nodes) && i < j <= |nodes|
    ensures End(nodes[i]) <= if j < |nodes| then nodes[j].addr else end
    decreases j - i
  {
    assert End(nodes[i]) == Stop(nodes, end, i);
    if i + 1 < j {
      InOrder(base, end, nodes, i + 1, j);
    }
  }

  lemma InRegion(base: nat, end: nat, nodes: seq<Node>, i: nat)
    requires Tiling(base, end, nodes) && i < |nodes|
    ensures base <= nodes[i].addr && End(nodes[i]) <= end
  {
    InOrder(base, end, nodes, i, |nodes|);
    if 0 < i {
      InOrder(base, end, nodes, 0, i);
    }
  }

  /** Two live allocations never share a byte, headers included, and lie in the region. */
  lemma LiveDisjoint(base: nat, end: nat, nodes: seq<Node>, a: Node, b: Node)
    requires Inv(base, end, nodes) && a in Used(nodes) && b in Used(nodes)
    ensures base <= a.addr && End(a) <= end
    ensures a == b || End(a) <= b.addr || End(b) <= a.addr
  {
    var i :| 0 <= i < |nodes| && nodes[i] == a;
    var j :| 0 <= j < |nodes| && nodes[j] == b;
    InRegion(base, end, nodes, i);
    if i < j {
      InOrder(base, end, nodes, i, j);
    } else if j < i {
      InOrder(base, end, nodes, j, i);
    }
  }

  lemma AddrUnique(base: nat, end: nat, nodes: seq<Node>, i: nat, j: nat)
    requires Tiling(base, end, nodes) && i < |nodes| && j < |nodes| && nodes[i].addr == nodes[j].addr
    ensures i == j
  {
    if i < j {
      InOrder(base, end, nodes, i, j);
    } else if j < i {
      InOrder(base, end, nodes, j, i);
    }
  }

  lemma NotElsewhere(base: nat, end: nat, nodes: seq<Node>, k: nat, n: Node)
    requires Tiling(base, end, nodes) && k < |nodes| && n.addr == nodes[k].addr
    ensures n !in nodes[..k] && n !in nodes[k + 1..]
  {
    if n in nodes[..k] {
      var i :| 0 <= i < k && nodes[..k][i] == n;
      InOrder(base, end, nodes, i, k);
    }
    if n in nodes[k + 1..] {
      var i :| 0 <= i < |nodes| - k - 1 && nodes[k + 1..][i] == n;
      InOrder(base, end, nodes, k, k + 1 + i);
    }
  }

  // ---------------------------------------------------------------------------------
  // Searching
  // ---------------------------------------------------------------------------------

  predicate Fits(n: Node, size: nat) {
    !n.used && n.size >= size
  }

  /** The first block from `from` on that is free and large enough, or the list's length. */
  function FirstFit(nodes: seq<Node>, size: nat, from: nat): (k: nat)
    requires from <= |nodes|
    ensures from <= k <= |nodes|
    ensures forall j :: from <= j < k ==> !Fits(nodes[j], size)
    ensures k < |nodes| ==> Fits(nodes[k], size)
    decreases |nodes| - from
  {
    if from == |nodes| || Fits(nodes[from], size) then from else FirstFit(nodes, size, from + 1)
  }

  /** The bytes from `lo` to `hi` meet no live allocation. */
  ghost predicate Vacant(nodes: seq<Node>, lo: nat, hi: nat) {
    forall i :: 0 <= i < |nodes| && nodes[i].used ==> End(nodes[i]) <= lo || hi <= nodes[i].addr
  }

  /** The block that holds address `a`. */
  lemma {:induction false} Locate(base: nat, end: nat, nodes: seq<Node>, a: nat, from: nat) returns (k: nat)
    requires Tiling(base, end, nodes) && from < |nodes| && nodes[from].addr <= a < end
    ensures from <= k < |nodes| && nodes[k].addr <= a < End(nodes[k])
    decreases |nodes| - from
  {
    assert End(nodes[from]) == Stop(nodes, end, from);
    if a < End(nodes[from]) {
      k := from;
    } else {
      k := Locate(base, end, nodes, a, from + 1);
    }
  }

  /** A vacant stretch lies within one free block. */
  lemma VacantInOneBlock(base: nat, end: nat, nodes: seq<Node>, lo: nat, hi: nat) returns (k: nat)
    requires Inv(base, end, nodes) && base <= lo < hi <= end && Vacant(nodes, lo, hi)
    ensures k < |nodes| && !nodes[k].used && nodes[k].addr <= lo && hi <= End(nodes[k])
  {
    k := Locate(base, end, nodes, lo, 0);
    assert Apart(nodes, k);
    assert End(nodes[k]) == Stop(nodes, end, k);
    if k + 1 < |nodes| {
      assert End(nodes[k + 1]) == Stop(nodes, end, k + 1);
    }
  }

  /** The search misses exactly when no vacant stretch could hold a header and `size` bytes:
      merging has left no fragmented room. */
  lemma MissIff(base: nat, end: nat, nodes: seq<Node>, size: nat)
    requires Inv(base, end, nodes)
    ensures FirstFit(nodes, size, 0) == |nodes| <==>
              forall lo, hi :: base <= lo < hi <= end && Vacant(nodes, lo, hi) ==> hi - lo < 40 + size
  {
    var k := FirstFit(nodes, size, 0);
    if k < |nodes| {
      var n := nodes[k];
      InRegion(base, end, nodes, k);
      forall i | 0 <= i < |nodes| && nodes[i].used ensures End(nodes[i]) <= n.addr || End(n) <= nodes[i].addr {
        if i < k {
          InOrder(base, end, nodes, i, k);
        } else {
          InOrder(base, end, nodes, k, i);
        }
      }
      assert Vacant(nodes, n.addr, End(n));
    } else {
      forall lo, hi | base <= lo < hi <= end && Vacant(nodes, lo, hi) ensures hi - lo < 40 + size {
        var j := VacantInOneBlock(base, end, nodes, lo, hi);
        assert !Fits(nodes[j], size);
      }
    }
  }

  // ---------------------------------------------------------------------------------
  // Allocating and freeing
  // ---------------------------------------------------------------------------------

  /** Block `k` handed out for `size` bytes, split when the rest can hold a block. */
  function Taken(nodes: seq<Node>, k: nat, size: nat): seq<Node>
    requires k < |nodes| && Fits(nodes[k], size)
  {
    var n := nodes[k];
    if n.size >= size + 56 then
      nodes[..k] + [Node(n.addr, size, true), Node(n.addr + 40 + size, n.size - size - 40, false)] + nodes[k + 1..]
    else
      nodes[k := n.(used := true)]
  }

  /** Block `k` joined with its successor, when that is free. */
  function JoinNext(nodes: seq<Node>, k: nat): seq<Node>
    requires k < |nodes|
  {
    if k + 1 < |nodes| && !nodes[k + 1].used then
      nodes[..k] + [nodes[k].(size := nodes[k].size + 40 + nodes[k + 1].size)] + nodes[k + 2..]
    else
      nodes
  }

  /** Block `k` joined with its successor, then with its predecessor, where free. */
  function Joined(nodes: seq<Node>, k: nat): seq<Node>
    requires k < |nodes|
  {
    var s := JoinNext(nodes, k);
    if 0 < k && !s[k - 1].used then JoinNext(s, k - 1) else s
  }

  /** Block `k` released and joined with its free neighbours. */
  function Released(nodes: seq<Node>, k: nat): seq<Node>
    requires k < |nodes|
  {
    Joined(nodes[k := nodes[k].(used := false)], k)
  }

  /** An allocation keeps the heap in form and adds one live block, at least as large as
      asked for and carved out of a free one. */
  lemma TakenKeeps(base: nat, end: nat, nodes: seq<Node>, k: nat, size: nat)
    requires Inv(base, end, nodes) && k < |nodes| && Fits(nodes[k], size)
    ensures Inv(base, end, Taken(nodes, k, size))
    ensures var t := Taken(nodes, k, size);
            && t[k].addr == nodes[k].addr && size <= t[k].size < size + 56 && t[k] !in Used(nodes)
            && Used(t) == Used(nodes) + {t[k]}
  {
    var t := Taken(nodes, k, size);
    var n := nodes[k];
    assert End(n) == Stop(nodes, end, k);
    var d := |t| - |nodes|;
    forall i | 0 <= i < |t| ensures End(t[i]) == Stop(t, end, i) && Apart(t, i) {
      if i < k {
        assert End(nodes[i]) == Stop(nodes, end, i) && Apart(nodes, i);
      } else if k + d < i {
        assert End(nodes[i - d]) == Stop(nodes, end, i - d) && Apart(nodes, i - d);
      } else {
        assert Apart(nodes, k);
      }
    }
    TakenUsed(base, end, nodes, k, size);
  }

  lemma TakenUsed(base: nat, end: nat, nodes: seq<Node>, k: nat, size: nat)
    requires Tiling(base, end, nodes) && k < |nodes| && Fits(nodes[k], size)
    ensures var t := Taken(nodes, k, size);
            t[k].addr == nodes[k].addr && t[k] !in Used(nodes) && Used(t) == Used(nodes) + {t[k]}
  {
    var t := Taken(nodes, k, size);
    var mid := if |t| > |nodes| then [t[k], t[k + 1]] else [t[k]];
    assert nodes == nodes[..k] + [nodes[k]] + nodes[k + 1..];
    assert t == nodes[..k] + mid + nodes[k + 1..];
    UsedParts(nodes[..k], [nodes[k]], nodes[k + 1..]);
    UsedParts(nodes[..k], mid, nodes[k + 1..]);
    assert Used(mid) == {t[k]};
    assert Used([nodes[k]]) == {};
    NotElsewhere(base, end, nodes, k, t[k]);
  }

  /** Joining two adjacent blocks keeps the tiling. */
  lemma JoinTiles(base: nat, end: nat, nodes: seq<Node>, k: nat)
    requires Tiling(base, end, nodes) && k < |nodes|
    ensures Tiling(base, end, JoinNext(nodes, k))
  {
    var t := JoinNext(nodes, k);
    if |t| < |nodes| {
      assert End(nodes[k]) == Stop(nodes, end, k);
      forall i | 0 <= i < |t| ensures End(t[i]) == Stop(t, end, i) {
        if i < k {
          assert End(nodes[i]) == Stop(nodes, end, i);
        } else {
          assert End(nodes[i + 1]) == Stop(nodes, end, i + 1);
        }
      }
    }
  }

  /** The stretch of the list that a release turns into one block, and that block. */
  function From(nodes: seq<Node>, k: nat): nat
    requires k < |nodes|
  {
    if 0 < k && !nodes[k - 1].used then k - 1 else k
  }

  function To(nodes: seq<Node>, k: nat): nat
    requires k < |nodes|
  {
    if k + 1 < |nodes| && !nodes[k + 1].used then k + 2 else k + 1
  }

  function Whole(nodes: seq<Node>, k: nat): Node
    requires k < |nodes|
  {
    var before := if From(nodes, k) < k then 40 + nodes[k - 1].size else 0;
    var behind := if k + 1 < To(nodes, k) then 40 + nodes[k + 1].size else 0;
    Node(nodes[From(nodes, k)].addr, before + nodes[k].size + behind, false)
  }

  /** What a release leaves: the same blocks around, and one free block in place of one to
      three. */
  lemma ReleasedIs(nodes: seq<Node>, k: nat)
    requires k < |nodes|
    ensures Released(nodes, k) == nodes[..From(nodes, k)] + [Whole(nodes, k)] + nodes[To(nodes, k)..]
  {
  }

  /** A release keeps the heap in form and removes exactly the released block from the live
      ones. */
  lemma ReleasedKeeps(base: nat, end: nat, nodes: seq<Node>, k: nat)
    requires Inv(base, end, nodes) && k < |nodes|
    ensures Inv(base, end, Released(nodes, k))
    ensures Used(Released(nodes, k)) == Used(nodes) - {nodes[k]}
  {
    ReleasedTiles(base, end, nodes, k);
    var lo, hi, m := From(nodes, k), To(nodes, k), Whole(nodes, k);
    ReleasedIs(nodes, k);
    SpliceMerged(nodes, k, lo, hi, m);
    SpliceUsed(base, end, nodes, k, lo, hi, m);
  }

  lemma SpliceMerged(nodes: seq<Node>, k: nat, lo: nat, hi: nat, m: Node)
    requires Merged(nodes) && lo <= k < hi <= |nodes|
    requires lo < k ==> lo == k - 1 && !nodes[lo].used
    requires lo == k > 0 ==> nodes[k - 1].used
    requires k + 1 < hi ==> hi == k + 2 && !nodes[k + 1].used
    requires k + 1 == hi < |nodes| ==> nodes[k + 1].used
    ensures Merged(nodes[..lo] + [m] + nodes[hi..])
  {
    var t := nodes[..lo] + [m] + nodes[hi..];
    forall i | 0 <= i < |t| ensures Apart(t, i) {
      if i < lo {
        assert Apart(nodes, i);
      } else {
        assert Apart(nodes, i - lo + hi - 1);
      }
    }
  }

  lemma ReleasedTiles(base: nat, end: nat, nodes: seq<Node>, k: nat)
    requires Tiling(base, end, nodes) && k < |nodes|
    ensures Tiling(base, end, Released(nodes, k))
  {
    var f := nodes[k := nodes[k].(used := false)];
    forall i | 0 <= i < |f| ensures End(f[i]) == Stop(f, end, i) {
      assert End(nodes[i]) == Stop(nodes, end, i);
    }
    JoinTiles(base, end, f, k);
    var s := JoinNext(f, k);
    if 0 < k && !s[k - 1].used {
      JoinTiles(base, end, s, k - 1);
    }
  }

  /** Replacing block `n` and the free blocks `p`, `q` beside it by a free one. */
  lemma SpliceParts(a: seq<Node>, p: seq<Node>, n: Node, q: seq<Node>, c: seq<Node>, m: Node)
    requires Used(p) == {} && Used(q) == {} && !m.used && n !in a && n !in c
    ensures Used(a + [m] + c) == Used(a + p + [n] + (q + c)) - {n}
  {
    UsedParts(a, [m], c);
    UsedParts(a + p, [n], q + c);
    UsedConcat(a, p);
    UsedConcat(q, c);
    assert Used([m]) == {};
  }

  lemma Parts(nodes: seq<Node>, lo: nat, k: nat, hi: nat)
    requires lo <= k < hi <= |nodes|
    ensures nodes[..lo] + nodes[lo..k] == nodes[..k] && nodes[k + 1..hi] + nodes[hi..] == nodes[k + 1..]
    ensures nodes == nodes[..lo] + nodes[lo..k] + [nodes[k]] + (nodes[k + 1..hi] + nodes[hi..])
  {
    assert nodes == nodes[..k] + [nodes[k]] + nodes[k + 1..];
  }

  lemma SpliceUsed(base: nat, end: nat, nodes: seq<Node>, k: nat, lo: nat, hi: nat, m: Node)
    requires Tiling(base, end, nodes) && lo <= k < hi <= |nodes| && k - 1 <= lo && hi <= k + 2
    requires lo < k ==> !nodes[lo].used
    requires k + 1 < hi ==> !nodes[k + 1].used
    requires !m.used
    ensures Used(nodes[..lo] + [m] + nodes[hi..]) == Used(nodes) - {nodes[k]}
  {
    var a, p, q, c := nodes[..lo], nodes[lo..k], nodes[k + 1..hi], nodes[hi..];
    var n := nodes[k];
    Parts(nodes, lo, k, hi);
    NotElsewhere(base, end, nodes, k, n);
    assert n in a ==> n in a + p;
    assert n in c ==> n in q + c;
    SpliceParts(a, p, n, q, c, m);
  }

  /** A heap whose blocks are all free is one block as large as the region: nothing leaks. */
  lemma AllFreeIsWhole(base: nat, end: nat, nodes: seq<Node>)
    requires Inv(base, end, nodes) && Used(nodes) == {}
    ensures |nodes| == 1 && nodes[0].addr == base && End(nodes[0]) == end && !nodes[0].used
  {
    forall n | n in nodes ensures !n.used {
      assert n.used ==> n in Used(nodes);
    }
    assert Apart(nodes, 0);
    assert End(nodes[0]) == Stop(nodes, end, 0);
  }

  // ---------------------------------------------------------------------------------
  // Requests
  // ---------------------------------------------------------------------------------

  datatype Op = Malloc(size: nat) | Free(ptr: nat)

  /** The block whose payload starts at `ptr`, or the list's length. */
  function Find(nodes: seq<Node>, ptr: nat, from: nat): (k: nat)
    requires from <= |nodes|
    ensures from <= k <= |nodes|
    ensures forall j :: from <= j < k ==> Payload(nodes[j]) != ptr
    ensures k < |nodes| ==> Payload(nodes[k]) == ptr
    decreases |nodes| - from
  {
    if from == |nodes| || Payload(nodes[from]) == ptr then from else Find(nodes, ptr, from + 1)
  }

  /** Whether the search serves a request. */
  predicate Served(nodes: seq<Node>, size: nat) {
    0 < size <= 0x100000 && FirstFit(nodes, size, 0) < |nodes|
  }

  function ListAfter(nodes: seq<Node>, op: Op): seq<Node> {
    match op
    case Malloc(size) => if Served(nodes, size) then Taken(nodes, FirstFit(nodes, size, 0), size) else nodes
    case Free(ptr) => var k := Find(nodes, ptr, 0); if k < |nodes| then Released(nodes, k) else nodes
  }

  lemma StepKeeps(base: nat, end: nat, nodes: seq<Node>, op: Op, n: Node)
    requires Inv(base, end, nodes)
    ensures Inv(base, end, ListAfter(nodes, op))
    ensures n in Used(nodes) && op != Free(Payload(n)) ==> n in Used(ListAfter(nodes, op))
  {
    match op
    case Malloc(size) =>
      if Served(nodes, size) {
        TakenKeeps(base, end, nodes, FirstFit(nodes, size, 0), size);
      }
    case Free(ptr) =>
      var k := Find(nodes, ptr, 0);
      if k < |nodes| {
        ReleasedKeeps(base, end, nodes, k);
      }
  }

  // ---------------------------------------------------------------------------------
  // The linked headers
  // ---------------------------------------------------------------------------------

  /** A block header; `next` and `prev` are header addresses, 0 for none. */
  datatype Header = Header(size: nat, used: bool, next: nat, prev: nat)

  function Next(nodes: seq<Node>, i: nat): nat
    requires i < |nodes|
  {
    if i + 1 < |nodes| then nodes[i + 1].addr else 0
  }

  function Prev(nodes: seq<Node>, i: nat): nat
    requires i < |nodes|
  {
    if 0 < i then nodes[i - 1].addr else 0
  }

  /** The header of block `i` says what the list says and is linked to its neighbours. */
  predicate LinkOk(headers: map<nat, Header>, nodes: seq<Node>, i: nat)
    requires i < |nodes|
  {
    && nodes[i].addr in headers
    && headers[nodes[i].addr] == Header(nodes[i].size, nodes[i].used, Next(nodes, i), Prev(nodes, i))
  }

  ghost predicate Linked(headers: map<nat, Header>, nodes: seq<Node>) {
    forall i {:trigger LinkOk(headers, nodes, i)} :: 0 <= i < |nodes| ==> LinkOk(headers, nodes, i)
  }

  predicate Differ(nodes: seq<Node>, i: nat, j: nat)
    requires i < |nodes| && j < |nodes|
  {
    nodes[i].addr != nodes[j].addr
  }

  /** No two blocks have the same address, and none has address 0. */
  ghost predicate Distinct(nodes: seq<Node>) {
    && (forall i :: 0 <= i < |nodes| ==> nodes[i].addr != 0)
    && forall i, j {:trigger Differ(nodes, i, j)} :: 0 <= i < |nodes| && 0 <= j < |nodes| && i != j ==> Differ(nodes, i, j)
  }

  lemma TilingDistinct(base: nat, end: nat, nodes: seq<Node>)
    requires 0 < base && Tiling(base, end, nodes)
    ensures Distinct(nodes)
  {
    forall i | 0 <= i < |nodes| ensures nodes[i].addr != 0 {
      InRegion(base, end, nodes, i);
    }
    forall i, j | 0 <= i < |nodes| && 0 <= j < |nodes| && i != j ensures Differ(nodes, i, j) {
      if nodes[i].addr == nodes[j].addr {
        AddrUnique(base, end, nodes, i, j);
      }
    }
  }

  /** The neighbours of block `k` have headers. */
  lemma LinkFacts(headers: map<nat, Header>, nodes: seq<Node>, k: nat)
    requires Distinct(nodes) && Linked(headers, nodes) && k < |nodes|
    ensures Next(nodes, k) != 0 <==> k + 1 < |nodes|
    ensures Next(nodes, k) != 0 ==> Next(nodes, k) in headers
    ensures Prev(nodes, k) != 0 <==> 0 < k
    ensures Prev(nodes, k) != 0 ==> Prev(nodes, k) in headers
  {
    if k + 1 < |nodes| {
      assert LinkOk(headers, nodes, k + 1);
    }
    if 0 < k {
      assert LinkOk(headers, nodes, k - 1);
    }
  }

  /** The headers after block `k` was split: the new header linked in between. */
  lemma SplitLinked(headers: map<nat, Header>, nodes: seq<Node>, k: nat, size: nat, after: map<nat, Header>)
    requires Distinct(nodes) && Linked(headers, nodes)
    requires k < |nodes| && Fits(nodes[k], size) && nodes[k].size >= size + 56
    requires forall i :: 0 <= i < |nodes| ==> nodes[i].addr != nodes[k].addr + 40 + size
    requires var a, rest, next := nodes[k].addr, nodes[k].addr + 40 + size, Next(nodes, k);
             && headers.Keys <= after.Keys && a in after && rest in after
             && after[a] == Header(size, true, rest, Prev(nodes, k))
             && after[rest] == Header(nodes[k].size - size - 40, false, next, a)
             && (next in headers && next != 0 ==> after[next] == headers[next].(prev := rest))
             && forall x :: x in headers && x != a && x != rest && x != next ==> after[x] == headers[x]
    ensures Linked(after, Taken(nodes, k, size))
  {
    var t := Taken(nodes, k, size);
    assert LinkOk(headers, nodes, k);
    forall i | 0 <= i < |t| ensures LinkOk(after, t, i) {
      if i < k {
        assert LinkOk(headers, nodes, i) && Differ(nodes, i, k);
        assert k + 1 < |nodes| ==> Differ(nodes, i, k + 1);
      } else if k + 1 < i {
        assert LinkOk(headers, nodes, i - 1) && Differ(nodes, i - 1, k);
        assert k + 2 < i ==> Differ(nodes, i - 1, k + 1);
      }
    }
  }

  /** The headers after a change to block `k`'s own flag. */
  lemma FlagLinked(headers: map<nat, Header>, nodes: seq<Node>, k: nat, used: bool)
    requires Distinct(nodes) && Linked(headers, nodes) && k < |nodes| && nodes[k].addr in headers
    ensures var a := nodes[k].addr;
            Linked(headers[a := headers[a].(used := used)], nodes[k := nodes[k].(used := used)])
  {
    var a := nodes[k].addr;
    var h2, t := headers[a := headers[a].(used := used)], nodes[k := nodes[k].(used := used)];
    forall i | 0 <= i < |t| ensures LinkOk(h2, t, i) {
      assert LinkOk(headers, nodes, i);
      assert i != k ==> Differ(nodes, i, k);
    }
  }

  /** The headers after block `k` took in its free successor. */
  lemma JoinLinked(headers: map<nat, Header>, nodes: seq<Node>, k: nat, after: map<nat, Header>)
    requires Distinct(nodes) && Linked(headers, nodes)
    requires k + 1 < |nodes| && !nodes[k + 1].used
    requires var a, next := nodes[k].addr, Next(nodes, k + 1);
             && headers.Keys <= after.Keys && a in after
             && after[a] == Header(nodes[k].size + 40 + nodes[k + 1].size, nodes[k].used, next, Prev(nodes, k))
             && (next in headers && next != 0 ==> after[next] == headers[next].(prev := a))
             && forall x :: x in headers && x != a && x != next ==> after[x] == headers[x]
    ensures Linked(after, JoinNext(nodes, k))
  {
    var t := JoinNext(nodes, k);
    assert LinkOk(headers, nodes, k);
    forall i | 0 <= i < |t| ensures LinkOk(after, t, i) {
      if i < k {
        assert LinkOk(headers, nodes, i) && Differ(nodes, i, k);
        assert k + 2 < |nodes| ==> Differ(nodes, i, k + 2);
      } else if k < i {
        assert LinkOk(headers, nodes, i + 1) && Differ(nodes, i + 1, k);
        assert k + 1 < i ==> Differ(nodes, i + 1, k + 2);
      }
    }
  }

  /** The bytes mapped for a first request of `size` bytes: whole pages. */
  function RegionSize(size: nat): (t: nat)
    ensures t % 4096 == 0 && 40 + size <= t && (t < 40 + size + 4096)
  {
    (40 + size + 4095) / 4096 * 4096
  }

  lemma NextFacts(base: nat, end: nat, headers: map<nat, Header>, nodes: seq<Node>, k: nat)
    requires 0 < base && Tiling(base, end, nodes) && Linked(headers, nodes) && k < |nodes|
    ensures Next(nodes, k) != 0 <==> k + 1 < |nodes|
    ensures Next(nodes, k) != 0 ==> Next(nodes, k) in headers && End(nodes[k]) == Next(nodes, k)
    ensures Prev(nodes, k) != 0 <==> 0 < k
    ensures Prev(nodes, k) != 0 ==> Prev(nodes, k) in headers
  {
    assert End(nodes[k]) == Stop(nodes, end, k);
    if k + 1 < |nodes| {
      assert LinkOk(headers, nodes, k + 1);
    }
    if 0 < k {
      assert LinkOk(headers, nodes, k - 1);
      InRegion(base, end, nodes, k - 1);
    }
  }

  lemma FlagTiles(base: nat, end: nat, nodes: seq<Node>, k: nat, used: bool)
    requires Tiling(base, end, nodes) && k < |nodes|
    ensures Tiling(base, end, nodes[k := nodes[k].(used := used)])
  {
    var f := nodes[k := nodes[k].(used := used)];
    forall i | 0 <= i < |f| ensures End(f[i]) == Stop(f, end, i) {
      assert End(nodes[i]) == Stop(nodes, end, i);
    }
  }

  /** Freeing removes exactly the allocation at `ptr` from the live ones. */
  lemma StepFrees(base: nat, end: nat, nodes: seq<Node>, ptr: nat)
    requires Inv(base, end, nodes)
    ensures Inv(base, end, ListAfter(nodes, Free(ptr)))
    ensures Used(ListAfter(nodes, Free(ptr))) == set n | n in Used(nodes) && Payload(n) != ptr
  {
    var k := Find(nodes, ptr, 0);
    if k < |nodes| {
      ReleasedKeeps(base, end, nodes, k);
      NotElsewhere(base, end, nodes, k, nodes[k]);
      forall n | n in Used(nodes) && Payload(n) == ptr ensures n == nodes[k] {
        var i :| 0 <= i < |nodes| && nodes[i] == n;
        AddrUnique(base, end, nodes, i, k);
      }
    }
  }

  lemma StepKeepsAll(base: nat, end: nat, nodes: seq<Node>, op: Op)
    requires Inv(base, end, nodes)
    ensures Inv(base, end, ListAfter(nodes, op))
    ensures forall n :: n in Used(nodes) && op != Free(Payload(n)) ==> n in Used(ListAfter(nodes, op))
  {
    forall n | n in Used(nodes) && op != Free(Payload(n)) ensures n in Used(ListAfter(nodes, op)) {
      StepKeeps(base, end, nodes, op, n);
    }
    StepKeeps(base, end, nodes, op, nodes[0]);
  }

  /** The block a request takes lies apart from block `k`, when that is too small for it. */
  lemma Fresh(base: nat, end: nat, nodes: seq<Node>, k: nat, size: nat) returns (m: Node)
    requires Inv(base, end, nodes) && Served(nodes, size) && k < |nodes| && nodes[k].size < size
    ensures m in Used(ListAfter(nodes, Malloc(size))) && size <= m.size && base <= m.addr && End(m) <= end
    ensures m == ListAfter(nodes, Malloc(size))[FirstFit(nodes, size, 0)]
    ensures End(m) <= nodes[k].addr || End(nodes[k]) <= m.addr
    ensures base <= nodes[k].addr && End(nodes[k]) <= end
    ensures forall n :: n in Used(nodes) ==> End(m) <= n.addr || End(n) <= m.addr
    ensures Find(ListAfter(nodes, Malloc(size)), Payload(nodes[k]), 0) < |ListAfter(nodes, Malloc(size))|
  {
    var f := FirstFit(nodes, size, 0);
    var t := Taken(nodes, f, size);
    TakenKeeps(base, end, nodes, f, size);
    m := t[f];
    InRegion(base, end, nodes, f);
    InRegion(base, end, nodes, k);
    if f < k {
      InOrder(base, end, nodes, f, k);
    } else {
      InOrder(base, end, nodes, k, f);
    }
    forall n | n in Used(nodes) ensures End(m) <= n.addr || End(n) <= m.addr {
      LiveDisjoint(base, end, t, m, n);
    }
    assert t[if k < f then k else k + |t| - |nodes|] == nodes[k];
  }
}
