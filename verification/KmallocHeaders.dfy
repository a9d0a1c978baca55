/**
 * What the calls do to the linked headers.  A header that a merge swallowed stays in memory
 * with its magic number, so it can be freed again; what that does is part of the model, as
 * long as nothing has been written over it.
 */
module KmallocHeaders {
  import opened Kmalloc

  type Headers = map<nat, Header>

  // ---------------------------------------------------------------------------------
  // What the calls do to the headers
  // ---------------------------------------------------------------------------------

  /** The headers none of whose bytes lie between `lo` and `hi`. */
  function Spared(h: Headers, lo: nat, hi: nat): (r: Headers)
    ensures forall a :: a in r <==> a in h && (a + 40 <= lo || hi <= a)
    ensures forall a :: a in r ==> r[a] == h[a]
  {
    map a | a in h && (a + 40 <= lo || hi <= a) :: h[a]
  }

  /** Where the memory ends that handing out `block` gives away or writes a new header to. */
  function Reach(h: Headers, block: nat, size: nat): nat
    requires block in h
  {
    if h[block].size >= size + 56 then block + 80 + size else block + 40 + h[block].size
  }

  /** The block at `block` split behind `size` bytes: the rest gets a header and is linked in. */
  function SplitHeaders(h: Headers, block: nat, size: nat): (r: Headers)
    requires block in h && h[block].size >= size + 56
    ensures block in r
  {
    var rest, next := block + 40 + size, h[block].next;
    var h1 := h[rest := Header(h[block].size - size - 40, false, next, block)];
    var h2 := if next != 0 && next in h1 then h1[next := h1[next].(prev := rest)] else h1;
    h2[block := h2[block].(next := rest, size := size)]
  }

  /** The block at `block` handed out for `size` bytes, split when the rest can hold a block.
      Swallowed headers in the way are lost. */
  function TookHeaders(h: Headers, block: nat, size: nat): Headers
    requires block in h
  {
    var kept := Spared(h, block + 40, Reach(h, block, size));
    var split := if h[block].size >= size + 56 then SplitHeaders(kept, block, size) else kept;
    split[block := split[block].(used := true)]
  }

  /** The torn headers, when `now` of the headers `was` are whole. */
  function NowTorn(torn: set<nat>, was: Headers, now: Headers): set<nat> {
    torn + was.Keys - now.Keys
  }

  /** The header at `s` takes in its successor, when that is free. */
  function MergedNext(h: Headers, s: nat): (r: Headers)
    requires s in h
    ensures r.Keys == h.Keys
  {
    var n := h[s].next;
    if n != 0 && n in h && !h[n].used then
      var h1 := h[s := h[s].(size := h[s].size + 40 + h[n].size, next := h[n].next)];
      var x := h1[s].next;
      if x != 0 && x in h1 then h1[x := h1[x].(prev := s)] else h1
    else
      h
  }

  /** The predecessor of the header at `s` takes it in, when that is free. */
  function MergedPrev(h: Headers, s: nat): (r: Headers)
    requires s in h
    ensures r.Keys == h.Keys
  {
    var p, x := h[s].prev, h[s].next;
    if p != 0 && p in h && !h[p].used then
      var h1 := h[p := h[p].(size := h[p].size + 40 + h[s].size, next := x)];
      if x != 0 && x in h1 then h1[x := h1[x].(prev := p)] else h1
    else
      h
  }

  /** The header at `s` freed: whatever it is, its links are followed. */
  function FreedHeaders(h: Headers, s: nat): (r: Headers)
    requires s in h
    ensures r.Keys == h.Keys
  {
    MergedPrev(MergedNext(h[s := h[s].(used := false)], s), s)
  }

  // ---------------------------------------------------------------------------------
  // The invariant
  // ---------------------------------------------------------------------------------

  ghost predicate InList(nodes: seq<Node>, a: nat) {
    exists i :: 0 <= i < |nodes| && nodes[i].addr == a
  }

  /** A header, in the list or swallowed, ends where its next one starts, and its links lead
      forward to a header and backward. */
  ghost predicate HeaderOk(h: Headers, base: nat, end: nat, a: nat)
    requires a in h
  {
    && base <= a && a + 40 + h[a].size == (if h[a].next == 0 then end else h[a].next) <= end
    && (h[a].next != 0 ==> h[a].next in h)
    && (h[a].prev != 0 ==> h[a].prev + 40 <= a)
  }

  ghost predicate HeadersOk(h: Headers, base: nat, end: nat) {
    forall a {:trigger HeaderOk(h, base, end, a)} :: a in h ==> HeaderOk(h, base, end, a)
  }

  ghost predicate StaleFree(h: Headers, nodes: seq<Node>) {
    forall a {:trigger InList(nodes, a)} :: a in h && !InList(nodes, a) ==> !h[a].used
  }

  /** The headers at `a` and `b` have no byte in common. */
  predicate Gap(a: nat, b: nat) {
    a + 40 <= b || b + 40 <= a
  }

  /** No two headers have a byte in common. */
  ghost predicate Spaced(h: Headers) {
    forall a, b {:trigger Gap(a, b)} :: a in h && b in h && a != b ==> Gap(a, b)
  }

  /** The header at `a` and the block behind it lie in the payload of a free block. */
  ghost predicate Under(h: Headers, nodes: seq<Node>, a: nat)
    requires a in h
  {
    exists i :: 0 <= i < |nodes| && Covers(nodes[i], a, a + 40 + h[a].size)
  }

  predicate Covers(n: Node, lo: nat, hi: nat) {
    !n.used && n.addr + 40 <= lo && hi <= End(n)
  }

  ghost predicate Sheltered(h: Headers, nodes: seq<Node>) {
    forall a {:trigger InList(nodes, a)} :: a in h && !InList(nodes, a) ==> Under(h, nodes, a)
  }

  /** The list tiles the region and is linked; swallowed headers are free, whole, and inside
      free blocks. */
  ghost predicate StateInv(base: nat, end: nat, h: Headers, nodes: seq<Node>) {
    && Inv(base, end, nodes) && Linked(h, nodes) && HeadersOk(h, base, end) && StaleFree(h, nodes)
    && Spaced(h) && Sheltered(h, nodes)
  }

  /** The headers describe some list that tiles the region. */
  ghost predicate Formed(base: nat, end: nat, h: Headers) {
    exists nodes :: Tiling(base, end, nodes) && Linked(h, nodes)
  }

  // ---------------------------------------------------------------------------------
  // Allocating
  // ---------------------------------------------------------------------------------

  /** Address `a` does not lie behind the header of block `n`. */
  predicate OutsideOf(a: nat, n: Node) {
    a <= n.addr || End(n) <= a
  }

  /** Handing out block `k` does the same to the headers and to the list. */
  lemma TookLinked(h: Headers, nodes: seq<Node>, k: nat, size: nat)
    requires Distinct(nodes) && Linked(h, nodes) && k < |nodes| && Fits(nodes[k], size) && nodes[k].addr in h
    requires forall i :: 0 <= i < |nodes| ==> OutsideOf(nodes[i].addr, nodes[k])
    ensures Linked(TookHeaders(h, nodes[k].addr, size), Taken(nodes, k, size))
  {
    assert LinkOk(h, nodes, k);
    var kept := Spared(h, nodes[k].addr + 40, Reach(h, nodes[k].addr, size));
    SparedLinked(h, nodes, k, size);
    LinkFacts(kept, nodes, k);
    if nodes[k].size >= size + 56 {
      assert k + 1 < |nodes| ==> Differ(nodes, k, k + 1);
      SplitLinked(kept, nodes, k, size, TookHeaders(h, nodes[k].addr, size));
    } else {
      FlagLinked(kept, nodes, k, true);
    }
  }

  lemma SparedLinked(h: Headers, nodes: seq<Node>, k: nat, size: nat)
    requires Linked(h, nodes) && k < |nodes| && Fits(nodes[k], size) && nodes[k].addr in h
    requires forall i :: 0 <= i < |nodes| ==> OutsideOf(nodes[i].addr, nodes[k])
    ensures Linked(Spared(h, nodes[k].addr + 40, Reach(h, nodes[k].addr, size)), nodes)
  {
    var kept := Spared(h, nodes[k].addr + 40, Reach(h, nodes[k].addr, size));
    assert LinkOk(h, nodes, k);
    forall i | 0 <= i < |nodes| ensures LinkOk(kept, nodes, i) {
      assert LinkOk(h, nodes, i) && OutsideOf(nodes[i].addr, nodes[k]);
    }
  }

  lemma TookState(base: nat, end: nat, h: Headers, nodes: seq<Node>, k: nat, size: nat)
    requires StateInv(base, end, h, nodes) && k < |nodes| && Fits(nodes[k], size) && nodes[k].addr in h
    ensures StateInv(base, end, TookHeaders(h, nodes[k].addr, size), Taken(nodes, k, size))
  {
    TakenKeeps(base, end, nodes, k, size);
    TilingDistinct(base, end, nodes);
    AllOutside(base, end, nodes, k);
    TookLinked(h, nodes, k, size);
    TookHeadersOk(base, end, h, nodes, k, size);
    TookStale(base, end, h, nodes, k, size);
    TookSpaced(base, end, h, nodes, k, size);
    TookSheltered(base, end, h, nodes, k, size);
  }

  lemma AllOutside(base: nat, end: nat, nodes: seq<Node>, k: nat)
    requires Tiling(base, end, nodes) && k < |nodes|
    ensures forall i :: 0 <= i < |nodes| ==> OutsideOf(nodes[i].addr, nodes[k])
  {
    forall i | 0 <= i < |nodes| ensures OutsideOf(nodes[i].addr, nodes[k]) {
      if i < k {
        InOrder(base, end, nodes, i, k);
      } else if k < i {
        InOrder(base, end, nodes, k, i);
      }
    }
  }

  /** The successor of a header that is spared is spared. */
  lemma NextSpared(base: nat, end: nat, h: Headers, nodes: seq<Node>, k: nat, size: nat, a: nat)
    requires 0 < base && Tiling(base, end, nodes) && Linked(h, nodes) && HeadersOk(h, base, end) && Sheltered(h, nodes)
    requires k < |nodes| && Fits(nodes[k], size) && nodes[k].addr in h
    requires a in Spared(h, nodes[k].addr + 40, Reach(h, nodes[k].addr, size)) && h[a].next != 0
    ensures h[a].next in Spared(h, nodes[k].addr + 40, Reach(h, nodes[k].addr, size))
  {
    assert HeaderOk(h, base, end, a) && LinkOk(h, nodes, k);
    if InList(nodes, a) {
      var i :| 0 <= i < |nodes| && nodes[i].addr == a;
      assert LinkOk(h, nodes, i);
      NextFacts(base, end, h, nodes, i);
      AllOutside(base, end, nodes, k);
      assert i + 1 < |nodes| ==> OutsideOf(nodes[i + 1].addr, nodes[k]);
    } else {
      assert Under(h, nodes, a);
      var i :| 0 <= i < |nodes| && Covers(nodes[i], a, a + 40 + h[a].size);
      if i < k {
        InOrder(base, end, nodes, i, k);
      } else if k < i {
        InOrder(base, end, nodes, k, i);
      }
    }
  }

  lemma TookHeadersOk(base: nat, end: nat, h: Headers, nodes: seq<Node>, k: nat, size: nat)
    requires 0 < base && Tiling(base, end, nodes) && Linked(h, nodes) && HeadersOk(h, base, end) && Sheltered(h, nodes)
    requires k < |nodes| && Fits(nodes[k], size) && nodes[k].addr in h
    ensures HeadersOk(TookHeaders(h, nodes[k].addr, size), base, end)
  {
    var t, kept := TookHeaders(h, nodes[k].addr, size), Spared(h, nodes[k].addr + 40, Reach(h, nodes[k].addr, size));
    assert LinkOk(h, nodes, k);
    NextFacts(base, end, h, nodes, k);
    assert HeaderOk(h, base, end, nodes[k].addr);
    forall a | a in t ensures HeaderOk(t, base, end, a) {
      if a in kept {
        assert HeaderOk(h, base, end, a);
        if h[a].next != 0 {
          NextSpared(base, end, h, nodes, k, size, a);
        }
      }
      if h[nodes[k].addr].next != 0 {
        NextSpared(base, end, h, nodes, k, size, nodes[k].addr);
      }
    }
  }

  lemma TookSpaced(base: nat, end: nat, h: Headers, nodes: seq<Node>, k: nat, size: nat)
    requires Spaced(h) && Linked(h, nodes) && Tiling(base, end, nodes)
    requires k < |nodes| && Fits(nodes[k], size) && nodes[k].addr in h
    ensures Spaced(TookHeaders(h, nodes[k].addr, size))
  {
    var t := TookHeaders(h, nodes[k].addr, size);
    assert LinkOk(h, nodes, k);
    forall a, b | a in t && b in t && a != b ensures Gap(a, b) {
      assert a in h && b in h ==> Gap(a, b);
    }
  }

  lemma TookSheltered(base: nat, end: nat, h: Headers, nodes: seq<Node>, k: nat, size: nat)
    requires 0 < base && Tiling(base, end, nodes) && Linked(h, nodes) && Sheltered(h, nodes)
    requires k < |nodes| && Fits(nodes[k], size) && nodes[k].addr in h
    ensures Sheltered(TookHeaders(h, nodes[k].addr, size), Taken(nodes, k, size))
  {
    var t, list := TookHeaders(h, nodes[k].addr, size), Taken(nodes, k, size);
    assert LinkOk(h, nodes, k);
    NextFacts(base, end, h, nodes, k);
    assert |list| > |nodes| ==> list[k + 1].addr == nodes[k].addr + 40 + size && InList(list, list[k + 1].addr);
    TakenKeepsAddr(nodes, k, size, k);
    forall a | a in t && !InList(list, a) ensures Under(t, list, a) {
      if InList(nodes, a) {
        var i :| 0 <= i < |nodes| && nodes[i].addr == a;
        TakenKeepsAddr(nodes, k, size, i);
      }
      assert a in h && t[a].size == h[a].size && Under(h, nodes, a);
      var i :| 0 <= i < |nodes| && Covers(nodes[i], a, a + 40 + h[a].size);
      assert Covers(list[if i < k then i else i + |list| - |nodes|], a, a + 40 + h[a].size);
    }
  }

  lemma TookStale(base: nat, end: nat, h: Headers, nodes: seq<Node>, k: nat, size: nat)
    requires 0 < base && Tiling(base, end, nodes) && Linked(h, nodes) && StaleFree(h, nodes)
    requires k < |nodes| && Fits(nodes[k], size) && nodes[k].addr in h
    ensures StaleFree(TookHeaders(h, nodes[k].addr, size), Taken(nodes, k, size))
  {
    var t, list := TookHeaders(h, nodes[k].addr, size), Taken(nodes, k, size);
    assert LinkOk(h, nodes, k);
    NextFacts(base, end, h, nodes, k);
    assert |list| > |nodes| ==> list[k + 1].addr == nodes[k].addr + 40 + size && InList(list, list[k + 1].addr);
    TakenKeepsAddr(nodes, k, size, k);
    forall a | InList(nodes, a) ensures InList(list, a) {
      var i :| 0 <= i < |nodes| && nodes[i].addr == a;
      TakenKeepsAddr(nodes, k, size, i);
    }
    forall a | a in t && !InList(list, a) ensures !t[a].used {
      assert InList(nodes, a) ==> InList(list, a);
    }
  }

  lemma TakenKeepsAddr(nodes: seq<Node>, k: nat, size: nat, i: nat)
    requires k < |nodes| && Fits(nodes[k], size) && i < |nodes|
    ensures InList(Taken(nodes, k, size), nodes[i].addr)
  {
    var list := Taken(nodes, k, size);
    assert list[if i <= k then i else i + |list| - |nodes|].addr == nodes[i].addr;
  }

  // ---------------------------------------------------------------------------------
  // Freeing a block of the list
  // ---------------------------------------------------------------------------------

  /** Taking in the next header keeps every header in form, also for a swallowed one. */
  lemma MergedNextOk(base: nat, end: nat, h: Headers, s: nat)
    requires 0 < base && HeadersOk(h, base, end) && s in h
    ensures HeadersOk(MergedNext(h, s), base, end)
  {
    var t, n := MergedNext(h, s), h[s].next;
    assert HeaderOk(h, base, end, s);
    if n != 0 && !h[n].used {
      assert HeaderOk(h, base, end, n);
      forall a | a in t ensures HeaderOk(t, base, end, a) {
        assert HeaderOk(h, base, end, a);
      }
    }
  }

  lemma MergedPrevOk(base: nat, end: nat, h: Headers, s: nat)
    requires 0 < base && HeadersOk(h, base, end) && s in h
    requires h[s].prev in h && h[s].prev != 0 ==> h[s].prev + 40 + h[h[s].prev].size == s
    ensures HeadersOk(MergedPrev(h, s), base, end)
  {
    var t, p := MergedPrev(h, s), h[s].prev;
    assert HeaderOk(h, base, end, s);
    if p != 0 && p in h && !h[p].used {
      assert HeaderOk(h, base, end, p);
      forall a | a in t ensures HeaderOk(t, base, end, a) {
        assert HeaderOk(h, base, end, a);
      }
    }
  }

  lemma JoinDistinct(nodes: seq<Node>, k: nat)
    requires Distinct(nodes) && k < |nodes|
    ensures Distinct(JoinNext(nodes, k))
  {
    var t := JoinNext(nodes, k);
    if |t| < |nodes| {
      forall i, j | 0 <= i < |t| && 0 <= j < |t| && i != j ensures Differ(t, i, j) {
        assert Differ(nodes, if i <= k then i else i + 1, if j <= k then j else j + 1);
      }
    }
  }

  lemma MergedNextLinked(h: Headers, nodes: seq<Node>, k: nat)
    requires Distinct(nodes) && Linked(h, nodes) && k < |nodes| && nodes[k].addr in h
    ensures Distinct(JoinNext(nodes, k)) && Linked(MergedNext(h, nodes[k].addr), JoinNext(nodes, k))
  {
    JoinDistinct(nodes, k);
    assert LinkOk(h, nodes, k);
    LinkFacts(h, nodes, k);
    if k + 1 < |nodes| {
      assert LinkOk(h, nodes, k + 1) && Differ(nodes, k, k + 1);
      LinkFacts(h, nodes, k + 1);
      if !nodes[k + 1].used {
        assert k + 2 < |nodes| ==> Differ(nodes, k, k + 2);
        JoinLinked(h, nodes, k, MergedNext(h, nodes[k].addr));
      }
    }
  }

  lemma MergedPrevLinked(h: Headers, nodes: seq<Node>, k: nat)
    requires Distinct(nodes) && Linked(h, nodes) && 0 < k < |nodes| && nodes[k].addr in h && !nodes[k].used
    ensures Linked(MergedPrev(h, nodes[k].addr), if nodes[k - 1].used then nodes else JoinNext(nodes, k - 1))
  {
    assert LinkOk(h, nodes, k) && LinkOk(h, nodes, k - 1) && Differ(nodes, k - 1, k);
    LinkFacts(h, nodes, k);
    LinkFacts(h, nodes, k - 1);
    if !nodes[k - 1].used {
      assert k + 1 < |nodes| ==> Differ(nodes, k - 1, k + 1) && Differ(nodes, k, k + 1);
      JoinLinked(h, nodes, k - 1, MergedPrev(h, nodes[k].addr));
    }
  }

  lemma FlagDistinct(nodes: seq<Node>, k: nat, used: bool)
    requires Distinct(nodes) && k < |nodes|
    ensures Distinct(nodes[k := nodes[k].(used := used)])
  {
    var f := nodes[k := nodes[k].(used := used)];
    forall i, j | 0 <= i < |f| && 0 <= j < |f| && i != j ensures Differ(f, i, j) {
      assert Differ(nodes, i, j);
    }
  }

  /** Freeing block `k` does the same to the headers and to the list. */
  lemma FreedLinks(h: Headers, nodes: seq<Node>, k: nat)
    requires Distinct(nodes) && Linked(h, nodes) && k < |nodes| && nodes[k].addr in h
    ensures Linked(FreedHeaders(h, nodes[k].addr), Released(nodes, k))
  {
    var a := nodes[k].addr;
    var h0, n0 := h[a := h[a].(used := false)], nodes[k := nodes[k].(used := false)];
    FlagLinked(h, nodes, k, false);
    FlagDistinct(nodes, k, false);
    MergedNextLinked(h0, n0, k);
    var h1, n1 := MergedNext(h0, a), JoinNext(n0, k);
    assert LinkOk(h1, n1, k);
    if 0 < k {
      MergedPrevLinked(h1, n1, k);
    }
  }

  /** Freeing block `k` of the list releases it in the list model. */
  lemma FreedLinked(base: nat, end: nat, h: Headers, nodes: seq<Node>, k: nat)
    requires 0 < base && Tiling(base, end, nodes) && Linked(h, nodes) && HeadersOk(h, base, end)
    requires k < |nodes| && nodes[k].addr in h
    ensures Linked(FreedHeaders(h, nodes[k].addr), Released(nodes, k))
    ensures HeadersOk(FreedHeaders(h, nodes[k].addr), base, end)
  {
    var a := nodes[k].addr;
    var h0, n0 := h[a := h[a].(used := false)], nodes[k := nodes[k].(used := false)];
    TilingDistinct(base, end, nodes);
    FreedLinks(h, nodes, k);
    FlagLinked(h, nodes, k, false);
    FlagDistinct(nodes, k, false);
    FlagTiles(base, end, nodes, k, false);
    MergedNextLinked(h0, n0, k);
    JoinTiles(base, end, n0, k);
    FreedHeadersOk(base, end, h, a, JoinNext(n0, k), k);
  }

  lemma FreedHeadersOk(base: nat, end: nat, h: Headers, a: nat, list: seq<Node>, k: nat)
    requires 0 < base && HeadersOk(h, base, end) && a in h
    requires Tiling(base, end, list) && Linked(MergedNext(h[a := h[a].(used := false)], a), list)
    requires k < |list| && list[k].addr == a
    ensures HeadersOk(FreedHeaders(h, a), base, end)
  {
    var h0 := h[a := h[a].(used := false)];
    forall x | x in h0 ensures HeaderOk(h0, base, end, x) {
      assert HeaderOk(h, base, end, x);
    }
    MergedNextOk(base, end, h0, a);
    var h1 := MergedNext(h0, a);
    assert LinkOk(h1, list, k);
    if 0 < k {
      assert LinkOk(h1, list, k - 1);
      NextFacts(base, end, h1, list, k - 1);
    }
    MergedPrevOk(base, end, h1, a);
  }

  lemma FlagsKept(h: Headers, s: nat, a: nat)
    requires s in h && a in h
    ensures MergedNext(h, s)[a].used == h[a].used && MergedPrev(h, s)[a].used == h[a].used
  {
  }

  lemma JoinKeepsUsed(nodes: seq<Node>, k: nat, i: nat)
    requires k < |nodes| && i < |nodes| && nodes[i].used
    ensures exists j :: 0 <= j < |JoinNext(nodes, k)| && JoinNext(nodes, k)[j].used && JoinNext(nodes, k)[j].addr == nodes[i].addr
  {
    var t := JoinNext(nodes, k);
    var j := if |t| < |nodes| && i > k then i - 1 else i;
    assert t[j].used && t[j].addr == nodes[i].addr;
  }

  lemma FreedStale(h: Headers, nodes: seq<Node>, k: nat)
    requires StaleFree(h, nodes) && Linked(h, nodes) && k < |nodes| && nodes[k].addr in h
    ensures StaleFree(FreedHeaders(h, nodes[k].addr), Released(nodes, k))
  {
    var s := nodes[k].addr;
    var h0, n0 := h[s := h[s].(used := false)], nodes[k := nodes[k].(used := false)];
    var t, list := FreedHeaders(h, s), Released(nodes, k);
    forall a | InList(nodes, a) && a in h && a != s && h[a].used ensures InList(list, a) {
      var i :| 0 <= i < |nodes| && nodes[i].addr == a;
      assert LinkOk(h, nodes, i);
      ReleasedKeepsUsed(nodes, k, i);
    }
    forall a | a in t && !InList(list, a) ensures !t[a].used {
      FlagsKept(h0, s, a);
      FlagsKept(MergedNext(h0, s), s, a);
      assert InList(nodes, a) ==> a == s || !h[a].used;
    }
  }

  lemma ReleasedKeepsUsed(nodes: seq<Node>, k: nat, i: nat)
    requires k < |nodes| && i < |nodes| && i != k && nodes[i].used
    ensures InList(Released(nodes, k), nodes[i].addr)
  {
    var n0 := nodes[k := nodes[k].(used := false)];
    JoinKeepsUsed(n0, k, i);
    var n1 := JoinNext(n0, k);
    var j :| 0 <= j < |n1| && n1[j].used && n1[j].addr == nodes[i].addr;
    if 0 < k && !n1[k - 1].used {
      JoinKeepsUsed(n1, k - 1, j);
    }
  }

  lemma FreedState(base: nat, end: nat, h: Headers, nodes: seq<Node>, k: nat)
    requires StateInv(base, end, h, nodes) && k < |nodes| && nodes[k].addr in h
    ensures StateInv(base, end, FreedHeaders(h, nodes[k].addr), Released(nodes, k))
  {
    ReleasedKeeps(base, end, nodes, k);
    FreedLinked(base, end, h, nodes, k);
    FreedStale(h, nodes, k);
    FreedSheltered(base, end, h, nodes, k);
  }

  /** Which sizes a free changes: its own, and that of a free predecessor. */
  lemma FreedSizes(h: Headers, s: nat, a: nat)
    requires s in h && a in h
    ensures var t, n, p := FreedHeaders(h, s), h[s].next, h[s].prev;
            && (a != s && a != p ==> t[a].size == h[a].size)
            && (p != s && n != s && (NextFree(h, s) ==> h[n].next != s) ==>
                  t[s].size == h[s].size + if NextFree(h, s) then 40 + h[n].size else 0)
            && (p in h && h[p].used ==> a != s ==> t[a].size == h[a].size)
  {
  }

  lemma FreedBlockSizes(base: nat, end: nat, h: Headers, nodes: seq<Node>, k: nat, a: nat)
    requires 0 < base && Tiling(base, end, nodes) && Linked(h, nodes) && k < |nodes| && nodes[k].addr in h && a in h
    ensures var t, lo, hi := FreedHeaders(h, nodes[k].addr), From(nodes, k), To(nodes, k);
            && (a != nodes[k].addr && a != nodes[lo].addr ==> t[a].size == h[a].size)
            && (lo < k ==> nodes[k].addr + 40 + t[nodes[k].addr].size == End(nodes[hi - 1]))
  {
    FreedSizes(h, nodes[k].addr, a);
    assert LinkOk(h, nodes, k);
    NextFacts(base, end, h, nodes, k);
    assert 0 < k ==> LinkOk(h, nodes, k - 1) && End(nodes[k - 1]) == Stop(nodes, end, k - 1);
    assert k + 1 < |nodes| ==> LinkOk(h, nodes, k + 1) && End(nodes[k + 1]) == Stop(nodes, end, k + 1);
    assert End(nodes[k]) == Stop(nodes, end, k);
  }

  lemma SplicedKeeps(nodes: seq<Node>, lo: nat, hi: nat, m: Node)
    requires lo < hi <= |nodes|
    ensures forall i :: 0 <= i < |nodes| && (i < lo || hi <= i) ==> InList(nodes[..lo] + [m] + nodes[hi..], nodes[i].addr)
    ensures InList(nodes[..lo] + [m] + nodes[hi..], m.addr)
  {
    var list := nodes[..lo] + [m] + nodes[hi..];
    forall i | 0 <= i < |nodes| && (i < lo || hi <= i) ensures InList(list, nodes[i].addr) {
      assert list[if i < lo then i else i - hi + lo + 1] == nodes[i];
    }
    assert list[lo] == m;
  }

  /** The block that a release leaves covers the blocks it took in. */
  lemma WholeCovers(base: nat, end: nat, nodes: seq<Node>, k: nat, i: nat)
    requires Tiling(base, end, nodes) && k < |nodes| && From(nodes, k) <= i < To(nodes, k)
    ensures Whole(nodes, k).addr <= nodes[i].addr && End(nodes[i]) <= End(Whole(nodes, k)) == End(nodes[To(nodes, k) - 1])
    ensures From(nodes, k) < i ==> Whole(nodes, k).addr + 40 <= nodes[i].addr
  {
    assert End(nodes[k]) == Stop(nodes, end, k);
    assert 0 < k ==> End(nodes[k - 1]) == Stop(nodes, end, k - 1);
  }

  lemma FreedSheltered(base: nat, end: nat, h: Headers, nodes: seq<Node>, k: nat)
    requires 0 < base && Tiling(base, end, nodes) && Linked(h, nodes) && Sheltered(h, nodes)
    requires k < |nodes| && nodes[k].addr in h
    ensures Sheltered(FreedHeaders(h, nodes[k].addr), Released(nodes, k))
  {
    var t, list := FreedHeaders(h, nodes[k].addr), Released(nodes, k);
    ReleasedIs(nodes, k);
    var spliced := nodes[..From(nodes, k)] + [Whole(nodes, k)] + nodes[To(nodes, k)..];
    forall a | a in t && !InList(list, a) ensures Under(t, list, a) {
      FreedUnder(base, end, h, nodes, k, a, spliced);
    }
  }

  lemma FreedUnder(base: nat, end: nat, h: Headers, nodes: seq<Node>, k: nat, a: nat, list: seq<Node>)
    requires 0 < base && Tiling(base, end, nodes) && Linked(h, nodes) && Sheltered(h, nodes)
    requires k < |nodes| && nodes[k].addr in h && a in h && !InList(list, a)
    requires list == nodes[..From(nodes, k)] + [Whole(nodes, k)] + nodes[To(nodes, k)..]
    ensures Under(FreedHeaders(h, nodes[k].addr), list, a)
  {
    var t, lo, hi, m := FreedHeaders(h, nodes[k].addr), From(nodes, k), To(nodes, k), Whole(nodes, k);
    FreedBlockSizes(base, end, h, nodes, k, a);
    SplicedKeeps(nodes, lo, hi, m);
    assert list[lo] == m;
    if InList(nodes, a) {
      var i :| 0 <= i < |nodes| && nodes[i].addr == a;
      assert LinkOk(h, nodes, i);
      WholeCovers(base, end, nodes, k, i);
      WholeCovers(base, end, nodes, k, k);
      TilingDistinct(base, end, nodes);
      assert i != k ==> Differ(nodes, i, k);
      assert Covers(list[lo], a, a + 40 + t[a].size);
    } else {
      assert Under(h, nodes, a) && InList(nodes, nodes[k].addr) && InList(nodes, nodes[lo].addr);
      var i :| 0 <= i < |nodes| && Covers(nodes[i], a, a + 40 + h[a].size);
      if lo <= i < hi {
        WholeCovers(base, end, nodes, k, i);
        assert Covers(list[lo], a, a + 40 + t[a].size);
      } else {
        assert Covers(list[if i < lo then i else i - hi + lo + 1], a, a + 40 + t[a].size);
      }
    }
  }

  // ---------------------------------------------------------------------------------
  // Freeing a swallowed header again
  // ---------------------------------------------------------------------------------

  /** Whether the next, or the previous, header of `s` is there and free. */
  predicate NextFree(h: Headers, s: nat)
    requires s in h
  {
    h[s].next != 0 && h[s].next in h && !h[h[s].next].used
  }

  predicate PrevFree(h: Headers, s: nat)
    requires s in h
  {
    h[s].prev != 0 && h[s].prev in h && !h[h[s].prev].used
  }

  /** The header behind `s` once it has taken in a free next one. */
  function Behind(h: Headers, s: nat): nat
    requires s in h
  {
    if NextFree(h, s) then h[h[s].next].next else h[s].next
  }

  /** No free neighbour that the list knows is written to. */
  ghost predicate Harmless(h: Headers, nodes: seq<Node>, s: nat)
    requires s in h
  {
    && (NextFree(h, s) ==> !InList(nodes, Behind(h, s)))
    && (PrevFree(h, s) ==> !InList(nodes, h[s].prev) && !InList(nodes, Behind(h, s)))
  }

  /** A header whose links lead to headers; only such a one is read and written as a header. */
  predicate Intact(h: Headers, s: nat) {
    s in h && (h[s].prev == 0 || h[s].prev in h)
  }

  lemma UnflaggedOk(base: nat, end: nat, h: Headers, s: nat)
    requires HeadersOk(h, base, end) && s in h
    ensures HeadersOk(h[s := h[s].(used := false)], base, end)
  {
    var t := h[s := h[s].(used := false)];
    forall a | a in t ensures HeaderOk(t, base, end, a) {
      assert HeaderOk(h, base, end, a);
    }
  }

  lemma NextKeepsPrev(base: nat, end: nat, h: Headers, s: nat)
    requires Intact(h, s) && HeadersOk(h, base, end)
    ensures Intact(MergedNext(h, s), s)
  {
    assert HeaderOk(h, base, end, s);
    if NextFree(h, s) {
      assert HeaderOk(h, base, end, h[s].next);
    }
  }

  /** Which headers a free of a free header writes to, and with what. */
  lemma FreedEffect(base: nat, end: nat, h: Headers, s: nat)
    requires 0 < base && HeadersOk(h, base, end) && s in h && !h[s].used
    ensures var t, x, p := FreedHeaders(h, s), Behind(h, s), h[s].prev;
            && (forall a :: a in h && a != s && a != x && a != p ==> t[a] == h[a])
            && (x in h && x != 0 && x != p && x != s ==>
                  t[x] == if PrevFree(h, s) then h[x].(prev := p) else if NextFree(h, s) then h[x].(prev := s) else h[x])
            && (p in h && p != 0 && p != s ==>
                  && (!PrevFree(h, s) ==> t[p] == h[p])
                  && (PrevFree(h, s) ==>
                        t[p].size == h[p].size + 40 + MergedNext(h, s)[s].size && t[p].next == x && t[p].used == h[p].used))
            && base <= s && (p != 0 ==> p < s) && (x != 0 ==> x in h && s < x)
            && s + 40 + MergedNext(h, s)[s].size == (if x == 0 then end else x) <= end
  {
    assert HeaderOk(h, base, end, s);
    assert h[s := h[s].(used := false)] == h;
    if NextFree(h, s) {
      assert HeaderOk(h, base, end, h[s].next);
    }
    MergedNextOk(base, end, h, s);
    assert HeaderOk(MergedNext(h, s), base, end, s);
  }

  /** A free that writes to no header of the list leaves the list as it was. */
  lemma HarmlessKeeps(base: nat, end: nat, h: Headers, nodes: seq<Node>, s: nat)
    requires StateInv(base, end, h, nodes) && s in h && !InList(nodes, s) && Harmless(h, nodes, s)
    ensures Linked(FreedHeaders(h, s), nodes)
  {
    FreedEffect(base, end, h, s);
    var t := FreedHeaders(h, s);
    forall i | 0 <= i < |nodes| ensures LinkOk(t, nodes, i) {
      assert LinkOk(h, nodes, i) && InList(nodes, nodes[i].addr);
      InRegion(base, end, nodes, i);
    }
  }

  /** Two linked lists of one region agree as long as the `next` fields do. */
  lemma {:induction false} SameWalk(base: nat, end: nat, h: Headers, nodes: seq<Node>, t: Headers, list: seq<Node>, k: nat)
    requires 0 < base && Tiling(base, end, nodes) && Linked(h, nodes) && Tiling(base, end, list) && Linked(t, list)
    requires k < |nodes|
    requires forall i :: 0 <= i < k ==> nodes[i].addr in h && nodes[i].addr in t && t[nodes[i].addr].next == h[nodes[i].addr].next
    ensures k < |list| && list[k].addr == nodes[k].addr
  {
    if k > 0 {
      SameWalk(base, end, h, nodes, t, list, k - 1);
      assert LinkOk(h, nodes, k - 1) && LinkOk(t, list, k - 1);
      InRegion(base, end, nodes, k);
    }
  }

  lemma SamePrev(base: nat, end: nat, h: Headers, nodes: seq<Node>, t: Headers, list: seq<Node>, m: nat)
    requires 0 < base && Tiling(base, end, nodes) && Linked(h, nodes) && Tiling(base, end, list) && Linked(t, list)
    requires m < |nodes|
    requires forall i :: 0 <= i < m ==> nodes[i].addr in h && nodes[i].addr in t && t[nodes[i].addr].next == h[nodes[i].addr].next
    ensures nodes[m].addr in t && t[nodes[m].addr].prev == Prev(nodes, m)
  {
    SameWalk(base, end, h, nodes, t, list, m);
    assert LinkOk(t, list, m);
    if m > 0 {
      SameWalk(base, end, h, nodes, t, list, m - 1);
    }
  }

  /** A free predecessor in the list grows by the header's size, which fits only when the
      header is the block right behind it. */
  lemma PrevGrows(base: nat, end: nat, h: Headers, nodes: seq<Node>, s: nat, list: seq<Node>, k: nat)
    requires 0 < base && Tiling(base, end, nodes) && Linked(h, nodes) && HeadersOk(h, base, end)
    requires s in h && !h[s].used && PrevFree(h, s) && k < |nodes| && nodes[k].addr == h[s].prev
    requires Tiling(base, end, list) && Linked(FreedHeaders(h, s), list)
    ensures End(nodes[k]) == s
  {
    FreedEffect(base, end, h, s);
    var t := FreedHeaders(h, s);
    forall i | 0 <= i < k ensures nodes[i].addr in h && nodes[i].addr in t && t[nodes[i].addr].next == h[nodes[i].addr].next {
      assert LinkOk(h, nodes, i);
      InOrder(base, end, nodes, i, k);
      InRegion(base, end, nodes, i);
    }
    SameWalk(base, end, h, nodes, t, list, k);
    assert LinkOk(t, list, k) && LinkOk(h, nodes, k);
    assert End(list[k]) == Stop(list, end, k);
    if k + 1 < |list| {
      InRegion(base, end, list, k + 1);
    }
  }

  /** A block of the list whose `prev` is set to a header outside it is no longer linked. */
  lemma BehindBreaks(base: nat, end: nat, h: Headers, nodes: seq<Node>, s: nat, list: seq<Node>, m: nat)
    requires StateInv(base, end, h, nodes) && s in h && !InList(nodes, s)
    requires NextFree(h, s) || PrevFree(h, s)
    requires PrevFree(h, s) ==> !InList(nodes, h[s].prev)
    requires m < |nodes| && nodes[m].addr == Behind(h, s) && Tiling(base, end, list)
    ensures !Linked(FreedHeaders(h, s), list)
  {
    FreedEffect(base, end, h, s);
    var t := FreedHeaders(h, s);
    InRegion(base, end, nodes, m);
    forall i | 0 <= i < m ensures nodes[i].addr in h && nodes[i].addr in t && t[nodes[i].addr].next == h[nodes[i].addr].next {
      assert LinkOk(h, nodes, i) && InList(nodes, nodes[i].addr);
      InOrder(base, end, nodes, i, m);
      InRegion(base, end, nodes, i);
    }
    assert m > 0 ==> InList(nodes, nodes[m - 1].addr);
    if Linked(t, list) {
      SamePrev(base, end, h, nodes, t, list, m);
    }
  }

  lemma PrevBreaks(base: nat, end: nat, h: Headers, nodes: seq<Node>, s: nat, list: seq<Node>, k: nat)
    requires StateInv(base, end, h, nodes) && s in h && !InList(nodes, s)
    requires PrevFree(h, s) && k < |nodes| && nodes[k].addr == h[s].prev && Tiling(base, end, list)
    ensures !Linked(FreedHeaders(h, s), list)
  {
    assert HeaderOk(h, base, end, s);
    assert End(nodes[k]) == Stop(nodes, end, k);
    assert k + 1 < |nodes| ==> InList(nodes, nodes[k + 1].addr);
    if Linked(FreedHeaders(h, s), list) {
      PrevGrows(base, end, h, nodes, s, list, k);
    }
  }

  /** Freeing an intact swallowed header again: the headers go on describing a tiling of the
      region if and only if no free neighbour in the list would be written to. */
  lemma StaleFreeIff(base: nat, end: nat, h: Headers, nodes: seq<Node>, s: nat)
    requires StateInv(base, end, h, nodes) && Intact(h, s) && !InList(nodes, s)
    ensures Formed(base, end, FreedHeaders(h, s)) <==> Harmless(h, nodes, s)
  {
    if Harmless(h, nodes, s) {
      HarmlessKeeps(base, end, h, nodes, s);
    } else {
      forall list | Tiling(base, end, list) ensures !Linked(FreedHeaders(h, s), list) {
        if PrevFree(h, s) && InList(nodes, h[s].prev) {
          var k :| 0 <= k < |nodes| && nodes[k].addr == h[s].prev;
          PrevBreaks(base, end, h, nodes, s, list, k);
        } else {
          var m :| 0 <= m < |nodes| && nodes[m].addr == Behind(h, s);
          BehindBreaks(base, end, h, nodes, s, list, m);
        }
      }
    }
  }

  /** Four blocks freed in the order third, second, first, fourth: the third header takes in the
      fourth and is taken in by the second, all of them swallowed, and the list does not notice. */
  lemma FreeNextCanBeHarmless()
    ensures var h: Headers := map[4096 := Header(4056, false, 0, 0), 4152 := Header(72, false, 4264, 4096),
                                  4208 := Header(16, false, 4264, 4152), 4264 := Header(3888, false, 0, 4096)];
            var nodes := [Node(4096, 4056, false)];
            && StateInv(4096, 8192, h, nodes) && Intact(h, 4208) && !InList(nodes, 4208)
            && NextFree(h, 4208) && PrevFree(h, 4208) && Harmless(h, nodes, 4208)
  {
    var h: Headers := map[4096 := Header(4056, false, 0, 0), 4152 := Header(72, false, 4264, 4096),
                          4208 := Header(16, false, 4264, 4152), 4264 := Header(3888, false, 0, 4096)];
    var nodes := [Node(4096, 4056, false)];
    assert LinkOk(h, nodes, 0);
    assert nodes[0].addr == 4096 && InList(nodes, 4096);
    forall a | a in h && a != 4096 ensures Under(h, nodes, a) {
      assert Covers(nodes[0], a, a + 40 + h[a].size);
    }
  }

  /** With no free neighbour at all nothing changes. */
  lemma QuietChangesNothing(base: nat, end: nat, h: Headers, nodes: seq<Node>, s: nat)
    requires StateInv(base, end, h, nodes) && Intact(h, s) && !InList(nodes, s) && !NextFree(h, s) && !PrevFree(h, s)
    ensures FreedHeaders(h, s) == h
  {
    assert h[s := h[s].(used := false)] == h;
  }
}
