/**
 * The headers as bytes in memory: magic, size, used and pages of four bytes each, then
 * base_virt, next and prev of eight, little-endian.  As long as headers do not overlap, what
 * the calls do to the bytes is what they do to the map of headers.
 */
module KmallocBytes {
  import opened Common
  import opened Kmalloc
  import opened KmallocHeaders
  import opened KmallocRuns

  type Memory = nat -> Byte

  const MAGIC: nat := 0x48414E44

  // ---------------------------------------------------------------------------------
  // Little-endian numbers
  // ---------------------------------------------------------------------------------

  /** One more than the largest number of `n` bytes. */
  function Bound(n: nat): nat {
    if n == 0 then 1 else 256 * Bound(n - 1)
  }

  function Digit(v: nat, i: nat): Byte {
    if i == 0 then v % 256 else Digit(v / 256, i - 1)
  }

  /** The number in the bytes from `a` to `b`. */
  function Read(m: Memory, a: nat, b: nat): nat
    decreases b - a
  {
    if b <= a then 0 else m(a) + 256 * Read(m, a + 1, b)
  }

  function Put(m: Memory, a: nat, b: nat, v: nat): Memory {
    (x: nat) => if a <= x < b then Digit(v, x - a) else m(x)
  }

  lemma {:induction false} ReadDigits(m: Memory, a: nat, b: nat, v: nat)
    requires a <= b && v < Bound(b - a) && forall x: nat | a <= x < b :: m(x) == Digit(v, x - a)
    ensures Read(m, a, b) == v
    decreases b - a
  {
    if a < b {
      assert m(a) == Digit(v, 0);
      forall x: nat | a + 1 <= x < b ensures m(x) == Digit(v / 256, x - a - 1) {
        assert m(x) == Digit(v, x - a);
      }
      ReadDigits(m, a + 1, b, v / 256);
    }
  }

  /** A number reads back where it was put. */
  lemma ReadPut(m: Memory, a: nat, b: nat, v: nat)
    requires a <= b && v < Bound(b - a)
    ensures Read(Put(m, a, b, v), a, b) == v
  {
    ReadDigits(Put(m, a, b, v), a, b, v);
  }

  /** The bytes outside `lo` to `hi` are the same. */
  ghost predicate SameOutside(m: Memory, t: Memory, lo: nat, hi: nat) {
    forall x: nat | x < lo || hi <= x :: t(x) == m(x)
  }

  lemma {:induction false} ReadSame(m: Memory, t: Memory, lo: nat, hi: nat, a: nat, b: nat)
    requires SameOutside(m, t, lo, hi) && (b <= lo || hi <= a)
    ensures Read(t, a, b) == Read(m, a, b)
    decreases b - a
  {
    if a < b {
      ReadSame(m, t, lo, hi, a + 1, b);
    }
  }

  lemma Bounds()
    ensures Bound(4) == 0x1_0000_0000 && Bound(8) == 0x1_0000_0000_0000_0000
  {
    assert Bound(1) == 256 && Bound(2) == 65536 && Bound(3) == 0x100_0000;
    assert Bound(5) == 0x100_0000_0000 && Bound(6) == 0x1_0000_0000_0000 && Bound(7) == 0x100_0000_0000_0000;
  }

  // ---------------------------------------------------------------------------------
  // Headers
  // ---------------------------------------------------------------------------------

  function Magic(m: Memory, a: nat): nat { Read(m, a, a + 4) }

  function HeaderAt(m: Memory, a: nat): Header {
    Header(Read(m, a + 4, a + 8), Read(m, a + 8, a + 12) != 0, Read(m, a + 24, a + 32), Read(m, a + 32, a + 40))
  }

  ghost function Le32(m: Memory, a: nat): nat {
    m(a) as int + 0x100 * m(a + 1) as int + 0x1_0000 * m(a + 2) as int + 0x100_0000 * m(a + 3) as int
  }

  ghost function Le64(m: Memory, a: nat): nat {
    Le32(m, a) + 0x1_0000_0000 * Le32(m, a + 4)
  }

  lemma ReadFour(m: Memory, a: nat)
    ensures Read(m, a, a + 4) == Le32(m, a)
  {
    var b := a + 4;
    assert Read(m, b, b) == 0;
    assert Read(m, a + 2, b) == m(a + 2) + 256 * (m(a + 3) + 256 * Read(m, b, b));
  }

  lemma {:induction false} ReadCat(m: Memory, a: nat, b: nat, c: nat)
    requires a <= b <= c
    ensures Read(m, a, c) == Read(m, a, b) + Bound(b - a) * Read(m, b, c)
    decreases b - a
  {
    if a < b {
      ReadCat(m, a + 1, b, c);
      assert 256 * (Bound(b - a - 1) * Read(m, b, c)) == Bound(b - a) * Read(m, b, c);
    }
  }

  lemma ReadEight(m: Memory, a: nat)
    ensures Read(m, a, a + 8) == Le64(m, a)
  {
    ReadCat(m, a, a + 4, a + 8);
    ReadFour(m, a);
    ReadFour(m, a + 4);
    Bounds();
  }

  /** Where the fields of a header lie, and that their bytes are little-endian. */
  lemma HeaderLayout(m: Memory, a: nat)
    ensures Magic(m, a) == Le32(m, a)
    ensures HeaderAt(m, a) == Header(Le32(m, a + 4), Le32(m, a + 8) != 0, Le64(m, a + 24), Le64(m, a + 32))
  {
    ReadFour(m, a);
    ReadFour(m, a + 4);
    ReadFour(m, a + 8);
    ReadEight(m, a + 24);
    ReadEight(m, a + 32);
  }

  /** The memory holds the headers `h`. */
  ghost predicate Stores(m: Memory, h: Headers) {
    forall a {:trigger HeaderAt(m, a)} :: a in h ==> Magic(m, a) == MAGIC && HeaderAt(m, a) == h[a]
  }

  function SetSize(m: Memory, a: nat, v: nat): Memory { Put(m, a + 4, a + 8, v) }
  function SetUsed(m: Memory, a: nat, v: bool): Memory { Put(m, a + 8, a + 12, if v then 1 else 0) }
  function SetNext(m: Memory, a: nat, v: nat): Memory { Put(m, a + 24, a + 32, v) }
  function SetPrev(m: Memory, a: nat, v: nat): Memory { Put(m, a + 32, a + 40, v) }

  /** Bytes outside a header leave it as it is. */
  lemma HeaderSame(m: Memory, t: Memory, lo: nat, hi: nat, a: nat)
    requires SameOutside(m, t, lo, hi) && (a + 40 <= lo || hi <= a)
    ensures HeaderAt(t, a) == HeaderAt(m, a) && Magic(t, a) == Magic(m, a)
  {
    ReadSame(m, t, lo, hi, a, a + 4);
    ReadSame(m, t, lo, hi, a + 4, a + 8);
    ReadSame(m, t, lo, hi, a + 8, a + 12);
    ReadSame(m, t, lo, hi, a + 24, a + 32);
    ReadSame(m, t, lo, hi, a + 32, a + 40);
  }

  /** A change of the header at `a` alone. */
  lemma Stored(m: Memory, t: Memory, h: Headers, a: nat, n: Header)
    requires Stores(m, h) && Spaced(h) && a in h && SameOutside(m, t, a, a + 40)
    requires HeaderAt(t, a) == n && Magic(t, a) == MAGIC
    ensures Stores(t, h[a := n])
  {
    forall b | b in h && b != a ensures Magic(t, b) == MAGIC && HeaderAt(t, b) == h[b] {
      assert Gap(a, b) && HeaderAt(m, b) == h[b];
      HeaderSame(m, t, a, a + 40, b);
    }
  }

  lemma PutOutside(m: Memory, a: nat, b: nat, v: nat)
    ensures SameOutside(m, Put(m, a, b, v), a, b)
  {
  }

  lemma SizeAt(m: Memory, a: nat, v: nat)
    requires v < 0x1_0000_0000
    ensures HeaderAt(SetSize(m, a, v), a) == HeaderAt(m, a).(size := v) && Magic(SetSize(m, a, v), a) == Magic(m, a)
  {
    var t := SetSize(m, a, v);
    PutOutside(m, a + 4, a + 8, v);
    Bounds();
    ReadPut(m, a + 4, a + 8, v);
    ReadSame(m, t, a + 4, a + 8, a, a + 4);
    ReadSame(m, t, a + 4, a + 8, a + 8, a + 12);
    ReadSame(m, t, a + 4, a + 8, a + 24, a + 32);
    ReadSame(m, t, a + 4, a + 8, a + 32, a + 40);
  }

  lemma UsedAt(m: Memory, a: nat, v: bool)
    ensures HeaderAt(SetUsed(m, a, v), a) == HeaderAt(m, a).(used := v) && Magic(SetUsed(m, a, v), a) == Magic(m, a)
  {
    var t := SetUsed(m, a, v);
    PutOutside(m, a + 8, a + 12, if v then 1 else 0);
    Bounds();
    ReadPut(m, a + 8, a + 12, if v then 1 else 0);
    ReadSame(m, t, a + 8, a + 12, a, a + 4);
    ReadSame(m, t, a + 8, a + 12, a + 4, a + 8);
    ReadSame(m, t, a + 8, a + 12, a + 24, a + 32);
    ReadSame(m, t, a + 8, a + 12, a + 32, a + 40);
  }

  lemma NextAt(m: Memory, a: nat, v: nat)
    requires v < 0x1_0000_0000_0000_0000
    ensures HeaderAt(SetNext(m, a, v), a) == HeaderAt(m, a).(next := v) && Magic(SetNext(m, a, v), a) == Magic(m, a)
  {
    var t := SetNext(m, a, v);
    PutOutside(m, a + 24, a + 32, v);
    Bounds();
    ReadPut(m, a + 24, a + 32, v);
    ReadSame(m, t, a + 24, a + 32, a, a + 4);
    ReadSame(m, t, a + 24, a + 32, a + 4, a + 8);
    ReadSame(m, t, a + 24, a + 32, a + 8, a + 12);
    ReadSame(m, t, a + 24, a + 32, a + 32, a + 40);
  }

  lemma PrevAt(m: Memory, a: nat, v: nat)
    requires v < 0x1_0000_0000_0000_0000
    ensures HeaderAt(SetPrev(m, a, v), a) == HeaderAt(m, a).(prev := v) && Magic(SetPrev(m, a, v), a) == Magic(m, a)
  {
    var t := SetPrev(m, a, v);
    PutOutside(m, a + 32, a + 40, v);
    Bounds();
    ReadPut(m, a + 32, a + 40, v);
    ReadSame(m, t, a + 32, a + 40, a, a + 4);
    ReadSame(m, t, a + 32, a + 40, a + 4, a + 8);
    ReadSame(m, t, a + 32, a + 40, a + 8, a + 12);
    ReadSame(m, t, a + 32, a + 40, a + 24, a + 32);
  }

  lemma SizeStored(m: Memory, h: Headers, a: nat, v: nat)
    requires Stores(m, h) && Spaced(h) && a in h && v < 0x1_0000_0000
    ensures Stores(SetSize(m, a, v), h[a := h[a].(size := v)])
  {
    assert HeaderAt(m, a) == h[a];
    SizeAt(m, a, v);
    PutOutside(m, a + 4, a + 8, v);
    Stored(m, SetSize(m, a, v), h, a, h[a].(size := v));
  }

  lemma UsedStored(m: Memory, h: Headers, a: nat, v: bool)
    requires Stores(m, h) && Spaced(h) && a in h
    ensures Stores(SetUsed(m, a, v), h[a := h[a].(used := v)])
  {
    assert HeaderAt(m, a) == h[a];
    UsedAt(m, a, v);
    PutOutside(m, a + 8, a + 12, if v then 1 else 0);
    Stored(m, SetUsed(m, a, v), h, a, h[a].(used := v));
  }

  lemma NextStored(m: Memory, h: Headers, a: nat, v: nat)
    requires Stores(m, h) && Spaced(h) && a in h && v < 0x1_0000_0000_0000_0000
    ensures Stores(SetNext(m, a, v), h[a := h[a].(next := v)])
  {
    assert HeaderAt(m, a) == h[a];
    NextAt(m, a, v);
    PutOutside(m, a + 24, a + 32, v);
    Stored(m, SetNext(m, a, v), h, a, h[a].(next := v));
  }

  lemma PrevStored(m: Memory, h: Headers, a: nat, v: nat)
    requires Stores(m, h) && Spaced(h) && a in h && v < 0x1_0000_0000_0000_0000
    ensures Stores(SetPrev(m, a, v), h[a := h[a].(prev := v)])
  {
    assert HeaderAt(m, a) == h[a];
    PrevAt(m, a, v);
    PutOutside(m, a + 32, a + 40, v);
    Stored(m, SetPrev(m, a, v), h, a, h[a].(prev := v));
  }

  // ---------------------------------------------------------------------------------
  // Freeing
  // ---------------------------------------------------------------------------------

  /** The block at `a` grows by the block at `b` and gets its successor. */
  function TakenIn(m: Memory, a: nat, b: nat): Memory {
    var m1 := SetSize(m, a, Low32(HeaderAt(m, a).size + 40 + HeaderAt(m, b).size));
    SetNext(m1, a, HeaderAt(m1, b).next)
  }

  /** The first join of a free. */
  function NextJoined(m: Memory, s: nat): Memory {
    var n := HeaderAt(m, s).next;
    if n != 0 && !HeaderAt(m, n).used then
      var m2 := TakenIn(m, s, n);
      var x := HeaderAt(m2, s).next;
      if x != 0 then SetPrev(m2, x, s) else m2
    else
      m
  }

  /** The second join of a free. */
  function PrevJoined(m: Memory, s: nat): Memory {
    var p := HeaderAt(m, s).prev;
    if p != 0 && !HeaderAt(m, p).used then
      var m2 := TakenIn(m, p, s);
      var x := HeaderAt(m2, s).next;
      if x != 0 then SetPrev(m2, x, HeaderAt(m2, s).prev) else m2
    else
      m
  }

  /** What a free of the block with header `s` does to the memory. */
  function FreedMemory(m: Memory, s: nat): Memory {
    if Magic(m, s) != MAGIC then m else PrevJoined(NextJoined(SetUsed(m, s, false), s), s)
  }

  /** The numbers of a region fit their fields. */
  predicate Small(base: nat, end: nat) {
    0 < base < end < 0x1_0000_0000_0000_0000 && end - base < 0x4000_0000
  }

  lemma KeysSpaced(h: Headers, t: Headers)
    requires Spaced(h) && t.Keys == h.Keys
    ensures Spaced(t)
  {
    forall a, b | a in t && b in t && a != b ensures Gap(a, b) {
      assert a in h && b in h;
    }
  }

  lemma TakenInStores(m: Memory, h: Headers, a: nat, b: nat)
    requires Stores(m, h) && Spaced(h) && a in h && b in h && a != b
    requires h[a].size + 40 + h[b].size < 0x1_0000_0000 && h[b].next < 0x1_0000_0000_0000_0000
    ensures Stores(TakenIn(m, a, b), h[a := h[a].(size := h[a].size + 40 + h[b].size, next := h[b].next)])
  {
    var size := h[a].size + 40 + h[b].size;
    assert HeaderAt(m, a) == h[a] && HeaderAt(m, b) == h[b];
    var m1, h1 := SetSize(m, a, size), h[a := h[a].(size := size)];
    SizeStored(m, h, a, size);
    KeysSpaced(h, h1);
    assert HeaderAt(m1, b) == h1[b];
    NextStored(m1, h1, a, h[b].next);
    assert h1[a := h1[a].(next := h[b].next)] == h[a := h[a].(size := size, next := h[b].next)];
  }

  lemma NextJoinedStores(m: Memory, base: nat, end: nat, h: Headers, s: nat)
    requires Small(base, end) && Stores(m, h) && Spaced(h) && HeadersOk(h, base, end) && s in h
    ensures Stores(NextJoined(m, s), MergedNext(h, s))
  {
    assert HeaderAt(m, s) == h[s] && HeaderOk(h, base, end, s);
    var n := h[s].next;
    if n != 0 {
      assert HeaderOk(h, base, end, n);
      TakesInNext(m, h, s, n);
    }
  }

  lemma TakesInNext(m: Memory, h: Headers, s: nat, n: nat)
    requires Stores(m, h) && Spaced(h) && s in h && n in h && h[s].next == n && n != s && n != 0
    requires h[s].size + 40 + h[n].size < 0x1_0000_0000 && s < 0x1_0000_0000_0000_0000
    requires h[n].next < 0x1_0000_0000_0000_0000 && (h[n].next != 0 ==> h[n].next in h)
    ensures Stores(NextJoined(m, s), MergedNext(h, s))
  {
    assert HeaderAt(m, s) == h[s] && HeaderAt(m, n) == h[n];
    if !h[n].used {
      var x, m2 := h[n].next, TakenIn(m, s, n);
      TakenInStores(m, h, s, n);
      var h2 := h[s := h[s].(size := h[s].size + 40 + h[n].size, next := x)];
      BackLink(m2, h, h2, s, x, s);
      assert NextJoined(m, s) == if x != 0 then SetPrev(m2, x, s) else m2;
      assert MergedNext(h, s) == if x != 0 then h2[x := h2[x].(prev := s)] else h2;
    }
  }

  /** The last write of a join. */
  lemma BackLink(m: Memory, h: Headers, h2: Headers, s: nat, x: nat, v: nat)
    requires Stores(m, h2) && Spaced(h) && h2.Keys == h.Keys && s in h2 && h2[s].next == x && v < 0x1_0000_0000_0000_0000
    requires x != 0 ==> x in h
    ensures HeaderAt(m, s).next == x
    ensures x != 0 ==> Stores(SetPrev(m, x, v), h2[x := h2[x].(prev := v)])
  {
    assert HeaderAt(m, s) == h2[s];
    KeysSpaced(h, h2);
    if x != 0 {
      PrevStored(m, h2, x, v);
    }
  }

  lemma PrevJoinedStores(m: Memory, base: nat, end: nat, h: Headers, s: nat)
    requires Small(base, end) && Stores(m, h) && Spaced(h) && HeadersOk(h, base, end) && Intact(h, s)
    ensures Stores(PrevJoined(m, s), MergedPrev(h, s))
  {
    assert HeaderAt(m, s) == h[s] && HeaderOk(h, base, end, s);
    var p := h[s].prev;
    if p != 0 {
      assert HeaderOk(h, base, end, p);
      PrevTakesIn(m, h, s, p);
    }
  }

  lemma PrevTakesIn(m: Memory, h: Headers, s: nat, p: nat)
    requires Stores(m, h) && Spaced(h) && s in h && p in h && h[s].prev == p && p != s && p != 0
    requires h[p].size + 40 + h[s].size < 0x1_0000_0000 && p < 0x1_0000_0000_0000_0000
    requires h[s].next < 0x1_0000_0000_0000_0000 && (h[s].next != 0 ==> h[s].next in h)
    ensures Stores(PrevJoined(m, s), MergedPrev(h, s))
  {
    assert HeaderAt(m, s) == h[s] && HeaderAt(m, p) == h[p];
    if !h[p].used {
      var x, m2 := h[s].next, TakenIn(m, p, s);
      TakenInStores(m, h, p, s);
      var h2 := h[p := h[p].(size := h[p].size + 40 + h[s].size, next := x)];
      assert HeaderAt(m2, s) == h2[s];
      BackLink(m2, h, h2, s, x, p);
      assert PrevJoined(m, s) == if x != 0 then SetPrev(m2, x, p) else m2;
      assert MergedPrev(h, s) == if x != 0 then h2[x := h2[x].(prev := p)] else h2;
    }
  }

  /** Freeing an intact header, of the list or swallowed, does to the bytes what it does to the
      map of headers. */
  lemma FreedStores(m: Memory, base: nat, end: nat, h: Headers, s: nat)
    requires Small(base, end) && Stores(m, h) && Spaced(h) && HeadersOk(h, base, end) && Intact(h, s)
    ensures Stores(FreedMemory(m, s), FreedHeaders(h, s))
  {
    assert HeaderAt(m, s) == h[s];
    var m0, h0 := SetUsed(m, s, false), h[s := h[s].(used := false)];
    UsedStored(m, h, s, false);
    KeysSpaced(h, h0);
    UnflaggedOk(base, end, h, s);
    NextJoinedStores(m0, base, end, h0, s);
    var h1 := MergedNext(h0, s);
    KeysSpaced(h, h1);
    MergedNextOk(base, end, h0, s);
    NextKeepsPrev(base, end, h0, s);
    PrevJoinedStores(NextJoined(m0, s), base, end, h1, s);
  }

  // ---------------------------------------------------------------------------------
  // Allocating
  // ---------------------------------------------------------------------------------

  /** A new header at `r`, field by field. */
  function Written(m: Memory, r: nat, n: Header, pages: nat, virt: nat): Memory {
    var m1 := SetUsed(SetSize(Put(m, r, r + 4, MAGIC), r, n.size), r, n.used);
    var m2 := Put(Put(m1, r + 12, r + 16, pages), r + 16, r + 24, virt);
    SetPrev(SetNext(m2, r, n.next), r, n.prev)
  }

  lemma WrittenAt(m: Memory, r: nat, n: Header, pages: nat, virt: nat)
    requires n.size < 0x1_0000_0000 && n.next < 0x1_0000_0000_0000_0000 && n.prev < 0x1_0000_0000_0000_0000
    ensures HeaderAt(Written(m, r, n, pages, virt), r) == n && Magic(Written(m, r, n, pages, virt), r) == MAGIC
    ensures SameOutside(m, Written(m, r, n, pages, virt), r, r + 40)
  {
    var m0 := Put(m, r, r + 4, MAGIC);
    Bounds();
    ReadPut(m, r, r + 4, MAGIC);
    SizeAt(m0, r, n.size);
    var m1 := SetSize(m0, r, n.size);
    UsedAt(m1, r, n.used);
    var m2 := SetUsed(m1, r, n.used);
    var m3 := Put(m2, r + 12, r + 16, pages);
    var m4 := Put(m3, r + 16, r + 24, virt);
    MiddleSame(m2, m4, r);
    NextAt(m4, r, n.next);
    PrevAt(SetNext(m4, r, n.next), r, n.prev);
  }

  /** What a new header holds besides its value: the magic number, the page count and the
      address of the region. */
  lemma WrittenRest(m: Memory, r: nat, n: Header, pages: nat, virt: nat)
    requires n.size < 0x1_0000_0000 && n.next < 0x1_0000_0000_0000_0000 && n.prev < 0x1_0000_0000_0000_0000
    requires pages < 0x1_0000_0000 && virt < 0x1_0000_0000_0000_0000
    ensures var t := Written(m, r, n, pages, virt);
            Le32(t, r) == 0x48414E44 && Le32(t, r + 12) == pages && Le64(t, r + 16) == virt
  {
    WrittenAt(m, r, n, pages, virt);
    ReadFour(Written(m, r, n, pages, virt), r);
    MiddleAt(SetUsed(SetSize(Put(m, r, r + 4, MAGIC), r, n.size), r, n.used), r, pages, virt, n.next, n.prev);
  }

  lemma MiddleAt(m: Memory, r: nat, pages: nat, virt: nat, next: nat, prev: nat)
    ensures var t := SetPrev(SetNext(Put(Put(m, r + 12, r + 16, pages), r + 16, r + 24, virt), r, next), r, prev);
            && (pages < 0x1_0000_0000 ==> Le32(t, r + 12) == pages)
            && (virt < 0x1_0000_0000_0000_0000 ==> Le64(t, r + 16) == virt)
  {
    var m1 := Put(m, r + 12, r + 16, pages);
    var m2 := Put(m1, r + 16, r + 24, virt);
    var t := SetPrev(SetNext(m2, r, next), r, prev);
    Bounds();
    ReadFour(t, r + 12);
    ReadEight(t, r + 16);
    ReadSame(m1, t, r + 16, r + 40, r + 12, r + 16);
    ReadSame(m2, t, r + 24, r + 40, r + 16, r + 24);
    if pages < 0x1_0000_0000 {
      ReadPut(m, r + 12, r + 16, pages);
    }
    if virt < 0x1_0000_0000_0000_0000 {
      ReadPut(m1, r + 16, r + 24, virt);
    }
  }

  /** The two fields in the middle are not among those of a header's value. */
  lemma MiddleSame(m: Memory, t: Memory, r: nat)
    requires SameOutside(m, t, r + 12, r + 24)
    ensures HeaderAt(t, r) == HeaderAt(m, r) && Magic(t, r) == Magic(m, r)
  {
    ReadSame(m, t, r + 12, r + 24, r, r + 4);
    ReadSame(m, t, r + 12, r + 24, r + 4, r + 8);
    ReadSame(m, t, r + 12, r + 24, r + 8, r + 12);
    ReadSame(m, t, r + 12, r + 24, r + 24, r + 32);
    ReadSame(m, t, r + 12, r + 24, r + 32, r + 40);
  }

  /** The block at `block` split: the rest gets a header and is linked in. */
  function SplitMemory(m: Memory, block: nat, size: nat): Memory {
    var b, rest := HeaderAt(m, block), block + 40 + size;
    var left := if b.size >= size + 40 then b.size - size - 40 else 0;
    var m1 := Written(m, rest, Header(left, false, b.next, block),
                      Read(m, block + 12, block + 16), Read(m, block + 16, block + 24));
    var m2 := if b.next != 0 then SetPrev(m1, b.next, rest) else m1;
    SetSize(SetNext(m2, block, rest), block, size)
  }

  /** What handing out the block at `block` does to the memory. */
  function TookMemory(m: Memory, block: nat, size: nat): Memory {
    SetUsed(if HeaderAt(m, block).size >= size + 56 then SplitMemory(m, block, size) else m, block, true)
  }

  lemma SparedStores(m: Memory, h: Headers, lo: nat, hi: nat)
    requires Stores(m, h) && Spaced(h)
    ensures Stores(m, Spared(h, lo, hi)) && Spaced(Spared(h, lo, hi))
  {
    var k := Spared(h, lo, hi);
    forall a | a in k ensures Magic(m, a) == MAGIC && HeaderAt(m, a) == k[a] {
      assert a in h && HeaderAt(m, a) == h[a];
    }
    forall a, b | a in k && b in k && a != b ensures Gap(a, b) {
      assert a in h && b in h;
    }
  }

  /** A header written apart from all others joins them. */
  lemma AddStored(m: Memory, t: Memory, h: Headers, r: nat, n: Header)
    requires Stores(m, h) && Spaced(h) && SameOutside(m, t, r, r + 40) && HeaderAt(t, r) == n && Magic(t, r) == MAGIC
    requires forall a :: a in h ==> Gap(a, r)
    ensures Stores(t, h[r := n]) && Spaced(h[r := n])
  {
    forall b | b in h && b != r ensures Magic(t, b) == MAGIC && HeaderAt(t, b) == h[b] {
      assert Gap(b, r) && HeaderAt(m, b) == h[b];
      HeaderSame(m, t, r, r + 40, b);
    }
    forall a, b | a in h[r := n] && b in h[r := n] && a != b ensures Gap(a, b) {
      assert a in h ==> Gap(a, r);
      assert b in h ==> Gap(b, r);
    }
  }

  /** The split of a block among headers that keep clear of it. */
  lemma SplitStores(m: Memory, h: Headers, block: nat, size: nat)
    requires Stores(m, h) && Spaced(h) && block in h && h[block].size >= size + 56
    requires forall a :: a in h ==> Gap(a, block + 40 + size)
    requires h[block].size < 0x1_0000_0000 && block + 40 + size < 0x1_0000_0000_0000_0000
    requires h[block].next < 0x1_0000_0000_0000_0000 && (h[block].next != 0 ==> h[block].next in h && h[block].next != block)
    ensures Stores(SplitMemory(m, block, size), SplitHeaders(h, block, size))
  {
    var rest, next := block + 40 + size, h[block].next;
    assert HeaderAt(m, block) == h[block];
    var n := Header(h[block].size - size - 40, false, next, block);
    var pages, virt := Read(m, block + 12, block + 16), Read(m, block + 16, block + 24);
    var m1, h1 := Written(m, rest, n, pages, virt), h[rest := n];
    WrittenAt(m, rest, n, pages, virt);
    AddStored(m, m1, h, rest, n);
    var m2, h2 := if next != 0 then SetPrev(m1, next, rest) else m1, if next != 0 then h1[next := h1[next].(prev := rest)] else h1;
    if next != 0 {
      PrevStored(m1, h1, next, rest);
    }
    KeysSpaced(h1, h2);
    LinkStored(m2, h2, block, rest, size);
  }

  lemma LinkStored(m: Memory, h: Headers, a: nat, next: nat, size: nat)
    requires Stores(m, h) && Spaced(h) && a in h && next < 0x1_0000_0000_0000_0000 && size < 0x1_0000_0000
    ensures Stores(SetSize(SetNext(m, a, next), a, size), h[a := h[a].(next := next, size := size)])
  {
    var h1 := h[a := h[a].(next := next)];
    NextStored(m, h, a, next);
    KeysSpaced(h, h1);
    SizeStored(SetNext(m, a, next), h1, a, size);
    assert h1[a := h1[a].(size := size)] == h[a := h[a].(next := next, size := size)];
  }

  /** Block `k` among the headers that its handing out spares. */
  lemma TookRoom(base: nat, end: nat, h: Headers, nodes: seq<Node>, k: nat, size: nat)
    requires StateInv(base, end, h, nodes) && k < |nodes| && Fits(nodes[k], size) && nodes[k].addr in h
    ensures var block := nodes[k].addr;
            var kept := Spared(h, block + 40, Reach(h, block, size));
            && block in kept && kept[block] == h[block] && block + 40 + h[block].size <= end && base <= block
            && (h[block].next != 0 ==> h[block].next in kept && block < h[block].next <= end)
            && (h[block].size >= size + 56 ==> forall a :: a in kept ==> Gap(a, block + 40 + size))
  {
    var block := nodes[k].addr;
    assert HeaderOk(h, base, end, block);
    if h[block].next != 0 {
      NextSpared(base, end, h, nodes, k, size, block);
    }
  }

  lemma TookStores(m: Memory, base: nat, end: nat, h: Headers, nodes: seq<Node>, k: nat, size: nat)
    requires Small(base, end) && StateInv(base, end, h, nodes) && Stores(m, h)
    requires k < |nodes| && Fits(nodes[k], size) && nodes[k].addr in h
    ensures Stores(TookMemory(m, nodes[k].addr, size), TookHeaders(h, nodes[k].addr, size))
  {
    var block := nodes[k].addr;
    TookRoom(base, end, h, nodes, k, size);
    SparedStores(m, h, block + 40, Reach(h, block, size));
    KeptStores(m, Spared(h, block + 40, Reach(h, block, size)), block, size);
  }

  lemma KeptStores(m: Memory, kept: Headers, block: nat, size: nat)
    requires Stores(m, kept) && Spaced(kept) && block in kept
    requires kept[block].size < 0x1_0000_0000 && block + 40 + kept[block].size < 0x1_0000_0000_0000_0000
    requires kept[block].next < 0x1_0000_0000_0000_0000
    requires kept[block].next != 0 ==> kept[block].next in kept && kept[block].next != block
    requires kept[block].size >= size + 56 ==> forall a :: a in kept ==> Gap(a, block + 40 + size)
    ensures var split := if kept[block].size >= size + 56 then SplitHeaders(kept, block, size) else kept;
            Stores(TookMemory(m, block, size), split[block := split[block].(used := true)])
  {
    assert HeaderAt(m, block) == kept[block];
    if kept[block].size >= size + 56 {
      SplitStores(m, kept, block, size);
      SplitSpaced(kept, block, size);
      UsedStored(SplitMemory(m, block, size), SplitHeaders(kept, block, size), block, true);
    } else {
      UsedStored(m, kept, block, true);
    }
  }

  lemma SplitSpaced(h: Headers, block: nat, size: nat)
    requires Spaced(h) && block in h && h[block].size >= size + 56
    requires forall a :: a in h ==> Gap(a, block + 40 + size)
    ensures Spaced(SplitHeaders(h, block, size))
  {
    var t := SplitHeaders(h, block, size);
    forall a, b | a in t && b in t && a != b ensures Gap(a, b) {
      assert a in h ==> Gap(a, block + 40 + size);
      assert b in h ==> Gap(b, block + 40 + size);
    }
  }

  // ---------------------------------------------------------------------------------
  // Writing to live blocks
  // ---------------------------------------------------------------------------------

  /** No header lies in the payload of a live block. */
  lemma PayloadClear(base: nat, end: nat, h: Headers, nodes: seq<Node>, i: nat, a: nat)
    requires StateInv(base, end, h, nodes) && i < |nodes| && nodes[i].used && a in h
    ensures a + 40 <= Payload(nodes[i]) || End(nodes[i]) <= a
  {
    if InList(nodes, a) {
      var j :| 0 <= j < |nodes| && nodes[j].addr == a;
      if j < i {
        InOrder(base, end, nodes, j, i);
      } else if i < j {
        InOrder(base, end, nodes, i, j);
      }
    } else {
      assert Under(h, nodes, a);
      var j :| 0 <= j < |nodes| && Covers(nodes[j], a, a + 40 + h[a].size);
      if j < i {
        InOrder(base, end, nodes, j, i);
      } else {
        InOrder(base, end, nodes, i, j);
      }
    }
  }

  /** Writes to the payload of a live block change no header. */
  lemma ScribbleStores(m: Memory, t: Memory, base: nat, end: nat, h: Headers, nodes: seq<Node>, i: nat)
    requires StateInv(base, end, h, nodes) && Stores(m, h) && i < |nodes| && nodes[i].used
    requires SameOutside(m, t, Payload(nodes[i]), End(nodes[i]))
    ensures Stores(t, h)
  {
    forall a | a in h ensures Magic(t, a) == MAGIC && HeaderAt(t, a) == h[a] {
      assert HeaderAt(m, a) == h[a];
      PayloadClear(base, end, h, nodes, i, a);
      HeaderSame(m, t, Payload(nodes[i]), End(nodes[i]), a);
    }
  }

  // ---------------------------------------------------------------------------------
  // Runs
  // ---------------------------------------------------------------------------------

  /** A call, or a caller's writes to a live block: there the bytes become those of `bytes`. */
  datatype Step = Call(op: Op) | Scribble(n: Node, bytes: Memory)

  function Scribbled(m: Memory, n: Node, bytes: Memory): Memory {
    (x: nat) => if Payload(n) <= x < End(n) then bytes(x) else m(x)
  }

  ghost predicate StepLegal(m: Memory, s: State, step: Step) {
    match step
    case Call(Malloc(_)) => true
    case Call(Free(ptr)) =>
      ptr == 0 || (40 <= ptr && (Magic(m, ptr - 40) != MAGIC || (ptr - 40 in s.headers && Legal(s, Free(ptr)))))
    case Scribble(n, _) => n in Used(s.nodes)
  }

  function MemoryAfter(m: Memory, s: State, step: Step): Memory {
    match step
    case Call(Malloc(size)) =>
      if Served(s.nodes, size) then TookMemory(m, s.nodes[FirstFit(s.nodes, size, 0)].addr, size) else m
    case Call(Free(ptr)) => if ptr < 40 then m else FreedMemory(m, ptr - 40)
    case Scribble(n, bytes) => Scribbled(m, n, bytes)
  }

  function StateAfter(s: State, step: Step): State {
    if step.Call? then After(s, step.op) else s
  }

  ghost predicate StepsLegal(m: Memory, s: State, steps: seq<Step>)
    decreases |steps|
  {
    steps == [] ||
    (StepLegal(m, s, steps[0]) && StepsLegal(MemoryAfter(m, s, steps[0]), StateAfter(s, steps[0]), steps[1..]))
  }

  ghost function MemoryRun(m: Memory, s: State, steps: seq<Step>): Memory
    decreases |steps|
  {
    if steps == [] then m else MemoryRun(MemoryAfter(m, s, steps[0]), StateAfter(s, steps[0]), steps[1..])
  }

  ghost function StateRun(s: State, steps: seq<Step>): State
    decreases |steps|
  {
    if steps == [] then s else StateRun(StateAfter(s, steps[0]), steps[1..])
  }

  lemma MallocStores(m: Memory, base: nat, end: nat, s: State, size: nat)
    requires Small(base, end) && StateInv(base, end, s.headers, s.nodes) && Stores(m, s.headers)
    ensures Stores(MemoryAfter(m, s, Call(Malloc(size))), After(s, Malloc(size)).headers)
  {
    if Served(s.nodes, size) {
      var k := FirstFit(s.nodes, size, 0);
      assert LinkOk(s.headers, s.nodes, k);
      TookStores(m, base, end, s.headers, s.nodes, k, size);
    }
  }

  lemma NoMagic(m: Memory, s: nat)
    requires Magic(m, s) != MAGIC
    ensures FreedMemory(m, s) == m
  {
  }

  lemma FreeStores(m: Memory, base: nat, end: nat, h: Headers, s: nat)
    requires Small(base, end) && Spaced(h) && HeadersOk(h, base, end) && Stores(m, h)
    requires Magic(m, s) != MAGIC || Intact(h, s)
    ensures s in h ==> Intact(h, s)
    ensures Stores(FreedMemory(m, s), if s in h then FreedHeaders(h, s) else h)
  {
    assert s in h ==> HeaderAt(m, s) == h[s];
    if Magic(m, s) != MAGIC {
      NoMagic(m, s);
    } else {
      FreedStores(m, base, end, h, s);
    }
  }

  lemma StepStores(m: Memory, base: nat, end: nat, s: State, step: Step)
    requires Small(base, end) && StateInv(base, end, s.headers, s.nodes) && Stores(m, s.headers) && StepLegal(m, s, step)
    ensures StateInv(base, end, StateAfter(s, step).headers, StateAfter(s, step).nodes)
    ensures Stores(MemoryAfter(m, s, step), StateAfter(s, step).headers)
  {
    match step
    case Call(Malloc(size)) =>
      MallocStores(m, base, end, s, size);
      AfterKeeps(base, end, s, Malloc(size), s.nodes[0]);
    case Call(Free(ptr)) =>
      assert ptr >= 40 && ptr - 40 in s.headers ==> HeaderAt(m, ptr - 40) == s.headers[ptr - 40];
      if ptr >= 40 {
        if ptr - 40 in s.headers {
          LegalReadable(base, end, s, ptr);
          AfterKeeps(base, end, s, Free(ptr), s.nodes[0]);
        }
        FreeStores(m, base, end, s.headers, ptr - 40);
      }
    case Scribble(n, bytes) =>
      var i :| 0 <= i < |s.nodes| && s.nodes[i] == n;
      ScribbleStores(m, Scribbled(m, n, bytes), base, end, s.headers, s.nodes, i);
  }

  /** Over every run of legal calls and of writes to live blocks, the bytes in memory hold the
      headers of the model, and these keep the invariant of the heap. */
  lemma {:induction false} RunStores(m: Memory, base: nat, end: nat, s: State, steps: seq<Step>)
    requires Small(base, end) && StateInv(base, end, s.headers, s.nodes) && Stores(m, s.headers) && StepsLegal(m, s, steps)
    ensures StateInv(base, end, StateRun(s, steps).headers, StateRun(s, steps).nodes)
    ensures Stores(MemoryRun(m, s, steps), StateRun(s, steps).headers)
    decreases |steps|
  {
    if steps != [] {
      StepStores(m, base, end, s, steps[0]);
      RunStores(MemoryAfter(m, s, steps[0]), base, end, StateAfter(s, steps[0]), steps[1..]);
    }
  }

  // ---------------------------------------------------------------------------------
  // Overlapping headers
  // ---------------------------------------------------------------------------------

  /** The 40 bytes at `a` are the same. */
  ghost predicate BytesKept(m: Memory, t: Memory, a: nat) {
    forall x: nat | a <= x < a + 40 :: t(x) == m(x)
  }

  ghost predicate FlagKeeps(m: Memory, s: nat, a: nat) {
    BytesKept(m, SetUsed(m, s, false), a)
  }

  /** Clearing the flag of a header at `s` leaves the 40 bytes at `a` alone, whatever the memory
      holds, if and only if they do not meet the flag's four. */
  lemma FlagKeepsIff(s: nat, a: nat)
    ensures (forall m: Memory :: FlagKeeps(m, s, a)) <==> a + 40 <= s + 8 || s + 12 <= a
  {
    if a + 40 <= s + 8 || s + 12 <= a {
      forall m: Memory ensures FlagKeeps(m, s, a) {
      }
    } else {
      var m: Memory := (x: nat) => 1;
      var x := if a <= s + 8 then s + 8 else a;
      ZeroDigits(x - s - 8);
      assert m(x) == 1 && SetUsed(m, s, false)(x) == 0;
      assert !FlagKeeps(m, s, a);
    }
  }

  lemma {:induction false} ZeroDigits(i: nat)
    ensures Digit(0, i) == 0
  {
    if i > 0 {
      ZeroDigits(i - 1);
    }
  }

  /** A block list whose last header says 0 bytes does not tile the page. */
  lemma ShortNotFormed(h: Headers)
    requires 4096 in h && 4156 in h && h[4096] == Header(20, true, 4156, 0) && h[4156].size == 0 && h[4156].next == 0
    ensures !Formed(4096, 8192, h)
  {
    forall nodes: seq<Node> | Tiling(4096, 8192, nodes) ensures !Linked(h, nodes) {
      assert End(nodes[0]) == Stop(nodes, 8192, 0);
      assert Linked(h, nodes) ==> LinkOk(h, nodes, 0);
      if |nodes| > 1 {
        assert End(nodes[1]) == Stop(nodes, 8192, 1);
        if |nodes| > 2 {
          InRegion(4096, 8192, nodes, 2);
        }
        assert Linked(h, nodes) ==> LinkOk(h, nodes, 1);
      }
    }
  }

  lemma TakeOutside(m: Memory, a: nat, next: nat, size: nat)
    ensures SameOutside(m, SetUsed(SetSize(SetNext(m, a, next), a, size), a, true), a, a + 40)
  {
  }

  /** The memory after the last block at 4096 was split behind 20 bytes. */
  function AfterTwenty(m: Memory): Memory {
    var m1 := Written(m, 4156, Header(3996, false, 0, 4096), Read(m, 4108, 4112), Read(m, 4112, 4120));
    SetUsed(SetSize(SetNext(m1, 4096, 4156), 4096, 20), 4096, true)
  }

  lemma TookTwenty(m: Memory)
    requires HeaderAt(m, 4096) == Header(4056, false, 0, 0)
    ensures TookMemory(m, 4096, 20) == AfterTwenty(m)
  {
  }

  lemma TwentyKeepsMagic(m: Memory)
    ensures Magic(AfterTwenty(m), 4152) == Magic(m, 4152)
  {
    var n, pages, virt := Header(3996, false, 0, 4096), Read(m, 4108, 4112), Read(m, 4112, 4120);
    var m1 := Written(m, 4156, n, pages, virt);
    WrittenAt(m, 4156, n, pages, virt);
    TakeOutside(m1, 4096, 4156, 20);
    MagicSame(m, m1, 4156, 4196, 4152);
    MagicSame(m1, AfterTwenty(m), 4096, 4136, 4152);
  }

  lemma MagicSame(m: Memory, t: Memory, lo: nat, hi: nat, a: nat)
    requires SameOutside(m, t, lo, hi) && (a + 4 <= lo || hi <= a)
    ensures Magic(t, a) == Magic(m, a)
  {
    ReadSame(m, t, lo, hi, a, a + 4);
  }

  lemma TornStored(m: Memory, h: Headers, nodes: seq<Node>, t: Headers)
    requires StateInv(4096, 8192, h, nodes) && Stores(m, h)
    requires nodes != [] && nodes[0].addr == 4096 && Fits(nodes[0], 20) && 4096 in h && TookHeaders(h, 4096, 20) == t
    ensures Stores(TookMemory(m, 4096, 20), t)
  {
    TookStores(m, 4096, 8192, h, nodes, 0, 20);
  }

  /** Handing out 20 bytes leaves the magic number of the swallowed header at 4152. */
  lemma TornMagic(m: Memory)
    requires Stores(m, BothFreedState().headers)
    ensures Stores(TookMemory(m, 4096, 20), TornState().headers) && Magic(TookMemory(m, 4096, 20), 4152) == MAGIC
  {
    var h := BothFreedState().headers;
    assert HeaderAt(m, 4096) == h[4096] && HeaderAt(m, 4152) == h[4152];
    BothFreedOk();
    TwentyHeaders();
    TornStored(m, h, BothFreedState().nodes, TornState().headers);
    TookTwenty(m);
    TwentyKeepsMagic(m);
  }

  /** Freeing that header again: its magic number is there, its flag is the size of the list
      header at 4156, and with the first write the list no longer tiles the page. */
  lemma TornFreeBreaks(m: Memory)
    requires Stores(m, BothFreedState().headers)
    ensures var t := TookMemory(m, 4096, 20);
            var u := SetUsed(t, 4152, false);
            && Magic(t, 4152) == MAGIC && HeaderAt(t, 4156).size == 3996 && HeaderAt(u, 4156).size == 0
            && forall h {:trigger Stores(u, h)} :: Stores(u, h) && 4096 in h && 4156 in h ==> !Formed(4096, 8192, h)
  {
    var t := TookMemory(m, 4096, 20);
    var u := SetUsed(t, 4152, false);
    TornMagic(m);
    TornHeaders(t);
    FlagIsSize(t);
    forall h | Stores(u, h) && 4096 in h && 4156 in h ensures !Formed(4096, 8192, h) {
      assert HeaderAt(u, 4096) == h[4096] && HeaderAt(u, 4156) == h[4156];
      ShortNotFormed(h);
    }
  }

  lemma TornHeaders(t: Memory)
    requires Stores(t, TornState().headers)
    ensures HeaderAt(t, 4096) == Header(20, true, 4156, 0) && HeaderAt(t, 4156) == Header(3996, false, 0, 4096)
  {
    assert HeaderAt(t, 4156) == TornState().headers[4156] && HeaderAt(t, 4096) == TornState().headers[4096];
  }

  lemma FlagIsSize(t: Memory)
    ensures var u := SetUsed(t, 4152, false);
            && HeaderAt(u, 4156) == HeaderAt(t, 4156).(size := 0) && HeaderAt(u, 4096) == HeaderAt(t, 4096)
  {
    var u := SetUsed(t, 4152, false);
    SizeAt(t, 4156, 0);
    PutOutside(t, 4160, 4164, 0);
    HeaderSame(t, u, 4160, 4164, 4096);
  }
}
