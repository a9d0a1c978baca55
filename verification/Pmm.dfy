/** The physical page allocator: a bitmap with one bit for each 4 KiB page above
    BASE_ADDR.  The bitmap is proved to represent a set of used pages, and each
    allocation routine is specified on that set. */
module Pmm {
  import opened Common

  const PAGE_SIZE: nat := 4096
  const BASE_ADDR: nat := 0x300000
  const ISA_DMA_LIMIT: nat := 0x01000000
  const MAX_PAGES: nat := 0x100000

  // ---------------------------------------------------------------- bits

  function Mask(j: nat): bv8
    requires j < 8
  {
    (1 as bv8) << j
  }

  predicate Bit(b: bv8, j: nat)
    requires j < 8
  {
    b & Mask(j) != 0
  }

  lemma {:induction false} MaskCases(j: nat)
    requires j < 8
    ensures Mask(j) == if j == 0 then 1 else if j == 1 then 2 else if j == 2 then 4 else if j == 3 then 8
                       else if j == 4 then 16 else if j == 5 then 32 else if j == 6 then 64 else 128
  {
    if j == 0 {} else if j == 1 {} else if j == 2 {} else if j == 3 {}
    else if j == 4 {} else if j == 5 {} else if j == 6 {} else {}
  }

  /** Setting one bit of a byte sets that bit and no other. */
  lemma SetBit(b: bv8, j: nat, k: nat)
    requires j < 8 && k < 8
    ensures Bit(b | Mask(j), k) <==> j == k || Bit(b, k)
  {
    MaskCases(j);
    MaskCases(k);
  }

  /** Clearing one bit of a byte clears that bit and no other. */
  lemma ClearBit(b: bv8, j: nat, k: nat)
    requires j < 8 && k < 8
    ensures Bit(b & !Mask(j), k) <==> j != k && Bit(b, k)
  {
    MaskCases(j);
    MaskCases(k);
  }

  /** The byte test that lets a search skip eight pages at once. */
  lemma FullByte(b: bv8, j: nat)
    requires b == 0xFF && j < 8
    ensures Bit(b, j)
  {
    MaskCases(j);
  }

  // ---------------------------------------------------------------- the bitmap as a set

  ghost predicate PageUsed(bits: seq<bv8>, page: nat)
    requires page / 8 < |bits|
  {
    Bit(bits[page / 8], page % 8)
  }

  /** The set of pages that a bitmap marks as used. */
  ghost function UsedSet(bits: seq<bv8>, total: nat): set<nat>
    requires (total + 7) / 8 <= |bits|
  {
    set page: nat | page < total && PageUsed(bits, page)
  }

  lemma FullBytePages(bits: seq<bv8>, total: nat, i: nat)
    requires (total + 7) / 8 <= |bits| && i < total / 8 && bits[i] == 0xFF
    ensures forall page: nat | i * 8 <= page < i * 8 + 8 :: page in UsedSet(bits, total)
  {
    forall page: nat | i * 8 <= page < i * 8 + 8
      ensures page in UsedSet(bits, total)
    {
      FullByte(bits[i], page % 8);
      assert page / 8 == i;
    }
  }

  lemma SetPage(bits: seq<bv8>, total: nat, page: nat)
    requires (total + 7) / 8 <= |bits| && page < total
    ensures UsedSet(bits[page / 8 := bits[page / 8] | Mask(page % 8)], total) == UsedSet(bits, total) + {page}
  {
    var after := bits[page / 8 := bits[page / 8] | Mask(page % 8)];
    forall other: nat | other < total
      ensures PageUsed(after, other) <==> other == page || PageUsed(bits, other)
    {
      SetBit(bits[page / 8], page % 8, other % 8);
    }
  }

  lemma ClearPage(bits: seq<bv8>, total: nat, page: nat)
    requires (total + 7) / 8 <= |bits| && page < total
    ensures UsedSet(bits[page / 8 := bits[page / 8] & !Mask(page % 8)], total) == UsedSet(bits, total) - {page}
  {
    var after := bits[page / 8 := bits[page / 8] & !Mask(page % 8)];
    forall other: nat | other < total
      ensures PageUsed(after, other) <==> other != page && PageUsed(bits, other)
    {
      ClearBit(bits[page / 8], page % 8, other % 8);
    }
  }

  // ---------------------------------------------------------------- runs of pages

  ghost predicate InRun(page: nat, start: nat, count: nat)
  {
    start <= page < start + count
  }

  ghost function Run(start: nat, count: nat): set<nat>
  {
    set page: nat | page < start + count && InRun(page, start, count)
  }

  ghost predicate InRange(page: nat, limit: nat)
  {
    BASE_ADDR + page * PAGE_SIZE + PAGE_SIZE <= limit
  }

  /** A start at which a run of `count` free pages, all below `limit`, can be handed out. */
  ghost predicate Fits(used: set<nat>, total: nat, start: nat, count: nat, limit: nat)
  {
    && start < total / 8 * 8
    && start + count <= total
    && Run(start, count) !! used
    && forall page <- Run(start, count) :: InRange(page, limit)
  }

  /** The pages from `start` to the last one are free and below `limit`. */
  ghost predicate Open(used: set<nat>, total: nat, start: nat, limit: nat)
  {
    start <= total && Run(start, total - start) !! used && forall page <- Run(start, total - start) :: InRange(page, limit)
  }

  /** A start from which the scan for `count` pages runs past the last page: the 32-bit sum of
      the two wraps, so the test for the end passes, and nothing stops the scan before. */
  ghost predicate Passes(used: set<nat>, total: nat, start: nat, count: nat, limit: nat)
  {
    start < total / 8 * 8 && start + count >= 0x1_0000_0000 && Open(used, total, start, limit)
  }

  /** There is such a start if and only if the last start that is tried is one. */
  lemma PassesIff(used: set<nat>, total: nat, count: nat, limit: nat)
    ensures (exists s: nat :: Passes(used, total, s, count, limit)) <==>
              total >= 8 && Passes(used, total, total / 8 * 8 - 1, count, limit)
  {
    forall s: nat | Passes(used, total, s, count, limit) ensures Passes(used, total, total / 8 * 8 - 1, count, limit) {
      var last := total / 8 * 8 - 1;
      assert Run(last, total - last) <= Run(s, total - s);
    }
  }

  /** A count for which that happens is too large for any run. */
  lemma PassesNoFit(used: set<nat>, total: nat, s: nat, count: nat, limit: nat, t: nat)
    requires total <= MAX_PAGES && Passes(used, total, s, count, limit)
    ensures !Fits(used, total, t, count, limit)
  {
  }

  lemma PassesFacts(used: set<nat>, total: nat, count: nat, limit: nat)
    requires total <= MAX_PAGES
    ensures (exists s: nat :: Passes(used, total, s, count, limit)) <==>
              total >= 8 && Passes(used, total, total / 8 * 8 - 1, count, limit)
    ensures forall s: nat, t: nat {:trigger Passes(used, total, s, count, limit), Fits(used, total, t, count, limit)} ::
              Passes(used, total, s, count, limit) ==> !Fits(used, total, t, count, limit)
  {
    PassesIff(used, total, count, limit);
    forall s: nat, t: nat | Passes(used, total, s, count, limit) ensures !Fits(used, total, t, count, limit) {
      PassesNoFit(used, total, s, count, limit, t);
    }
  }

  function AddrOf(page: nat): (addr: nat)
    ensures addr != 0 && addr % PAGE_SIZE == 0
  {
    BASE_ADDR + page * PAGE_SIZE
  }

  function PageOf(addr: nat): nat
    requires addr >= BASE_ADDR
  {
    (addr - BASE_ADDR) / PAGE_SIZE
  }

  lemma PageOfAddrOf(page: nat)
    ensures PageOf(AddrOf(page)) == page
  {
  }

  /** Every address inside a page belongs to it. */
  lemma PageOfWithin(page: nat, off: nat)
    requires off < 4096
    ensures PageOf(0x300000 + 4096 * page + off) == page
  {
  }

  const NO_LIMIT: nat := BASE_ADDR + (MAX_PAGES + 1) * PAGE_SIZE

  /** Without a limit a run fits wherever all its pages exist and are free, if it starts in a
      whole byte of the bitmap. */
  lemma FitsAnywhere(used: set<nat>, total: nat, start: nat, count: nat)
    requires total <= 0x100000
    ensures Fits(used, total, start, count, NO_LIMIT) <==>
              start < total / 8 * 8 && start + count <= total && forall page: nat | start <= page < start + count :: page !in used
  {
    if start + count <= total {
      forall page: nat | start <= page < start + count ensures page in Run(start, count) && InRange(page, NO_LIMIT) {
      }
    }
  }

  /** Below the DMA limit a run fits if besides it ends below 16 MiB. */
  lemma FitsLow(used: set<nat>, total: nat, start: nat, count: nat)
    requires total <= 0x100000 && count > 0
    ensures Fits(used, total, start, count, ISA_DMA_LIMIT) <==>
              && start < total / 8 * 8 && start + count <= total
              && (forall page: nat | start <= page < start + count :: page !in used)
              && 0x300000 + 4096 * (start + count) <= 0x1000000
  {
    if start + count <= total {
      forall page: nat | start <= page < start + count ensures page in Run(start, count) {
      }
      assert InRange(start + count - 1, ISA_DMA_LIMIT) <==> 0x300000 + 4096 * (start + count) <= 0x1000000;
    }
  }

  class PageAllocator {
    const total: nat
    const bitmap: array<bv8>
    var lastIdx: nat
    ghost var used: set<nat>  // the pages in use

    ghost predicate Valid()
      reads this, bitmap
    {
      && 0 < total <= MAX_PAGES
      && bitmap.Length == (total + 7) / 8
      && lastIdx < total
      && used == UsedSet(bitmap[..], total)
    }

    /** Every page free. */
    constructor (totalPages: nat)
      requires 0 < totalPages <= MAX_PAGES
      ensures Valid() && fresh(bitmap)
      ensures total == totalPages && used == {} && lastIdx == 0
    {
      total := totalPages;
      bitmap := new bv8[(totalPages + 7) / 8](_ => 0);
      lastIdx, used := 0, {};
      new;
      assert forall b: bv8, j: nat {:trigger Bit(b, j)} | b == 0 && j < 8 :: !Bit(b, j);
    }

    method TestPage(page: nat) returns (taken: bool)
      requires Valid() && page < total
      ensures taken <==> page in used
    {
      taken := bitmap[page / 8] & Mask(page % 8) != 0;
    }

    method MarkPage(page: nat)
      requires Valid() && page < total
      modifies this`used, bitmap
      ensures Valid()
      ensures used == old(used) + {page}
    {
      SetPage(bitmap[..], total, page);
      ghost var before := bitmap[..];
      bitmap[page / 8] := bitmap[page / 8] | Mask(page % 8);
      used := used + {page};
      assert bitmap[..] == before[page / 8 := before[page / 8] | Mask(page % 8)];
    }

    method MarkRun(start: nat, count: nat)
      requires Valid() && start + count <= total
      modifies this`used, bitmap
      ensures Valid()
      ensures used == old(used) + Run(start, count)
    {
      var k := 0;
      while k < count
        invariant 0 <= k <= count
        invariant Valid() && used == old(used) + Run(start, k)
      {
        MarkPage(start + k);
        k := k + 1;
      }
    }

    /** Takes the lowest free page among the whole bytes of the bitmap; 0 when there is none. */
    method Alloc() returns (addr: nat)
      requires Valid()
      modifies this`used, bitmap
      ensures Valid()
      ensures addr == 0 ==> used == old(used) && forall page: nat | page < total / 8 * 8 :: page in used
      ensures addr != 0 ==>
                && addr >= BASE_ADDR && addr == AddrOf(PageOf(addr)) == 0x300000 + 4096 * PageOf(addr)
                && PageOf(addr) < total / 8 * 8 && PageOf(addr) !in old(used)
                && (forall page: nat | page < PageOf(addr) :: page in old(used))
                && used == old(used) + {PageOf(addr)}
    {
      for i := 0 to total / 8
        invariant Valid() && used == old(used)
        invariant forall page: nat | page < i * 8 :: page in used
      {
        if bitmap[i] == 0xFF {
          FullBytePages(bitmap[..], total, i);
          continue;
        }
        for j := 0 to 8
          invariant Valid() && used == old(used)
          invariant forall page: nat | page < i * 8 + j :: page in used
        {
          var taken := TestPage(i * 8 + j);
          if !taken {
            MarkPage(i * 8 + j);
            PageOfAddrOf(i * 8 + j);
            return AddrOf(i * 8 + j);
          }
        }
      }
      return 0;
    }

    /** Does the run starting at `start` lie in free pages below `limit`?  The scan stops when it
        would pass the last page. */
    method RunFree(start: nat, count: nat, limit: nat) returns (found: bool, past: bool)
      requires Valid() && 0 < count < 0x1_0000_0000 && start < total / 8 * 8
      ensures found <==> Fits(used, total, start, count, limit)
      ensures past <==> Passes(used, total, start, count, limit)
    {
      if Low32(start + count) > total {
        return false, false;
      }
      var taken := TestPage(start);
      if taken {
        assert start in Run(start, count) && start in Run(start, total - start);
        return false, false;
      }
      if BASE_ADDR + start * PAGE_SIZE + PAGE_SIZE > limit {
        assert start in Run(start, count) && start in Run(start, total - start) && !InRange(start, limit);
        return false, false;
      }
      var k := 1;
      while k < count
        invariant 1 <= k <= count && start + k <= total
        invariant Run(start, k) !! used
        invariant forall page <- Run(start, k) :: InRange(page, limit)
      {
        if start + k == total {
          return false, true;
        }
        taken := TestPage(start + k);
        if taken || BASE_ADDR + (start + k) * PAGE_SIZE + PAGE_SIZE > limit {
          assert start + k in Run(start, count) && start + k in Run(start, total - start);
          assert taken || !InRange(start + k, limit);
          return false, false;
        }
        assert Run(start, k + 1) == Run(start, k) + {start + k};
        k := k + 1;
      }
      return true, false;
    }

    /** One pass over the bitmap from `cur`, skipping full bytes: the lowest start that fits, or
        from which the scan passes the last page. */
    method Search(cur: nat, count: nat, limit: nat) returns (found: bool, past: bool, start: nat)
      requires Valid() && 0 < count < 0x1_0000_0000
      ensures found ==> cur <= start && Fits(used, total, start, count, limit)
      ensures past ==> cur <= start && Passes(used, total, start, count, limit)
      ensures forall s: nat | cur <= s && (found || past ==> s < start) :: !Fits(used, total, s, count, limit)
      ensures forall s: nat | cur <= s && (found || past ==> s < start) :: !Passes(used, total, s, count, limit)
    {
      var i := cur / 8;
      while i < total / 8
        invariant forall s: nat | cur <= s < i * 8 :: !Fits(used, total, s, count, limit)
        invariant forall s: nat | cur <= s < i * 8 :: !Passes(used, total, s, count, limit)
      {
        if bitmap[i] == 0xFF {
          forall s: nat | i * 8 <= s < i * 8 + 8
            ensures !Fits(used, total, s, count, limit) && !Passes(used, total, s, count, limit)
          {
            FullBytePages(bitmap[..], total, i);
            assert s in Run(s, count) && s in Run(s, total - s) && s in used;
          }
          i := i + 1;
          continue;
        }
        for j := 0 to 8
          invariant forall s: nat | cur <= s < i * 8 + j :: !Fits(used, total, s, count, limit)
          invariant forall s: nat | cur <= s < i * 8 + j :: !Passes(used, total, s, count, limit)
        {
          if i * 8 + j >= cur {
            found, past := RunFree(i * 8 + j, count, limit);
            if found || past {
              return found, past, i * 8 + j;
            }
          }
        }
        i := i + 1;
      }
      return false, false, 0;
    }

    /** Next-fit: the lowest fitting start from lastIdx on, else the lowest of all; 0 only
        when no start fits at all.  For a count close to 2^32 the scan may pass the last page. */
    method AllocContiguous(count: nat) returns (addr: nat, past: bool)
      requires Valid() && count < 0x1_0000_0000
      modifies this`lastIdx, this`used, bitmap
      ensures Valid()
      ensures past <==> total >= 8 && Passes(old(used), total, total / 8 * 8 - 1, count, NO_LIMIT)
      ensures addr == 0 <==> count == 0 || forall s: nat :: !Fits(old(used), total, s, count, NO_LIMIT)
      ensures addr == 0 ==> used == old(used) && lastIdx == old(lastIdx)
      ensures addr != 0 ==>
                && addr >= BASE_ADDR && addr == AddrOf(PageOf(addr)) == 0x300000 + 4096 * PageOf(addr)
                && Fits(old(used), total, PageOf(addr), count, NO_LIMIT)
                && used == old(used) + Run(PageOf(addr), count)
                && lastIdx == (PageOf(addr) + count) % total
      ensures addr != 0 && PageOf(addr) >= old(lastIdx) ==>
                forall s: nat | old(lastIdx) <= s < PageOf(addr) :: !Fits(old(used), total, s, count, NO_LIMIT)
      ensures addr != 0 && PageOf(addr) < old(lastIdx) ==>
                forall s: nat | s < PageOf(addr) || old(lastIdx) <= s :: !Fits(old(used), total, s, count, NO_LIMIT)
    {
      past := false;
      if count == 0 {
        return 0, false;
      }
      PassesFacts(used, total, count, NO_LIMIT);
      var cur, fullLoops := lastIdx, 0;
      while fullLoops < 2
        invariant 0 <= fullLoops <= 2 && !past
        invariant Valid() && lastIdx == old(lastIdx) && used == old(used)
        invariant cur == if fullLoops == 0 then lastIdx else 0
        invariant fullLoops == 1 ==> forall s: nat | lastIdx <= s :: !Fits(used, total, s, count, NO_LIMIT)
        invariant fullLoops == 2 ==> forall s: nat :: !Fits(used, total, s, count, NO_LIMIT)
        invariant fullLoops == 2 ==> forall s: nat :: !Passes(used, total, s, count, NO_LIMIT)
      {
        var found, over, start := Search(cur, count, NO_LIMIT);
        if found {
          MarkRun(start, count);
          lastIdx := (start + count) % total;
          PageOfAddrOf(start);
          return AddrOf(start), false;
        }
        if over {
          return 0, true;
        }
        cur := 0;
        fullLoops := fullLoops + 1;
      }
      return 0, false;
    }

    /** First-fit with every page of the run below the ISA DMA limit of 16 MiB. */
    method AllocLow(count: nat) returns (addr: nat, past: bool)
      requires Valid() && count < 0x1_0000_0000
      modifies this`used, bitmap
      ensures Valid()
      ensures past <==> total >= 8 && Passes(old(used), total, total / 8 * 8 - 1, count, ISA_DMA_LIMIT)
      ensures addr == 0 <==> count == 0 || forall s: nat :: !Fits(old(used), total, s, count, ISA_DMA_LIMIT)
      ensures addr == 0 ==> used == old(used)
      ensures addr != 0 ==>
                && addr >= BASE_ADDR && addr == AddrOf(PageOf(addr)) == 0x300000 + 4096 * PageOf(addr)
                && addr + count * 4096 <= 0x1000000
                && Fits(old(used), total, PageOf(addr), count, ISA_DMA_LIMIT)
                && (forall s: nat | s < PageOf(addr) :: !Fits(old(used), total, s, count, ISA_DMA_LIMIT))
                && used == old(used) + Run(PageOf(addr), count)
    {
      if count == 0 {
        return 0, false;
      }
      PassesFacts(used, total, count, ISA_DMA_LIMIT);
      var found, over, start := Search(0, count, ISA_DMA_LIMIT);
      assert used == old(used);
      if over {
        return 0, true;
      }
      if !found {
        return 0, false;
      }
      assert start + count - 1 in Run(start, count);
      assert InRange(start + count - 1, ISA_DMA_LIMIT);
      MarkRun(start, count);
      PageOfAddrOf(start);
      return AddrOf(start), false;
    }

    /** Frees the page an address lies in; addresses outside the managed pages are ignored. */
    method Free(addr: nat)
      requires Valid()
      modifies this`used, bitmap
      ensures Valid()
      ensures addr < BASE_ADDR || Low32(PageOf(addr)) >= total ==> used == old(used)
      ensures addr >= BASE_ADDR && Low32(PageOf(addr)) < total ==> used == old(used) - {Low32(PageOf(addr))}
    {
      if addr < BASE_ADDR {
        return;
      }
      var page := Low32(PageOf(addr));
      if page < total {
        UnmarkPage(page);
      }
    }

    method UnmarkPage(page: nat)
      requires Valid() && page < total
      modifies this`used, bitmap
      ensures Valid()
      ensures used == old(used) - {page}
    {
      ClearPage(bitmap[..], total, page);
      ghost var before := bitmap[..];
      bitmap[page / 8] := bitmap[page / 8] & !Mask(page % 8);
      used := used - {page};
      assert bitmap[..] == before[page / 8 := before[page / 8] & !Mask(page % 8)];
    }
  }
}
