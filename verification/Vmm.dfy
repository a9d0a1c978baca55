/** The virtual memory manager: address spaces edited in place, with frames for new
    tables taken from the page allocator. */
module Vmm {
  import opened Common
  import opened PageTables
  import opened MapEntries
  import Pmm

  const USER_ADDR_START: nat := 0x400000
  const USER_ADDR_END: nat := 0x800000
  const BASE_FRAME: nat := 0x300

  /** The page of KERNEL_PML4_VIRT, through which a space sees its own PML4. */
  const WINDOW: VPage := VPage(511, 0, 0, 0)

  /** A frame the page allocator will not hand out. */
  ghost predicate Taken(used: set<nat>, total: nat, frame: nat)
  {
    BASE_FRAME <= frame < BASE_FRAME + total ==> frame - BASE_FRAME in used
  }

  /** No page is left for the page allocator to hand out. */
  ghost predicate Exhausted(used: set<nat>, total: nat)
  {
    forall page: nat | page < total / 8 * 8 :: page in used
  }

  /** User mappings are confined to the user address range. */
  predicate Allowed(virt: nat, flags: bv12)
  {
    flags & USER != 0 ==> USER_ADDR_START <= virt < USER_ADDR_END
  }

  function FrameOfPhys(phys: nat): nat
  {
    phys / 4096 % FRAMES
  }

  /** The physical address reported for a translated page, 0 for none. */
  function PhysOf(frame: Option<nat>): nat
  {
    match frame
    case None => 0
    case Some(f) => f * 4096
  }

  ghost predicate SameWalks(t: Tables, place: map<nat, Place>, u: Tables)
  {
    forall r, v | IsRoot(t, place, r) :: Walk(u, r, v) == Walk(t, r, v)
  }

  ghost predicate SameWalksExcept(t: Tables, place: map<nat, Place>, u: Tables, page: VPage)
  {
    forall r, v | IsRoot(t, place, r) && v != page :: Walk(u, r, v) == Walk(t, r, v)
  }

  /** What became of page `v` in every space: those that reach the same page table as `root` now
      see `value` there, the others see what they saw before. */
  ghost predicate ExactAt(t: Tables, p: map<nat, Place>, u: Tables, root: nat, v: VPage, value: Option<nat>)
  {
    && PtOf(u, root, v) != 0
    && forall r {:trigger Walk(u, r, v)} | IsRoot(t, p, r) ::
         Walk(u, r, v) == if PtOf(u, r, v) == PtOf(u, root, v) then value else Walk(t, r, v)
  }

  /** In every space, the 512 pages that went through entry `i` of `pd` are unmapped, and no
      others changed. */
  ghost predicate RegionCleared(t: Tables, p: map<nat, Place>, u: Tables, pd: nat, i: nat)
  {
    forall r, w | IsRoot(t, p, r) :: Walk(u, r, w) == if PdOf(t, r, w) == pd && w.i2 == i then None else Walk(t, r, w)
  }

  /** Page `v` of space `root`, and of the spaces that share its page table, now translates to
      `frame`; nothing else changed anywhere. */
  ghost predicate Mapped(t: Tables, p: map<nat, Place>, u: Tables, q: map<nat, Place>, root: nat, v: VPage, frame: nat)
  {
    && WellFormed(u, q) && Evolves(t, p, u, q)
    && Walk(u, root, v) == Some(frame)
    && SameWalksExcept(t, p, u, v) && ExactAt(t, p, u, root, v, Some(frame))
  }

  /** Tables may have been added, but no translation changed. */
  ghost predicate Untouched(t: Tables, p: map<nat, Place>, u: Tables, q: map<nat, Place>)
  {
    && WellFormed(u, q) && Evolves(t, p, u, q)
    && SameWalks(t, p, u)
  }

  /** Space `root` translates like `from` outside slot 511, shares every present slot with
      it there, and sees its own PML4 (and nothing else) through slot 511. */
  ghost predicate CloneOf(t: Tables, p: map<nat, Place>, from: nat, root: nat)
  {
    && IsRoot(t, p, root)
    && (forall v: VPage | v.i4 != 511 :: Walk(t, root, v) == Walk(t, from, v))
    && (forall i: Index | i != 511 && Entry(t, from, i).Present() :: Shared(t, from, root, i))
    && Walk(t, root, WINDOW) == Some(root)
    && (forall v: VPage | v.i4 == 511 && v != WINDOW :: Walk(t, root, v) == None)
  }

  ghost predicate AllTaken(frames: set<nat>, used: set<nat>, total: nat)
  {
    forall x <- frames :: Taken(used, total, x)
  }

  /** Only frames that were free before have become tables. */
  ghost predicate Grown(before: set<nat>, used: set<nat>, total: nat, after: set<nat>)
  {
    forall x <- after :: x in before || !Taken(used, total, x)
  }

  lemma AllTakenGrows(frames: set<nat>, used: set<nat>, total: nat, more: set<nat>, used': set<nat>)
    requires AllTaken(frames, used, total) && used <= used' && AllTaken(more, used', total)
    ensures AllTaken(frames + more, used', total)
  {
  }

  lemma StaysOut(before: set<nat>, used: set<nat>, total: nat, after: set<nat>, x: nat)
    requires Grown(before, used, total, after) && x !in before && Taken(used, total, x)
    ensures x !in after
  {
  }

  lemma Overwrite(t: Tables, table: nat, a: seq<Pte>, b: seq<Pte>)
    ensures t[table := a][table := b] == t[table := b]
  {
  }

  /** The run steps of the address-space theorem. */
  datatype Op = Map(virt: nat, phys: nat, flags: bv12) | Unmap(virt: nat) | Switch(root: nat)

  method TakeFrame(pmm: Pmm.PageAllocator) returns (frame: nat)
    requires pmm.Valid()
    modifies pmm`used, pmm.bitmap
    ensures pmm.Valid()
    ensures frame == 0 ==> Exhausted(pmm.used, pmm.total) && pmm.used == old(pmm.used)
    ensures frame != 0 ==>
              && BASE_FRAME <= frame < BASE_FRAME + pmm.total && frame < FRAMES
              && !Exhausted(old(pmm.used), pmm.total)
              && !Taken(old(pmm.used), pmm.total, frame)
              && pmm.used == old(pmm.used) + {frame - BASE_FRAME}
  {
    var addr := pmm.Alloc();
    frame := addr / 4096;
  }

  method GiveFrame(pmm: Pmm.PageAllocator, frame: nat)
    requires pmm.Valid() && ZeroOrFree({}, pmm.total, frame)
    modifies pmm`used, pmm.bitmap
    ensures pmm.Valid()
    ensures pmm.used == old(pmm.used) - Pages(frame)
  {
    if frame != 0 {
      assert Pmm.PageOf(frame * 4096) == frame - BASE_FRAME;
      pmm.Free(frame * 4096);
    }
  }

  /** Four distinct frames that were free, or none of them. */
  method AllocFour(pmm: Pmm.PageAllocator) returns (root: nat, pdpt: nat, pd: nat, pt: nat)
    requires pmm.Valid()
    modifies pmm`used, pmm.bitmap
    ensures pmm.Valid()
    ensures root == 0 ==> pmm.used == old(pmm.used)
    ensures root != 0 ==>
              && pdpt != 0 && pd != 0 && pt != 0
              && root != pdpt && root != pd && root != pt && pdpt != pd && pdpt != pt && pd != pt
              && old(pmm.used) <= pmm.used
              && AllTaken({root, pdpt, pd, pt}, pmm.used, pmm.total)
              && !Taken(old(pmm.used), pmm.total, root) && !Taken(old(pmm.used), pmm.total, pdpt)
              && !Taken(old(pmm.used), pmm.total, pd) && !Taken(old(pmm.used), pmm.total, pt)
  {
    pdpt, pd, pt := 0, 0, 0;
    root := TakeFrame(pmm);
    if root == 0 {
      return;
    }
    ghost var used1 := pmm.used;
    pdpt, pd, pt := TakeThree(pmm);
    FourFrames(old(pmm.used), pmm.total, root, pdpt, pd, pt, used1, pmm.used);
    if pdpt == 0 || pd == 0 || pt == 0 {
      GiveThree(pmm, pdpt, pd, pt);
      GiveFrame(pmm, root);
      root := 0;
    }
  }

  ghost function Pages(frame: nat): set<nat>
  {
    if frame < BASE_FRAME then {} else {frame - BASE_FRAME}
  }

  ghost predicate ZeroOrFree(used: set<nat>, total: nat, frame: nat)
  {
    frame != 0 ==> BASE_FRAME <= frame < BASE_FRAME + total && frame - BASE_FRAME !in used
  }

  lemma FourFrames(used: set<nat>, total: nat, r: nat, a: nat, b: nat, c: nat, used1: set<nat>, used2: set<nat>)
    requires r != 0 && ZeroOrFree(used, total, r) && used1 == used + Pages(r)
    requires ZeroOrFree(used1, total, a) && ZeroOrFree(used1, total, b) && ZeroOrFree(used1, total, c)
    requires used2 == used1 + Pages(a) + Pages(b) + Pages(c)
    ensures used2 - Pages(a) - Pages(b) - Pages(c) - Pages(r) == used
    ensures AllTaken({r, a, b, c}, used2, total)
    ensures a != r && b != r && c != r
  {
  }

  method GiveThree(pmm: Pmm.PageAllocator, a: nat, b: nat, c: nat)
    requires pmm.Valid() && ZeroOrFree({}, pmm.total, a) && ZeroOrFree({}, pmm.total, b) && ZeroOrFree({}, pmm.total, c)
    modifies pmm`used, pmm.bitmap
    ensures pmm.Valid() && pmm.used == old(pmm.used) - Pages(a) - Pages(b) - Pages(c)
  {
    GiveFrame(pmm, a);
    GiveFrame(pmm, b);
    GiveFrame(pmm, c);
  }

  method TakeThree(pmm: Pmm.PageAllocator) returns (a: nat, b: nat, c: nat)
    requires pmm.Valid()
    modifies pmm`used, pmm.bitmap
    ensures pmm.Valid()
    ensures ZeroOrFree(old(pmm.used), pmm.total, a) && ZeroOrFree(old(pmm.used), pmm.total, b)
    ensures ZeroOrFree(old(pmm.used), pmm.total, c)
    ensures a != 0 ==> a != b && a != c
    ensures b != 0 ==> b != c
    ensures pmm.used == old(pmm.used) + Pages(a) + Pages(b) + Pages(c)
  {
    a := TakeFrame(pmm);
    b := TakeFrame(pmm);
    c := TakeFrame(pmm);
  }

  /** Fills page table `pt` with the 512 entries that spell the frames of the 2 MiB entry
      covering `v`, puts `leaf` at the place of `v`, and links the table into `pd`. */
  method BuildSplit(t: Tables, pd: nat, v: VPage, pt: nat, link: Pte, leaf: Pte) returns (u: Tables, oldPte: Pte)
    requires pt in t && |t[pt]| == 512 && pd in t && |t[pd]| == 512 && pt != pd
    ensures oldPte == SplitEntries(t[pd][v.i2])[v.i1]
    ensures u == Write(t[pt := SplitEntries(t[pd][v.i2])[v.i1 := leaf]], pd, v.i2, link)
  {
    var huge := t[pd][v.i2];
    u := t;
    var i := 0;
    while i < 512
      invariant 0 <= i <= 512
      invariant pt in u && |u[pt]| == 512 && u == t[pt := u[pt]]
      invariant forall k: nat | k < i :: u[pt][k] == SplitEntries(huge)[k]
    {
      u := Write(u, pt, i, Pte(huge.frame + i, huge.flags & !HUGE));
      i := i + 1;
    }
    assert u[pt] == SplitEntries(huge);
    oldPte := u[pt][v.i1];
    u := Write(u, pt, v.i1, leaf);
    u := Write(u, pd, v.i2, link);
  }

  /** Copies the 512 entries of one table into another. */
  method CopyTable(t: Tables, from: nat, to: nat) returns (u: Tables)
    requires from in t && to in t && from != to && |t[from]| == |t[to]| == 512
    ensures u == t[to := t[from]]
  {
    u := t;
    var i := 0;
    while i < 512
      invariant 0 <= i <= 512
      invariant to in u && |u[to]| == 512 && u == t[to := u[to]]
      invariant forall k: nat | k < i :: u[to][k] == t[from][k]
    {
      u := Write(u, to, i, u[from][i]);
      i := i + 1;
    }
    assert u[to] == t[from];
  }

  method BuildClone(t: Tables, window: nat, root: nat, pdpt: nat, pd: nat, pt: nat) returns (u: Tables)
    requires window in t && |t[window]| == 512
    requires root !in t && pdpt !in t && pd !in t && pt !in t
    requires root != pdpt && root != pd && root != pt && pdpt != pd && pdpt != pt && pd != pt
    ensures u == Cloned(t, window, root, pdpt, pd, pt)
  {
    u := t[root := Zeros()][pdpt := Zeros()][pd := Zeros()][pt := Zeros()];
    u := CopyTable(u, window, root);
    u := Write(u, root, 511, Pte(pdpt, PRESENT | WRITABLE));
    u := Write(u, pdpt, 0, Pte(pd, PRESENT | WRITABLE));
    u := Write(u, pd, 0, Pte(pt, PRESENT | WRITABLE));
    u := Write(u, pt, 0, Pte(root, PRESENT | WRITABLE));
  }

  method CloneTables(t: Tables, window: nat, root: nat, pdpt: nat, pd: nat, pt: nat, ghost place: map<nat, Place>)
    returns (u: Tables, ghost placed: map<nat, Place>)
    requires CloneInput(t, place, window, root, pdpt, pd, pt)
    ensures Untouched(t, place, u, placed) && CloneOf(u, placed, window, root)
    ensures u.Keys == t.Keys + {root, pdpt, pd, pt} && IsRoot(u, placed, window)
  {
    CloneSound(t, place, window, root, pdpt, pd, pt);
    u := BuildClone(t, window, root, pdpt, pd, pt);
    placed := ClonedPlaces(place, root, pdpt, pd, pt);
  }

  class AddressSpaces {
    const pmm: Pmm.PageAllocator
    var tables: Tables
    var current: nat
    var lastReplaced: nat
    var ram: map<nat, bv8>
    ghost var place: map<nat, Place>

    ghost predicate Valid()
      reads this, pmm, pmm.bitmap
    {
      && pmm.Valid()
      && WellFormed(tables, place) && IsRoot(tables, place, current)
      && AllTaken(tables.Keys, pmm.used, pmm.total)
    }

    /** Takes over a well-formed set of tables left by the boot code. */
    constructor (allocator: Pmm.PageAllocator, boot: Tables, root: nat, memory: map<nat, bv8>, ghost places: map<nat, Place>)
      requires allocator.Valid() && WellFormed(boot, places) && IsRoot(boot, places, root)
      requires AllTaken(boot.Keys, allocator.used, allocator.total)
      ensures Valid() && pmm == allocator
      ensures tables == boot && place == places && current == root && ram == memory
    {
      pmm, tables, current, lastReplaced, ram, place := allocator, boot, root, 0, memory, places;
    }

    method AllocFrame() returns (frame: nat)
      requires Valid()
      modifies pmm`used, pmm.bitmap
      ensures Valid()
      ensures frame == 0 ==> Exhausted(pmm.used, pmm.total) && pmm.used == old(pmm.used)
      ensures frame != 0 ==>
                && BASE_FRAME <= frame < BASE_FRAME + pmm.total && frame < FRAMES
                && !Exhausted(old(pmm.used), pmm.total)
                && !Taken(old(pmm.used), pmm.total, frame)
                && pmm.used == old(pmm.used) + {frame - BASE_FRAME}
    {
      frame := TakeFrame(pmm);
    }

    method NewTable(ghost p: Place) returns (n: nat)
      requires Valid()
      modifies this`tables, this`place, pmm`used, pmm.bitmap
      ensures Valid() && old(pmm.used) <= pmm.used
      ensures Grown(old(tables).Keys, old(pmm.used), pmm.total, tables.Keys)
      ensures n == 0 ==> Exhausted(pmm.used, pmm.total) && tables == old(tables) && place == old(place)
      ensures n != 0 ==> n !in old(tables) && tables == old(tables)[n := Zeros()] && place == old(place)[n := p]
      ensures Untouched(old(tables), old(place), tables, place)
    {
      n := AllocFrame();
      if n != 0 {
        FreshTable(tables, place, n, p);
        FreshEvolves(tables, place, n, Zeros(), p);
        tables, place := tables[n := Zeros()], place[n := p];
      }
    }

    /** The table one level down, created empty when the entry is absent. */
    method GetOrAllocTable(table: nat, idx: Index, flags: bv12) returns (child: nat)
      requires Valid() && table in tables && (place[table].Root? || place[table].L3?)
      modifies this`tables, this`place, pmm`used, pmm.bitmap
      ensures Valid() && old(pmm.used) <= pmm.used
      ensures Grown(old(tables).Keys, old(pmm.used), pmm.total, tables.Keys)
      ensures Untouched(old(tables), old(place), tables, place)
      ensures old(tables[table][idx].Present()) ==>
                child == old(tables[table][idx].frame) && pmm.used == old(pmm.used) && place == old(place)
      ensures child == 0 ==> Exhausted(pmm.used, pmm.total)
      ensures forall x <- old(tables) :: x in tables && place[x] == old(place[x])
      ensures child != 0 ==>
                && child in tables && place[child] == Child(old(place[table]), idx)
                && tables[table][idx].Present() && tables[table][idx].frame == child
                && tables == Linked(old(tables), table, idx, child, flags)
                && LinkTo(old(tables), table, idx, child)
      ensures forall x, i: nat | x in old(tables) && i < 512 && (x != table || i != idx) :: tables[x][i] == old(tables[x][i])
      ensures forall x | x in tables && x !in old(tables) :: x == child && tables[x] == Zeros()
    {
      var entry := tables[table][idx];
      assert EntryOk(place, place[table], idx, entry);
      if entry.Present() {
        RaiseUser(table, idx, flags);
        return entry.frame;
      }
      child := LinkNew(table, idx, flags);
    }

    /** Hangs a new empty table under an absent entry. */
    method LinkNew(table: nat, idx: Index, flags: bv12) returns (child: nat)
      requires Valid() && table in tables && !place[table].L1? && !tables[table][idx].Present()
      modifies this`tables, this`place, pmm`used, pmm.bitmap
      ensures Valid() && old(pmm.used) <= pmm.used
      ensures Grown(old(tables).Keys, old(pmm.used), pmm.total, tables.Keys)
      ensures Untouched(old(tables), old(place), tables, place)
      ensures child == 0 ==> Exhausted(pmm.used, pmm.total) && tables == old(tables) && place == old(place)
      ensures child != 0 ==>
                && child !in old(tables) && place == old(place)[child := Child(old(place)[table], idx)]
                && tables == Linked(old(tables), table, idx, child, flags)
    {
      child := NewTable(Child(place[table], idx));
      if child == 0 {
        return;
      }
      var e := Pte(child, PRESENT | WRITABLE | (flags & USER));
      NotHuge(flags);
      ghost var t1, p1 := tables, place;
      LinkEmptyAll(tables, place, table, idx, e);
      tables := Write(tables, table, idx, e);
      Chain(old(tables), old(place), t1, p1, tables, place, current, WINDOW, 0);
    }

    /** Adds the user bit to a link when it is asked for and missing. */
    method RaiseUser(table: nat, idx: Index, flags: bv12)
      requires Valid() && table in tables && (place[table].Root? || place[table].L3?) && tables[table][idx].Present()
      modifies this`tables
      ensures Valid() && Untouched(old(tables), place, tables, place)
      ensures tables == Linked(old(tables), table, idx, old(tables)[table][idx].frame, flags)
    {
      var entry := tables[table][idx];
      assert EntryOk(place, place[table], idx, entry);
      LinkFlagsFacts(entry, flags);
      if flags & USER != 0 && entry.flags & USER == 0 {
        var e := Pte(entry.frame, entry.flags | USER);
        UserBit(flags);
        FlagWriteAll(tables, place, table, idx, e);
        tables := Write(tables, table, idx, e);
      } else {
        SameEntry(tables, table, idx, entry);
      }
    }

    /** Maps one page; splits a 2 MiB page on demand. */
    method Map(virt: nat, phys: nat, flags: bv12) returns (ok: bool)
      requires Valid()
      modifies this`tables, this`place, this`lastReplaced, pmm`used, pmm.bitmap
      ensures Valid() && old(pmm.used) <= pmm.used
      ensures Grown(old(tables).Keys, old(pmm.used), pmm.total, tables.Keys)
      ensures ok ==> Mapped(old(tables), old(place), tables, place, current, PageOfVirt(virt), FrameOfPhys(phys))
      ensures ok ==> lastReplaced == PhysOf(Walk(old(tables), current, PageOfVirt(virt)))
      ensures ok ==> EntriesAfter(old(tables), tables, current, PageOfVirt(virt), phys / 4096 % 0x100_0000_0000, flags)
      ensures ok && flags & 4 != 0 ==> 0x400000 <= virt < 0x800000
      ensures !ok && (flags & 4 == 0 || 0x400000 <= virt < 0x800000) ==> Exhausted(pmm.used, pmm.total)
      ensures !ok ==> Untouched(old(tables), old(place), tables, place)
      ensures !ok ==> lastReplaced == old(lastReplaced) || lastReplaced == 0
      ensures !ok ==> !Allowed(virt, flags) || Exhausted(pmm.used, pmm.total)
      ensures !Allowed(virt, flags) ==>
                !ok && tables == old(tables) && place == old(place) && pmm.used == old(pmm.used) && lastReplaced == old(lastReplaced)
      ensures Allowed(virt, flags) && PtOf(old(tables), current, PageOfVirt(virt)) != 0 ==>
                ok && pmm.used == old(pmm.used) && place == old(place)
    {
      if !Allowed(virt, flags) {
        return false;
      }
      ghost var steps;
      ok, steps := MapPage(PageOfVirt(virt), FrameOfPhys(phys), flags);
      if ok {
        SteppedEntries(old(tables), old(place), current, PageOfVirt(virt), steps, FrameOfPhys(phys), flags);
      }
    }

    /** The same call, described by translations only. */
    method MapTranslation(virt: nat, phys: nat, flags: bv12) returns (ok: bool)
      requires Valid()
      modifies this`tables, this`place, this`lastReplaced, pmm`used, pmm.bitmap
      ensures Valid() && old(pmm.used) <= pmm.used
      ensures Grown(old(tables).Keys, old(pmm.used), pmm.total, tables.Keys)
      ensures ok ==> Mapped(old(tables), old(place), tables, place, current, PageOfVirt(virt), FrameOfPhys(phys))
      ensures !ok ==> Untouched(old(tables), old(place), tables, place)
      ensures !ok ==> !Allowed(virt, flags) || Exhausted(pmm.used, pmm.total)
      ensures !Allowed(virt, flags) ==> !ok && tables == old(tables) && place == old(place) && pmm.used == old(pmm.used)
      ensures Allowed(virt, flags) && PtOf(old(tables), current, PageOfVirt(virt)) != 0 ==>
                ok && pmm.used == old(pmm.used) && place == old(place)
    {
      ok := Map(virt, phys, flags);
    }

    /** The part of mapping after the test of the address; `steps` tells what was written. */
    method MapPage(v: VPage, frame: nat, flags: bv12) returns (ok: bool, ghost steps: Steps)
      requires Valid()
      modifies this`tables, this`place, this`lastReplaced, pmm`used, pmm.bitmap
      ensures Valid() && old(pmm.used) <= pmm.used
      ensures Grown(old(tables).Keys, old(pmm.used), pmm.total, tables.Keys)
      ensures ok ==> Mapped(old(tables), old(place), tables, place, current, v, frame)
      ensures ok ==> lastReplaced == PhysOf(Walk(old(tables), current, v))
      ensures ok ==> StepsOk(old(tables), current, v, steps, flags) && tables == Stepped(old(tables), current, v, steps, frame, flags)
      ensures !ok ==> Untouched(old(tables), old(place), tables, place)
      ensures !ok ==> lastReplaced == old(lastReplaced) || lastReplaced == 0
      ensures !ok ==> Exhausted(pmm.used, pmm.total)
      ensures PtOf(old(tables), current, v) != 0 ==> ok && pmm.used == old(pmm.used) && place == old(place)
    {
      var pd;
      ghost var pdpt, way;
      pd, pdpt := EnsurePd(v, flags);
      if pd == 0 {
        return false, Steps(0, 0, Leaf, map[]);
      }
      ghost var t1, p1 := tables, place;
      ok, way := MapInPd(v, pd, frame, flags);
      steps := Steps(pdpt, pd, way, p1);
      Chain(old(tables), old(place), t1, p1, tables, place, current, v, frame);
    }

    /** The page directory on the way to `v`, with missing tables created empty. */
    method EnsurePd(v: VPage, flags: bv12) returns (pd: nat, ghost pdpt: nat)
      requires Valid()
      modifies this`tables, this`place, pmm`used, pmm.bitmap
      ensures Valid() && old(pmm.used) <= pmm.used
      ensures Grown(old(tables).Keys, old(pmm.used), pmm.total, tables.Keys)
      ensures Untouched(old(tables), old(place), tables, place)
      ensures pd == 0 ==> Exhausted(pmm.used, pmm.total)
      ensures pd != 0 ==> pd == PdOf(tables, current, v) && pd in tables && place[pd] == L2(v.i4, v.i3)
      ensures PtOf(old(tables), current, v) != 0 ==>
                pd != 0 && pmm.used == old(pmm.used) && place == old(place) && PtOf(tables, current, v) == PtOf(old(tables), current, v)
      ensures pd != 0 ==>
                && tables == Upper(old(tables), current, v, pdpt, pd, flags)
                && UpperOk(old(tables), current, v, pdpt, pd, flags)
    {
      WalkSteps(tables, place, current, v);
      ghost var had := PtOf(tables, current, v) != 0;
      var table := GetOrAllocTable(current, v.i4, flags);
      pdpt := table;
      if table == 0 {
        return 0, 0;
      }
      ghost var t1, p1 := tables, place;
      assert table == PdptOf(tables, current, v);
      assert had ==> PtOf(tables, current, v) == PtOf(old(tables), current, v);
      pd := EnsurePdUnder(v, table, flags);
      Chain(old(tables), old(place), t1, p1, tables, place, current, v, 0);
    }

    /** The page directory below a PDPT. */
    method EnsurePdUnder(v: VPage, pdpt: nat, flags: bv12) returns (pd: nat)
      requires Valid() && pdpt == PdptOf(tables, current, v) && pdpt in tables && place[pdpt] == L3(v.i4)
      modifies this`tables, this`place, pmm`used, pmm.bitmap
      ensures Valid() && old(pmm.used) <= pmm.used
      ensures Grown(old(tables).Keys, old(pmm.used), pmm.total, tables.Keys)
      ensures Untouched(old(tables), old(place), tables, place)
      ensures pd == 0 ==> Exhausted(pmm.used, pmm.total)
      ensures pd != 0 ==> pd == PdOf(tables, current, v) && pd in tables && place[pd] == L2(v.i4, v.i3)
      ensures PtOf(old(tables), current, v) != 0 ==>
                pd != 0 && pmm.used == old(pmm.used) && place == old(place) && PtOf(tables, current, v) == PtOf(old(tables), current, v)
      ensures pd != 0 ==>
                && tables == Linked(old(tables), pdpt, v.i3, pd, flags)
                && LinkTo(old(tables), pdpt, v.i3, pd)
    {
      WalkSteps(tables, place, current, v);
      pd := GetOrAllocTable(pdpt, v.i3, flags);
      assert tables[current][v.i4] == old(tables[current][v.i4]);
    }

    /** The part of mapping below the page directory. */
    method MapInPd(v: VPage, pd: nat, frame: nat, flags: bv12) returns (ok: bool, ghost way: Way)
      requires Valid() && pd != 0 && pd == PdOf(tables, current, v) && pd in tables && place[pd] == L2(v.i4, v.i3)
      modifies this`tables, this`place, this`lastReplaced, pmm`used, pmm.bitmap
      ensures Valid() && old(pmm.used) <= pmm.used
      ensures Grown(old(tables).Keys, old(pmm.used), pmm.total, tables.Keys)
      ensures ok ==> Mapped(old(tables), old(place), tables, place, current, v, frame)
      ensures ok ==> lastReplaced == PhysOf(Walk(old(tables), current, v))
      ensures !ok ==> Untouched(old(tables), old(place), tables, place) && lastReplaced == 0
      ensures !ok ==> Exhausted(pmm.used, pmm.total)
      ensures PtOf(old(tables), current, v) != 0 ==> ok && pmm.used == old(pmm.used) && place == old(place)
      ensures ok ==>
                && tables == Lower(old(tables), current, v, pd, way, frame, flags)
                && LowerOk(old(tables), current, v, pd, way)
    {
      lastReplaced := 0;
      WalkSteps(tables, place, current, v);
      var oldEntry := tables[pd][v.i2];
      if oldEntry.Present() {
        if oldEntry.Huge() {
          ghost var split;
          ok, split := SplitAndMap(v, pd, frame, flags);
          way := Cut(split);
          return;
        }
        SetLeaf(v, oldEntry.frame, frame, flags);
        return true, Leaf;
      }
      var pt := LinkNewPt(v, pd, flags);
      if pt == 0 {
        return false, Leaf;
      }
      ghost var t1, p1 := tables, place;
      SetLeaf(v, pt, frame, flags);
      Chain(old(tables), old(place), t1, p1, tables, place, current, v, frame);
      ok, way := true, Fresh(pt);
    }

    /** Hangs a new empty page table under an absent page-directory entry. */
    method LinkNewPt(v: VPage, pd: nat, flags: bv12) returns (pt: nat)
      requires Valid() && pd != 0 && pd == PdOf(tables, current, v) && pd in tables && place[pd] == L2(v.i4, v.i3)
      requires !tables[pd][v.i2].Present()
      modifies this`tables, this`place, pmm`used, pmm.bitmap
      ensures Valid() && old(pmm.used) <= pmm.used
      ensures Grown(old(tables).Keys, old(pmm.used), pmm.total, tables.Keys)
      ensures Untouched(old(tables), old(place), tables, place)
      ensures pt == 0 ==> Exhausted(pmm.used, pmm.total)
      ensures pt != 0 ==> pt == PtOf(tables, current, v) && pt !in old(tables)
      ensures pt != 0 ==> tables == Linked(old(tables), pd, v.i2, pt, flags)
    {
      WalkSteps(tables, place, current, v);
      pt := LinkNew(pd, v.i2, flags);
      NotHuge(flags);
    }

    /** Writes the page-table entry of `v` and records the frame it replaces. */
    method SetLeaf(v: VPage, pt: nat, frame: nat, flags: bv12)
      requires Valid() && pt != 0 && pt == PtOf(tables, current, v) && lastReplaced == 0
      modifies this`tables, this`lastReplaced
      ensures Valid() && Mapped(old(tables), place, tables, place, current, v, frame)
      ensures lastReplaced == PhysOf(Walk(old(tables), current, v))
      ensures pt in old(tables) && tables == SetEntry(old(tables), pt, v.i1, Pte(frame, 1 | flags))
    {
      WalkSteps(tables, place, current, v);
      var oldPte := tables[pt][v.i1];
      if oldPte.Present() {
        lastReplaced := oldPte.frame * 4096;
      }
      var leaf := Pte(frame, PRESENT | flags);
      LeafWriteAll(tables, place, pt, v.i1, leaf, v);
      LeafWrite(tables, place, pt, v.i1, leaf, current, v);
      LeafWriteExact(tables, place, pt, leaf, v, current);
      SetIsWrite(tables, pt, v.i1, leaf);
      tables := Write(tables, pt, v.i1, leaf);
    }

    /** Replaces the 2 MiB entry covering `v` by a page table whose other 511 entries
        spell the same frames. */
    method SplitAndMap(v: VPage, pd: nat, frame: nat, flags: bv12) returns (ok: bool, ghost pt: nat)
      requires Valid() && pd != 0 && pd == PdOf(tables, current, v) && pd in tables && place[pd] == L2(v.i4, v.i3)
      requires tables[pd][v.i2].Present() && tables[pd][v.i2].Huge() && lastReplaced == 0
      modifies this`tables, this`place, this`lastReplaced, pmm`used, pmm.bitmap
      ensures Valid() && old(pmm.used) <= pmm.used
      ensures Grown(old(tables).Keys, old(pmm.used), pmm.total, tables.Keys)
      ensures ok ==> Mapped(old(tables), old(place), tables, place, current, v, frame)
      ensures ok ==> lastReplaced == PhysOf(Walk(old(tables), current, v))
      ensures !ok ==> Untouched(old(tables), old(place), tables, place) && lastReplaced == 0
      ensures !ok ==> Exhausted(pmm.used, pmm.total)
      ensures ok ==> pt !in old(tables) && pt != 0 && tables == Split(old(tables), pd, v, pt, frame, flags)
    {
      var oldEntry := tables[pd][v.i2];
      var table := NewTable(L1(v.i4, v.i3, v.i2));
      pt := table;
      if table == 0 {
        return false, 0;
      }
      var leaf := Pte(frame, PRESENT | flags);
      var e := Pte(table, PRESENT | WRITABLE | (flags & USER));
      var u, oldPte := BuildSplit(tables, pd, v, table, e, leaf);
      if oldPte.Present() {
        lastReplaced := oldPte.frame * 4096;
      }
      NotHuge(flags);
      SplitSound(old(tables), old(place), pd, v, pt, e, leaf, current);
      Overwrite(old(tables), pt, Zeros(), SplitEntries(oldEntry)[v.i1 := leaf]);
      tables := u;
      ok := true;
    }

    /** Unmaps the page, or all 512 pages of the 2 MiB entry that covers it. */
    method Unmap(virt: nat)
      requires Valid()
      modifies this`tables
      ensures Valid() && Evolves(old(tables), place, tables, place)
      ensures Walk(tables, current, PageOfVirt(virt)) == None
      ensures !HugeAt(old(tables), current, PageOfVirt(virt)) ==>
                SameWalksExcept(old(tables), place, tables, PageOfVirt(virt))
      ensures !HugeAt(old(tables), current, PageOfVirt(virt)) ==>
                if PtOf(old(tables), current, PageOfVirt(virt)) == 0 then tables == old(tables)
                else ExactAt(old(tables), place, tables, current, PageOfVirt(virt), None)
      ensures HugeAt(old(tables), current, PageOfVirt(virt)) ==>
                && RegionCleared(old(tables), place, tables, PdOf(old(tables), current, PageOfVirt(virt)), PageOfVirt(virt).i2)
                && forall w :: Walk(tables, current, w) ==
                               if SameRegion(w, PageOfVirt(virt)) then None else Walk(old(tables), current, w)
      ensures !HugeAt(old(tables), current, PageOfVirt(virt)) ==>
                PtOf(tables, current, PageOfVirt(virt)) == PtOf(old(tables), current, PageOfVirt(virt))
      ensures var v := PageOfVirt(virt);
              tables == if HugeAt(old(tables), current, v) then SetEntry(old(tables), PdOf(old(tables), current, v), v.i2, Pte(0, 0))
                        else if PtOf(old(tables), current, v) == 0 then old(tables)
                        else SetEntry(old(tables), PtOf(old(tables), current, v), v.i1, Pte(0, 0))
    {
      var v := PageOfVirt(virt);
      WalkSteps(tables, place, current, v);
      var entry := tables[current][v.i4];
      if !entry.Present() { return; }
      var pdpt := entry.frame;
      entry := tables[pdpt][v.i3];
      if !entry.Present() { return; }
      var pd := entry.frame;
      entry := tables[pd][v.i2];
      if !entry.Present() { return; }
      if entry.Huge() {
        forall w ensures Walk(Write(tables, pd, v.i2, ZERO), current, w) ==
                         if SameRegion(w, v) then None else Walk(tables, current, w) {
          HugeClear(tables, place, pd, v.i2, current, w);
          WalkSteps(tables, place, current, w);
        }
        HugeClear(tables, place, pd, v.i2, current, v);
        HugeClearAll(tables, place, pd, v.i2);
        tables := Write(tables, pd, v.i2, ZERO);
        return;
      }
      var pt := entry.frame;
      LeafWriteAll(tables, place, pt, v.i1, ZERO, v);
      LeafWrite(tables, place, pt, v.i1, ZERO, current, v);
      LeafWriteExact(tables, place, pt, ZERO, v, current);
      tables := Write(tables, pt, v.i1, ZERO);
    }

    /** The same call, described by translations only. */
    method UnmapTranslation(virt: nat)
      requires Valid()
      modifies this`tables
      ensures Valid() && Evolves(old(tables), place, tables, place) && tables.Keys == old(tables).Keys
      ensures Walk(tables, current, PageOfVirt(virt)) == None
      ensures !HugeAt(old(tables), current, PageOfVirt(virt)) ==>
                && SameWalksExcept(old(tables), place, tables, PageOfVirt(virt))
                && PtOf(tables, current, PageOfVirt(virt)) == PtOf(old(tables), current, PageOfVirt(virt))
      ensures HugeAt(old(tables), current, PageOfVirt(virt)) ==>
                forall w :: Walk(tables, current, w) ==
                            if SameRegion(w, PageOfVirt(virt)) then None else Walk(old(tables), current, w)
    {
      Unmap(virt);
    }

    /** The space whose PML4 the current one sees through its window: itself, as boot and every
        clone set it up. */
    function Seen(): (from: nat)
      requires Walk(tables, current, WINDOW).Some?
      reads this
    {
      Walk(tables, current, WINDOW).value
    }

    /** A new space with the top-level entries of the one seen through the window, except for
        slot 511, where it gets its own window onto its own PML4. */
    method CloneKernelPml4() returns (root: nat)
      requires Valid() && Walk(tables, current, WINDOW).Some? && IsRoot(tables, place, Seen())
      modifies this`tables, this`place, pmm`used, pmm.bitmap
      ensures Valid() && Untouched(old(tables), old(place), tables, place)
      ensures root == 0 ==> tables == old(tables) && place == old(place) && pmm.used == old(pmm.used)
      ensures root != 0 ==>
                root !in old(tables) && IsRoot(tables, place, old(Seen())) && CloneOf(tables, place, old(Seen()), root)
    {
      var pdpt, pd, pt: nat;
      root, pdpt, pd, pt := AllocFour(pmm);
      if root == 0 {
        return;
      }
      AllTakenGrows(tables.Keys, old(pmm.used), pmm.total, {root, pdpt, pd, pt}, pmm.used);
      var window := Seen();
      tables, place := CloneTables(tables, window, root, pdpt, pd, pt, place);
    }

    /** Any run of map, unmap and switch steps keeps every pair of spaces translating alike
        in the PML4 slots they share. */
    method RunOps(ops: seq<Op>, roots: set<nat>)
      requires Valid() && forall r <- roots :: IsRoot(tables, place, r)
      modifies this, pmm`used, pmm.bitmap
      ensures Valid() && Evolves(old(tables), old(place), tables, place)
      ensures forall a, b, v: VPage | IsRoot(old(tables), old(place), a) && IsRoot(old(tables), old(place), b) && Shared(old(tables), a, b, v.i4) ::
                Walk(tables, a, v) == Walk(tables, b, v)
    {
      for k := 0 to |ops|
        invariant Valid() && Evolves(old(tables), old(place), tables, place)
      {
        ghost var t1, p1 := tables, place;
        match ops[k] {
          case Map(virt, phys, flags) => var _ := Map(virt, phys, flags);
          case Unmap(virt) => Unmap(virt);
          case Switch(root) =>
            if root in roots {
              Switch(root);
            }
        }
        EvolvesTransitive(old(tables), old(place), t1, p1, tables, place);
      }
      forall a, b, v: VPage | IsRoot(old(tables), old(place), a) && IsRoot(old(tables), old(place), b) && Shared(old(tables), a, b, v.i4)
        ensures Walk(tables, a, v) == Walk(tables, b, v)
      {
        SharedForever([old(tables), tables], [old(place), place], a, b, v.i4, 1);
      }
    }

    /** Clone, then any run in either space: slots present at clone time go on agreeing. */
    method CloneThenRun(ops: seq<Op>) returns (root: nat)
      requires Valid() && Walk(tables, current, WINDOW).Some? && IsRoot(tables, place, Seen())
      modifies this, pmm`used, pmm.bitmap
      ensures Valid()
      ensures root != 0 ==>
                forall v: VPage | v.i4 != 511 && Entry(old(tables), old(Seen()), v.i4).Present() ::
                  Walk(tables, old(Seen()), v) == Walk(tables, root, v)
    {
      var from := Seen();
      root := CloneKernelPml4();
      if root != 0 {
        ghost var t1, p1 := tables, place;
        assert forall i: Index | i != 511 && Entry(old(tables), from, i).Present() :: Shared(t1, from, root, i);
        RunOps(ops, {current, from, root});
      }
    }

    method Switch(root: nat)
      requires Valid() && IsRoot(tables, place, root)
      modifies this`current
      ensures Valid() && current == root
    {
      current := root;
    }

    /** The translation as the kernel reports it: a physical address, 0 when unmapped. */
    method GetPhys(virt: nat) returns (phys: nat)
      requires Valid()
      ensures phys == match Walk(tables, current, PageOfVirt(virt))
                      case None => 0
                      case Some(f) => f * 4096 + virt % 4096
    {
      var v := PageOfVirt(virt);
      var entry := Entry(tables, current, v.i4);
      if !entry.Present() { return 0; }
      entry := Entry(tables, entry.frame, v.i3);
      if !entry.Present() { return 0; }
      entry := Entry(tables, entry.frame, v.i2);
      if !entry.Present() { return 0; }
      if entry.Huge() {
        return BitOr(entry.frame, v.i1) * 4096 + virt % 4096;
      }
      entry := Entry(tables, entry.frame, v.i1);
      if !entry.Present() { return 0; }
      return entry.frame * 4096 + virt % 4096;
    }
  }

  lemma Chain(t: Tables, p: map<nat, Place>, u: Tables, q: map<nat, Place>, w: Tables, s: map<nat, Place>, root: nat, v: VPage, frame: nat)
    requires Untouched(t, p, u, q)
    ensures Untouched(u, q, w, s) ==> Untouched(t, p, w, s)
    ensures Mapped(u, q, w, s, root, v, frame) ==> Mapped(t, p, w, s, root, v, frame)
  {
    if Evolves(u, q, w, s) {
      EvolvesTransitive(t, p, u, q, w, s);
    }
    if Mapped(u, q, w, s, root, v, frame) {
      forall r | IsRoot(t, p, r)
        ensures Walk(w, r, v) == if PtOf(w, r, v) == PtOf(w, root, v) then Some(frame) else Walk(t, r, v)
      {
        assert IsRoot(u, q, r) && Walk(u, r, v) == Walk(t, r, v);
      }
    }
  }

  lemma FreshEvolves(t: Tables, place: map<nat, Place>, n: nat, s: seq<Pte>, p: Place)
    requires n !in t
    ensures Evolves(t, place, t[n := s], place[n := p])
  {
  }

  lemma WriteEvolves(t: Tables, place: map<nat, Place>, x: nat, i: Index, e: Pte)
    requires WellFormed(t, place) && x in t
    requires place[x].Root? && t[x][i].Present() ==> e.Present() && e.frame == t[x][i].frame
    ensures Evolves(t, place, Write(t, x, i, e), place)
  {
  }

  lemma FlagWriteAll(t: Tables, place: map<nat, Place>, x: nat, i: Index, e: Pte)
    requires WellFormed(t, place) && x in t && !place[x].L1?
    requires t[x][i].Present() && !t[x][i].Huge()
    requires e.Present() && !e.Huge() && e.frame == t[x][i].frame
    ensures Untouched(t, place, Write(t, x, i, e), place)
  {
    assert EntryOk(place, place[x], i, t[x][i]);
    WriteKeepsForm(t, place, x, i, e);
    WriteEvolves(t, place, x, i, e);
    forall r, v | IsRoot(t, place, r)
      ensures Walk(Write(t, x, i, e), r, v) == Walk(t, r, v)
    {
      FlagWrite(t, place, x, i, e, r, v);
    }
  }

  lemma LinkEmptyAll(t: Tables, place: map<nat, Place>, x: nat, i: Index, e: Pte)
    requires WellFormed(t, place) && x in t && !place[x].L1? && !t[x][i].Present()
    requires e.Present() && !e.Huge() && e.frame in t && place[e.frame] == Child(place[x], i)
    requires t[e.frame] == Zeros()
    ensures Untouched(t, place, Write(t, x, i, e), place)
  {
    WriteKeepsForm(t, place, x, i, e);
    WriteEvolves(t, place, x, i, e);
    forall r, v | IsRoot(t, place, r)
      ensures Walk(Write(t, x, i, e), r, v) == Walk(t, r, v)
    {
      LinkEmpty(t, place, x, i, e, r, v);
    }
  }

  function Cloned(t: Tables, from: nat, root: nat, pdpt: nat, pd: nat, pt: nat): Tables
    requires from in t && |t[from]| == 512
  {
    t[root := t[from][511 := Pte(pdpt, PRESENT | WRITABLE)]]
     [pdpt := Zeros()[0 := Pte(pd, PRESENT | WRITABLE)]]
     [pd := Zeros()[0 := Pte(pt, PRESENT | WRITABLE)]]
     [pt := Zeros()[0 := Pte(root, PRESENT | WRITABLE)]]
  }

  ghost function ClonedPlaces(place: map<nat, Place>, root: nat, pdpt: nat, pd: nat, pt: nat): map<nat, Place>
  {
    place[root := Root][pdpt := L3(511)][pd := L2(511, 0)][pt := L1(511, 0, 0)]
  }

  lemma CloneSound(t: Tables, place: map<nat, Place>, from: nat, root: nat, pdpt: nat, pd: nat, pt: nat)
    requires CloneInput(t, place, from, root, pdpt, pd, pt)
    ensures var u := Cloned(t, from, root, pdpt, pd, pt);
            && Untouched(t, place, u, ClonedPlaces(place, root, pdpt, pd, pt))
            && u.Keys == t.Keys + {root, pdpt, pd, pt}
            && CloneOf(u, ClonedPlaces(place, root, pdpt, pd, pt), from, root)
  {
    CloneForm(t, place, from, root, pdpt, pd, pt);
    CloneOldWalks(t, place, from, root, pdpt, pd, pt);
    CloneNewWalks(t, place, from, root, pdpt, pd, pt);
  }

  ghost predicate CloneInput(t: Tables, place: map<nat, Place>, from: nat, root: nat, pdpt: nat, pd: nat, pt: nat)
  {
    && WellFormed(t, place) && IsRoot(t, place, from)
    && root !in t && pdpt !in t && pd !in t && pt !in t && root != 0 && pdpt != 0 && pd != 0 && pt != 0
    && root != pdpt && root != pd && root != pt && pdpt != pd && pdpt != pt && pd != pt
  }

  lemma CloneForm(t: Tables, place: map<nat, Place>, from: nat, root: nat, pdpt: nat, pd: nat, pt: nat)
    requires CloneInput(t, place, from, root, pdpt, pd, pt)
    ensures WellFormed(Cloned(t, from, root, pdpt, pd, pt), ClonedPlaces(place, root, pdpt, pd, pt))
  {
    var u, place' := Cloned(t, from, root, pdpt, pd, pt), ClonedPlaces(place, root, pdpt, pd, pt);
    forall x, i: nat | x in u && i < 512
      ensures EntryOk(place', place'[x], i, u[x][i])
    {
      if x in t {
        assert EntryOk(place, place[x], i, t[x][i]);
      } else if x == root && i != 511 {
        assert EntryOk(place, place[from], i, t[from][i]);
      }
    }
  }

  lemma CloneOldWalks(t: Tables, place: map<nat, Place>, from: nat, root: nat, pdpt: nat, pd: nat, pt: nat)
    requires CloneInput(t, place, from, root, pdpt, pd, pt)
    ensures SameWalks(t, place, Cloned(t, from, root, pdpt, pd, pt))
  {
    var u := Cloned(t, from, root, pdpt, pd, pt);
    forall r, v | IsRoot(t, place, r)
      ensures Walk(u, r, v) == Walk(t, r, v)
    {
      WalkSteps(t, place, r, v);
      assert forall x, i: nat | x in t :: Entry(u, x, i) == Entry(t, x, i);
    }
  }

  lemma CloneNewWalks(t: Tables, place: map<nat, Place>, from: nat, root: nat, pdpt: nat, pd: nat, pt: nat)
    requires CloneInput(t, place, from, root, pdpt, pd, pt)
    ensures var u := Cloned(t, from, root, pdpt, pd, pt);
            && (forall i: Index | i != 511 :: Entry(u, root, i) == Entry(u, from, i))
            && Walk(u, root, WINDOW) == Some(root)
            && (forall v: VPage | v.i4 == 511 && v != WINDOW :: Walk(u, root, v) == None)
  {
    var u := Cloned(t, from, root, pdpt, pd, pt);
    var e4, e3, e2, e1 := u[root][511], u[pdpt][0], u[pd][0], u[pt][0];
    assert e4 == Pte(pdpt, PRESENT | WRITABLE) && e3 == Pte(pd, PRESENT | WRITABLE);
    assert e2 == Pte(pt, PRESENT | WRITABLE) && e1 == Pte(root, PRESENT | WRITABLE);
  }

  /** LeafWrite for every space and page at once. */
  lemma LeafWriteAll(t: Tables, place: map<nat, Place>, x: nat, i: Index, e: Pte, v: VPage)
    requires WellFormed(t, place) && x in t && place[x] == L1(v.i4, v.i3, v.i2) && i == v.i1
    ensures WellFormed(Write(t, x, i, e), place) && Evolves(t, place, Write(t, x, i, e), place)
    ensures SameWalksExcept(t, place, Write(t, x, i, e), v)
  {
    WriteKeepsForm(t, place, x, i, e);
    WriteEvolves(t, place, x, i, e);
    forall r, w | IsRoot(t, place, r) && w != v
      ensures Walk(Write(t, x, i, e), r, w) == Walk(t, r, w)
    {
      LeafWrite(t, place, x, i, e, r, w);
      WalkSteps(t, place, r, w);
    }
  }

  lemma HugeClearAll(t: Tables, place: map<nat, Place>, pd: nat, i: Index)
    requires WellFormed(t, place) && pd in t && place[pd].L2? && t[pd][i].Present() && t[pd][i].Huge()
    ensures RegionCleared(t, place, Write(t, pd, i, ZERO), pd, i)
  {
    forall r, w | IsRoot(t, place, r)
      ensures Walk(Write(t, pd, i, ZERO), r, w) == if PdOf(t, r, w) == pd && w.i2 == i then None else Walk(t, r, w)
    {
      HugeClear(t, place, pd, i, r, w);
    }
  }

  /** The page whose entry is written, in every space. */
  lemma LeafWriteExact(t: Tables, place: map<nat, Place>, x: nat, e: Pte, v: VPage, root: nat)
    requires WellFormed(t, place) && x in t && place[x] == L1(v.i4, v.i3, v.i2)
    requires IsRoot(t, place, root) && PtOf(t, root, v) == x
    ensures ExactAt(t, place, Write(t, x, v.i1, e), root, v, if e.Present() then Some(e.frame) else None)
    ensures PtOf(Write(t, x, v.i1, e), root, v) == x
  {
    var u := Write(t, x, v.i1, e);
    forall r | IsRoot(t, place, r) ensures PtOf(u, r, v) == PtOf(t, r, v) {
      WalkSteps(t, place, r, v);
    }
    WalkSteps(t, place, root, v);
    forall r | IsRoot(t, place, r)
      ensures Walk(u, r, v) == if PtOf(u, r, v) == PtOf(u, root, v) then (if e.Present() then Some(e.frame) else None) else Walk(t, r, v)
    {
      LeafWrite(t, place, x, v.i1, e, r, v);
    }
  }

  /** Linking a filled page table in place of a 2 MiB entry, for every space and page. */
  lemma SplitSound(t: Tables, place: map<nat, Place>, pd: nat, v: VPage, pt: nat, e: Pte, leaf: Pte, root: nat)
    requires WellFormed(t, place) && pd in t && place[pd] == L2(v.i4, v.i3) && IsRoot(t, place, root)
    requires t[pd][v.i2].Present() && t[pd][v.i2].Huge()
    requires pt !in t && pt != 0 && e.frame == pt && e.Present() && !e.Huge() && leaf.Present()
    requires PdOf(t, root, v) == pd
    ensures var u := Write(t[pt := SplitEntries(t[pd][v.i2])[v.i1 := leaf]], pd, v.i2, e);
            && Mapped(t, place, u, place[pt := L1(v.i4, v.i3, v.i2)], root, v, leaf.frame)
            && Walk(t, root, v) == Some(SplitEntries(t[pd][v.i2])[v.i1].frame)
            && SplitEntries(t[pd][v.i2])[v.i1].Present()
  {
    var s := SplitEntries(t[pd][v.i2])[v.i1 := leaf];
    var u, place' := t[pt := s], place[pt := L1(v.i4, v.i3, v.i2)];
    UnlinkedTable(t, place, pt, s, L1(v.i4, v.i3, v.i2));
    forall r, w | IsRoot(t, place, r)
      ensures Walk(Write(u, pd, v.i2, e), r, w) ==
              if PdOf(t, r, w) == pd && w.i2 == v.i2 && w.i1 == v.i1 then Some(leaf.frame) else Walk(t, r, w)
    {
      WalkSteps(t, place, r, w);
      LinkSplit(u, place', pd, v.i2, e, v.i1, leaf, r, w);
    }
    forall r, w | IsRoot(t, place, r) && w != v
      ensures Walk(Write(u, pd, v.i2, e), r, w) == Walk(t, r, w)
    {
      WalkSteps(t, place, r, w);
    }
    forall r | IsRoot(t, place, r)
      ensures PtOf(Write(u, pd, v.i2, e), r, v) == if PdOf(t, r, v) == pd then pt else PtOf(t, r, v)
      ensures PtOf(t, r, v) != pt
    {
      WalkSteps(t, place, r, v);
    }
    WriteKeepsForm(u, place', pd, v.i2, e);
    WriteEvolves(u, place', pd, v.i2, e);
    FreshEvolves(t, place, pt, s, L1(v.i4, v.i3, v.i2));
    EvolvesTransitive(t, place, u, place', Write(u, pd, v.i2, e), place');
    WalkSteps(t, place, root, v);
    FlagSplit(t[pd][v.i2].flags);
  }

  lemma FlagSplit(flags: bv12)
    ensures (flags & !HUGE) & PRESENT == flags & PRESENT
  {
  }

  /** A table that nothing points to yet, whatever it holds, changes no walk. */
  lemma UnlinkedTable(t: Tables, place: map<nat, Place>, n: nat, s: seq<Pte>, p: Place)
    requires WellFormed(t, place) && n !in t && n != 0 && |s| == 512 && p.L1?
    ensures WellFormed(t[n := s], place[n := p])
    ensures forall r, v | IsRoot(t, place, r) ::
              Walk(t[n := s], r, v) == Walk(t, r, v) && PdOf(t[n := s], r, v) == PdOf(t, r, v) && PtOf(t[n := s], r, v) == PtOf(t, r, v) != n
  {
    var u, place' := t[n := s], place[n := p];
    forall x, i: nat | x in u && i < 512
      ensures EntryOk(place', place'[x], i, u[x][i])
    {
      if x != n {
        assert EntryOk(place, place[x], i, t[x][i]);
      }
    }
    forall r, v | IsRoot(t, place, r)
      ensures Walk(u, r, v) == Walk(t, r, v) && PdOf(u, r, v) == PdOf(t, r, v) && PtOf(u, r, v) == PtOf(t, r, v) != n
    {
      WalkSteps(t, place, r, v);
      WalkSteps(u, place', r, v);
      assert PdptOf(u, r, v) == PdptOf(t, r, v);
      assert PdOf(u, r, v) == PdOf(t, r, v);
      assert PtOf(u, r, v) == PtOf(t, r, v);
    }
  }
}
