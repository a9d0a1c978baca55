/** The page-fault handlers: demand installation and copy-on-write resolution. */
module PageFault {
  import opened Common
  import opened PageTables
  import opened MapEntries
  import opened Vmm
  import opened UserMemory

  function FrameByte(ram: Memory, frame: nat, off: nat): bv8
  {
    Peek(ram, frame * 4096 + off)
  }

  lemma FrameByteUpdate(ram: Memory, f: nat, i: nat, x: bv8, g: nat, j: nat)
    requires i < 4096 && j < 4096
    ensures FrameByte(ram[f * 4096 + i := x], g, j) == if f == g && i == j then x else FrameByte(ram, g, j)
  {
    if f != g {
      FramesApart(f, g, i, j);
    }
  }

  /** The byte seen at one offset of a virtual page. */
  function View(t: Tables, root: nat, ram: Memory, v: VPage, off: nat): Option<bv8>
  {
    match Walk(t, root, v)
    case None => None
    case Some(f) => Some(FrameByte(ram, f, off))
  }

  /** Every virtual byte looks as before, except those that were on frame `newFrame`, which show
      the copy of frame `from`. */
  ghost predicate CopiedView(t: Tables, ram: Memory, u: Tables, ram': Memory, root: nat, from: nat, newFrame: nat)
  {
    forall w, off: nat | off < 4096 ::
      View(u, root, ram', w, off) ==
        if Walk(t, root, w) == Some(newFrame) then Some(FrameByte(ram, from, off)) else View(t, root, ram, w, off)
  }

  /** Frame `f` holds the same bytes. */
  ghost predicate SameFrame(ram: Memory, ram': Memory, f: nat)
  {
    forall i: nat | i < 4096 :: FrameByte(ram', f, i) == FrameByte(ram, f, i)
  }

  lemma SameFrameTwice(a: Memory, b: Memory, c: Memory, f: nat)
    requires SameFrame(a, b, f) && SameFrame(b, c, f)
    ensures SameFrame(a, c, f)
  {
    forall i: nat | i < 4096 ensures FrameByte(c, f, i) == FrameByte(a, f, i) {
      assert FrameByte(c, f, i) == FrameByte(b, f, i) == FrameByte(a, f, i);
    }
  }

  /** Memory differs at most on frame `f`, which holds a copy of frame `from`. */
  ghost predicate Copied(ram: Memory, ram': Memory, from: nat, f: nat)
  {
    && (forall i: nat | i < 4096 :: FrameByte(ram', f, i) == FrameByte(ram, from, i))
    && (forall g: nat, i: nat | g != f && i < 4096 :: FrameByte(ram', g, i) == FrameByte(ram, g, i))
  }

  method CopyFrame(ram: Memory, src: nat, dst: nat) returns (after: Memory)
    requires src % 4096 == 0
    ensures Copied(ram, after, src / 4096, dst)
  {
    after := ram;
    ghost var from := src / 4096;
    for i := 0 to 4096
      invariant forall k: nat | k < i :: FrameByte(after, dst, k) == FrameByte(ram, from, k)
      invariant forall k: nat | i <= k < 4096 :: FrameByte(after, dst, k) == FrameByte(ram, dst, k)
      invariant forall g: nat, k: nat | g != dst && k < 4096 :: FrameByte(after, g, k) == FrameByte(ram, g, k)
    {
      var x := Peek(after, src + i);
      assert x == FrameByte(after, from, i);
      forall g: nat, k: nat | k < 4096
        ensures FrameByte(after[dst * 4096 + i := x], g, k) == if dst == g && i == k then x else FrameByte(after, g, k)
      {
        FrameByteUpdate(after, dst, i, x, g, k);
      }
      after := after[dst * 4096 + i := x];
    }
  }

  /** Replacing the frame behind one page by a copy keeps what every page shows; a page that was
      already on the new frame shows the copy. */
  lemma CopyIsTransparent(t: Tables, place: map<nat, Place>, u: Tables, root: nat, v: VPage, from: nat, newFrame: nat, ram: Memory, ram': Memory)
    requires IsRoot(t, place, root) && Walk(t, root, v) == Some(from) && Walk(u, root, v) == Some(newFrame)
    requires SameWalksExcept(t, place, u, v) && Copied(ram, ram', from, newFrame)
    ensures CopiedView(t, ram, u, ram', root, from, newFrame)
  {
    forall w, off: nat | off < 4096
      ensures View(u, root, ram', w, off) ==
                if Walk(t, root, w) == Some(newFrame) then Some(FrameByte(ram, from, off)) else View(t, root, ram, w, off)
    {
      assert w != v ==> Walk(u, root, w) == Walk(t, root, w);
    }
  }

  /** Gives a shared page its own copy of the frame.  On a page with a 4 KiB entry it fails
      only when the page is unmapped, no frame is left, or the flags are not allowed there;
      what every virtual address shows is kept, except that one already on the new frame shows
      the copy.  On a page inside a 2 MiB entry the other
      511 pages lose their mapping. */
  method CowResolve(vm: AddressSpaces, virt: nat, flags: bv12) returns (ok: bool, newFrame: nat)
    requires vm.Valid() && virt % 4096 == 0
    modifies vm`tables, vm`place, vm`lastReplaced, vm`ram, vm.pmm`used, vm.pmm.bitmap
    ensures vm.Valid()
    ensures ok ==>
              && !Taken(old(vm.pmm.used), vm.pmm.total, newFrame)
              && Walk(old(vm.tables), vm.current, PageOfVirt(virt)).Some?
              && Walk(vm.tables, vm.current, PageOfVirt(virt)) == Some(newFrame)
              && Copied(old(vm.ram), vm.ram, Walk(old(vm.tables), vm.current, PageOfVirt(virt)).value, newFrame)
    ensures ok && !HugeAt(old(vm.tables), vm.current, PageOfVirt(virt)) ==>
              && SameWalksExcept(old(vm.tables), old(vm.place), vm.tables, PageOfVirt(virt))
              && CopiedView(old(vm.tables), old(vm.ram), vm.tables, vm.ram, vm.current,
                            Walk(old(vm.tables), vm.current, PageOfVirt(virt)).value, newFrame)
    ensures HugeAt(old(vm.tables), vm.current, PageOfVirt(virt)) && newFrame != 0 ==>
              RegionLost(old(vm.tables), vm.tables, vm.current, PageOfVirt(virt), if ok then Some(newFrame) else None)
    ensures newFrame == 0 <==> Phys(old(vm.tables), vm.current, virt) == 0 || Exhausted(old(vm.pmm.used), vm.pmm.total)
    ensures ok && flags & 4 != 0 ==> 0x400000 <= virt < 0x800000
    ensures !ok && newFrame != 0 && (flags & 4 == 0 || 0x400000 <= virt < 0x800000) ==>
              HugeAt(old(vm.tables), vm.current, PageOfVirt(virt)) && Exhausted(vm.pmm.used + Pages(newFrame), vm.pmm.total)
    ensures Phys(old(vm.tables), vm.current, virt) == 0 || Exhausted(old(vm.pmm.used), vm.pmm.total) ==>
              !ok && vm.tables == old(vm.tables) && vm.ram == old(vm.ram) && vm.pmm.used == old(vm.pmm.used)
    ensures flags & 4 != 0 && !(0x400000 <= virt < 0x800000) && Phys(old(vm.tables), vm.current, virt) != 0 && !Exhausted(old(vm.pmm.used), vm.pmm.total) ==>
              !ok && vm.pmm.used == old(vm.pmm.used) && Phys(vm.tables, vm.current, virt) == 0
  {
    newFrame := 0;
    var phys := vm.GetPhys(virt);
    if phys == 0 {
      return false, 0;
    }
    newFrame := vm.AllocFrame();
    if newFrame == 0 {
      return false, 0;
    }
    vm.ram := CopyFrame(vm.ram, phys, newFrame);
    ok := Replace(vm, virt, newFrame, flags);
    if ok && !HugeAt(old(vm.tables), vm.current, PageOfVirt(virt)) {
      CopyIsTransparent(old(vm.tables), old(vm.place), vm.tables, vm.current, PageOfVirt(virt), phys / 4096, newFrame, old(vm.ram), vm.ram);
    }
  }

  /** Page `v` translates to `page`, the other pages of its 2 MiB region to nothing, and all
      pages outside it as before. */
  ghost predicate RegionLost(t: Tables, u: Tables, root: nat, v: VPage, page: Option<nat>)
  {
    forall w :: Walk(u, root, w) == if w == v then page else if SameRegion(w, v) then None else Walk(t, root, w)
  }

  lemma RegionThen(t: Tables, u: Tables, q: map<nat, Place>, w: Tables, s: map<nat, Place>, root: nat, v: VPage, frame: nat)
    requires IsRoot(u, q, root)
    ensures RegionLost(t, u, root, v, None) && Mapped(u, q, w, s, root, v, frame) ==> RegionLost(t, w, root, v, Some(frame))
    ensures RegionLost(t, u, root, v, None) && Untouched(u, q, w, s) ==> RegionLost(t, w, root, v, None)
  {
  }

  /** Unmaps the page and maps it to the new frame; gives the frame back when that fails. */
  method Replace(vm: AddressSpaces, virt: nat, newFrame: nat, flags: bv12) returns (ok: bool)
    requires vm.Valid() && Walk(vm.tables, vm.current, PageOfVirt(virt)).Some?
    requires BASE_FRAME <= newFrame < BASE_FRAME + vm.pmm.total && newFrame < FRAMES
    requires newFrame - BASE_FRAME in vm.pmm.used && newFrame !in vm.tables
    modifies vm`tables, vm`place, vm`lastReplaced, vm.pmm`used, vm.pmm.bitmap
    ensures vm.Valid()
    ensures ok ==> Walk(vm.tables, vm.current, PageOfVirt(virt)) == Some(newFrame)
    ensures ok && !HugeAt(old(vm.tables), vm.current, PageOfVirt(virt)) ==>
              SameWalksExcept(old(vm.tables), old(vm.place), vm.tables, PageOfVirt(virt))
    ensures HugeAt(old(vm.tables), vm.current, PageOfVirt(virt)) ==>
              RegionLost(old(vm.tables), vm.tables, vm.current, PageOfVirt(virt), if ok then Some(newFrame) else None)
    ensures !ok ==> !Allowed(virt, flags)
                    || (HugeAt(old(vm.tables), vm.current, PageOfVirt(virt)) && Exhausted(vm.pmm.used + Pages(newFrame), vm.pmm.total))
    ensures !Allowed(virt, flags) ==>
              && !ok && vm.pmm.used == old(vm.pmm.used) - {newFrame - BASE_FRAME}
              && Walk(vm.tables, vm.current, PageOfVirt(virt)) == None
  {
    WalkSteps(vm.tables, vm.place, vm.current, PageOfVirt(virt));
    vm.UnmapTranslation(virt);
    assert FrameOfPhys(newFrame * 4096) == newFrame;
    assert Taken(vm.pmm.used, vm.pmm.total, newFrame);
    ghost var keys, used := vm.tables.Keys, vm.pmm.used;
    ghost var t1, p1 := vm.tables, vm.place;
    ok := vm.MapTranslation(virt, newFrame * 4096, flags);
    RegionThen(old(vm.tables), t1, p1, vm.tables, vm.place, vm.current, PageOfVirt(virt), newFrame);
    if !ok {
      StaysOut(keys, used, vm.pmm.total, vm.tables.Keys, newFrame);
      GiveFrame(vm.pmm, newFrame);
    }
  }

  /** A store of some bytes at an offset of the page. */
  datatype Store = Store(off: nat, data: seq<bv8>)

  /** After a resolved write fault no run of stores through the page reaches the old frame. */
  method CowThenWrite(vm: AddressSpaces, virt: nat, flags: bv12, stores: seq<Store>) returns (ok: bool)
    requires vm.Valid() && virt % 4096 == 0 && virt < USER_ADDR_END
    requires forall s <- stores :: s.off + |s.data| <= 4096
    requires Walk(vm.tables, vm.current, PageOfVirt(virt)).Some?
    requires Taken(vm.pmm.used, vm.pmm.total, Walk(vm.tables, vm.current, PageOfVirt(virt)).value)
    modifies vm`tables, vm`place, vm`lastReplaced, vm`ram, vm.pmm`used, vm.pmm.bitmap
    ensures ok ==> SameFrame(old(vm.ram), vm.ram, Walk(old(vm.tables), vm.current, PageOfVirt(virt)).value)
  {
    ghost var from := Walk(vm.tables, vm.current, PageOfVirt(virt)).value;
    var newFrame: nat;
    ok, newFrame := CowResolve(vm, virt, flags);
    if ok {
      assert newFrame != from && SameFrame(old(vm.ram), vm.ram, from);
      ghost var tables := vm.tables;
      for i := 0 to |stores|
        invariant vm.Valid() && vm.tables == tables && SameFrame(old(vm.ram), vm.ram, from)
      {
        ghost var ram1 := vm.ram;
        assert stores[i] in stores;
        StoreOnPage(vm, virt, stores[i], newFrame, from);
        SameFrameTwice(old(vm.ram), ram1, vm.ram, from);
      }
    }
  }

  /** One store through a page leaves every other frame alone. */
  method StoreOnPage(vm: AddressSpaces, virt: nat, s: Store, ghost frame: nat, ghost other: nat)
    requires vm.Valid() && virt % 4096 == 0 && virt < USER_ADDR_END && s.off + |s.data| <= 4096
    requires Walk(vm.tables, vm.current, PageOfVirt(virt)) == Some(frame) && frame != other && frame != 0
    modifies vm`ram
    ensures vm.Valid() && SameFrame(old(vm.ram), vm.ram, other)
  {
    ghost var ram1 := vm.ram;
    var stored, n := CopyToUser(vm, virt + s.off, s.data);
    StoreKeeps(vm.tables, vm.current, ram1, virt, s, n, frame, other, vm.ram);
  }

  lemma StoreKeeps(t: Tables, root: nat, ram: Memory, virt: nat, s: Store, n: nat, frame: nat, other: nat,
                   after: Memory)
    requires virt % 4096 == 0 && s.off + |s.data| <= 4096 && n <= |s.data|
    requires Walk(t, root, PageOfVirt(virt)) == Some(frame) && frame != other && frame != 0
    requires after == Stored(t, root, ram, virt + s.off, s.data, n)
    ensures SameFrame(ram, after, other)
  {
    TranslationPageLinear(t, root);
    assert Translation(t, root)(virt) == frame * 4096;
    StoresStayOnPage(Translation(t, root), ram, virt, s.off, s.data, n, frame, other);
  }

  lemma StoresStayOnPage(tr: nat -> nat, ram: Memory, virt: nat, off: nat, data: seq<bv8>, n: nat, newFrame: nat, from: nat)
    requires virt % 4096 == 0 && off + |data| <= 4096 && n <= |data|
    requires PageLinear(tr) && tr(virt) == newFrame * 4096 && newFrame != from && newFrame != 0
    ensures SameFrame(ram, CopyOut(tr, ram, virt + off, data, n), from)
  {
    forall i: nat | i < 4096
      ensures FrameByte(CopyOut(tr, ram, virt + off, data, n), from, i) == FrameByte(ram, from, i)
    {
      forall a: nat | virt + off <= a < virt + off + n ensures tr(a) != from * 4096 + i {
        assert a / 4096 == virt / 4096;
        assert tr(a) == newFrame * 4096 + (a - virt);
        FramesApart(newFrame, from, a - virt, i);
      }
      CopyOutFrame(tr, ram, virt + off, data, n, from * 4096 + i);
    }
  }

  /** Installs a zeroed frame at an unmapped page; nothing else changes, and a failed call
      gives the frame back. */
  method DemandInstall(vm: AddressSpaces, virt: nat, flags: bv12) returns (ok: bool, newFrame: nat)
    requires vm.Valid()
    modifies vm`tables, vm`place, vm`lastReplaced, vm`ram, vm.pmm`used, vm.pmm.bitmap
    ensures vm.Valid()
    ensures ok ==>
              && !Taken(old(vm.pmm.used), vm.pmm.total, newFrame)
              && Mapped(old(vm.tables), old(vm.place), vm.tables, vm.place, vm.current, PageOfVirt(virt), newFrame)
              && Zeroed(old(vm.ram), vm.ram, newFrame)
    ensures ok ==> EntriesAfter(old(vm.tables), vm.tables, vm.current, PageOfVirt(virt), newFrame, flags)
    ensures !ok ==> Untouched(old(vm.tables), old(vm.place), vm.tables, vm.place)
    ensures ok && flags & 4 != 0 ==> 0x400000 <= virt < 0x800000
    ensures !ok && (flags & 4 == 0 || 0x400000 <= virt < 0x800000) ==>
              newFrame == 0 || Exhausted(vm.pmm.used + Pages(newFrame), vm.pmm.total)
    ensures newFrame == 0 <==> Exhausted(old(vm.pmm.used), vm.pmm.total)
    ensures newFrame == 0 ==> vm.tables == old(vm.tables) && vm.ram == old(vm.ram) && vm.pmm.used == old(vm.pmm.used)
    ensures !ok && newFrame != 0 ==> BASE_FRAME <= newFrame && newFrame - BASE_FRAME !in vm.pmm.used
  {
    newFrame := vm.AllocFrame();
    if newFrame == 0 {
      return false, 0;
    }
    vm.ram := FillFrame(vm.ram, newFrame, 0);
    ok := MapOrGive(vm, virt, newFrame, flags);
  }

  /** Maps a page to a frame that was taken for it; gives the frame back when that fails. */
  method MapOrGive(vm: AddressSpaces, virt: nat, frame: nat, flags: bv12) returns (ok: bool)
    requires vm.Valid() && BASE_FRAME <= frame < BASE_FRAME + vm.pmm.total && frame < FRAMES
    requires frame - BASE_FRAME in vm.pmm.used && frame !in vm.tables
    modifies vm`tables, vm`place, vm`lastReplaced, vm.pmm`used, vm.pmm.bitmap
    ensures vm.Valid()
    ensures ok ==>
              && Mapped(old(vm.tables), old(vm.place), vm.tables, vm.place, vm.current, PageOfVirt(virt), frame)
              && EntriesAfter(old(vm.tables), vm.tables, vm.current, PageOfVirt(virt), frame, flags)
    ensures !ok ==> Untouched(old(vm.tables), old(vm.place), vm.tables, vm.place)
    ensures ok && flags & 4 != 0 ==> 0x400000 <= virt < 0x800000
    ensures !ok && (flags & 4 == 0 || 0x400000 <= virt < 0x800000) ==> Exhausted(vm.pmm.used + Pages(frame), vm.pmm.total)
    ensures !ok ==> frame - BASE_FRAME !in vm.pmm.used
  {
    assert FrameOfPhys(frame * 4096) == frame;
    assert Taken(vm.pmm.used, vm.pmm.total, frame);
    ok := vm.Map(virt, frame * 4096, flags);
    if !ok {
      assert frame !in vm.tables;
      GiveFrame(vm.pmm, frame);
    }
  }

  /** Frame `f` holds zeros; every other frame is as before. */
  ghost predicate Zeroed(ram: Memory, ram': Memory, f: nat)
  {
    Filled(ram, ram', f, 4096, 0)
  }

  ghost predicate Filled(ram: Memory, ram': Memory, f: nat, n: nat, x: bv8)
  {
    && (forall i: nat | i < n :: FrameByte(ram', f, i) == x)
    && (forall g: nat, i: nat | g != f && i < 4096 :: FrameByte(ram', g, i) == FrameByte(ram, g, i))
  }

  method FillFrame(ram: Memory, f: nat, x: bv8) returns (after: Memory)
    ensures Filled(ram, after, f, 4096, x)
  {
    after := ram;
    for i := 0 to 4096
      invariant Filled(ram, after, f, i, x)
    {
      forall g: nat, k: nat | k < 4096
        ensures FrameByte(after[f * 4096 + i := x], g, k) == if f == g && i == k then x else FrameByte(after, g, k)
      {
        FrameByteUpdate(after, f, i, x, g, k);
      }
      ghost var before := after;
      after := after[f * 4096 + i := x];
      forall k: nat | k < i + 1 ensures FrameByte(after, f, k) == x {
        assert FrameByte(after, f, k) == if i == k then x else FrameByte(before, f, k);
      }
    }
  }
}
