/** Bytes seen through the page tables: the page-chunked user copies and the
    user-range check. */
module UserMemory {
  import opened Common
  import opened PageTables
  import opened Vmm

  const WORD: nat := 0x1_0000_0000_0000_0000

  type Memory = map<nat, bv8>

  function Peek(ram: Memory, addr: nat): bv8
  {
    if addr in ram then ram[addr] else 0
  }

  /** The physical address of a virtual one, 0 when unmapped. */
  function Phys(t: Tables, root: nat, virt: nat): nat
  {
    match Walk(t, root, PageOfVirt(virt))
    case None => 0
    case Some(f) => f * 4096 + virt % 4096
  }

  /** An address space as a function from virtual to physical addresses. */
  ghost function Translation(t: Tables, root: nat): nat -> nat
  {
    (virt: nat) => Phys(t, root, virt)
  }

  ghost predicate Links(t: Tables, root: nat, tr: nat -> nat)
  {
    forall a: nat {:trigger Phys(t, root, a)} :: Phys(t, root, a) == tr(a)
  }

  /** Within one page, physical addresses advance with virtual ones. */
  ghost predicate PageLinear(tr: nat -> nat)
  {
    forall a: nat, b: nat {:trigger tr(a), tr(b)} | a <= b && a / 4096 == b / 4096 && tr(a) != 0 :: tr(b) == tr(a) + (b - a)
  }

  lemma TranslationPageLinear(t: Tables, root: nat)
    ensures PageLinear(Translation(t, root))
  {
    forall a: nat, b: nat | a <= b && a / 4096 == b / 4096
      ensures PageOfVirt(a) == PageOfVirt(b)
    {
      PageOfVirtInjective(a, b);
    }
  }

  /** The user-range test, with its 64-bit wrap-around. */
  predicate RangeOk(addr: nat, len: nat)
  {
    USER_ADDR_START <= addr && addr <= (addr + len) % WORD <= USER_ADDR_END
  }

  /** The test accepts exactly the ranges between 4 MiB and 8 MiB; a sum that wraps is refused. */
  lemma RangeOkIff(addr: nat, len: nat)
    requires addr < 0x1_0000_0000_0000_0000 && len < 0x1_0000_0000_0000_0000
    ensures RangeOk(addr, len) <==> 0x400000 <= addr && addr + len <= 0x800000
  {
  }

  /** Every byte of a range has a physical address. */
  ghost predicate Reachable(tr: nat -> nat, addr: nat, len: nat)
  {
    forall a: nat | addr <= a < addr + len :: tr(a) != 0
  }

  method Translate(vm: AddressSpaces, ghost tr: nat -> nat, virt: nat) returns (phys: nat)
    requires vm.Valid() && Links(vm.tables, vm.current, tr)
    ensures phys == tr(virt)
  {
    phys := vm.GetPhys(virt);
    assert Phys(vm.tables, vm.current, virt) == tr(virt);
  }

  // ---------------------------------------------------------------- copying in

  /** Copies `chunk` bytes of one page. */
  method ChunkIn(ram: Memory, phys: nat, dst: array<bv8>, off: nat, chunk: nat)
    requires off + chunk <= dst.Length
    modifies dst
    ensures forall i: nat | i < dst.Length ::
              dst[i] == if off <= i < off + chunk then Peek(ram, phys + (i - off)) else old(dst[i])
  {
    for i := 0 to chunk
      invariant forall k: nat | k < dst.Length ::
                  dst[k] == if off <= k < off + i then Peek(ram, phys + (k - off)) else old(dst[k])
    {
      dst[off + i] := Peek(ram, phys + i);
    }
  }

  /** The length of the piece that stays on the page of `addr`. */
  function Chunk(addr: nat, left: nat): (n: nat)
    requires left > 0
    ensures 0 < n <= left && forall a: nat | addr <= a < addr + n :: a / 4096 == addr / 4096
  {
    var pageRemain := 4096 - addr % 4096;
    if left > pageRemain then pageRemain else left
  }

  method CopyInPages(vm: AddressSpaces, ghost tr: nat -> nat, dst: array<bv8>, usrc: nat, len: nat) returns (ok: bool, ghost copied: nat)
    requires vm.Valid() && Links(vm.tables, vm.current, tr) && PageLinear(tr)
    requires len <= dst.Length && dst != vm.pmm.bitmap
    modifies dst
    ensures ok <==> Reachable(tr, usrc, len)
    ensures if ok then copied == len else copied < len && Reachable(tr, usrc, copied) && tr(usrc + copied) == 0
    ensures forall i: nat | i < dst.Length :: dst[i] == if i < copied then Peek(vm.ram, tr(usrc + i)) else old(dst[i])
  {
    var off := 0;
    while off < len
      invariant 0 <= off <= len && vm.Valid()
      invariant Reachable(tr, usrc, off)
      invariant forall i: nat | i < off :: dst[i] == Peek(vm.ram, tr(usrc + i))
      invariant forall i: nat | off <= i < dst.Length :: dst[i] == old(dst[i])
    {
      var phys := Translate(vm, tr, usrc + off);
      if phys == 0 {
        return false, off;
      }
      var chunk := Chunk(usrc + off, len - off);
      ChunkIn(vm.ram, phys, dst, off, chunk);
      off := off + chunk;
    }
    return true, off;
  }

  /** Copies `len` bytes from user space, one page at a time.  Succeeds exactly when the
      range is a user range whose every byte is mapped, and then delivers those bytes; a
      failed call has delivered exactly the bytes before the first unmapped one. */
  method CopyFromUser(vm: AddressSpaces, dst: array<bv8>, usrc: nat, len: nat) returns (ok: bool, ghost copied: nat)
    requires vm.Valid() && len <= dst.Length && usrc < WORD && len < WORD && dst != vm.pmm.bitmap
    modifies dst
    ensures ok <==> len == 0 || (RangeOk(usrc, len) && Reachable(Translation(vm.tables, vm.current), usrc, len))
    ensures RangeOk(usrc, len) <==> 0x400000 <= usrc && usrc + len <= 0x800000
    ensures ok ==> copied == len
    ensures !ok && !RangeOk(usrc, len) ==> copied == 0
    ensures !ok && RangeOk(usrc, len) ==>
              && copied < len && Reachable(Translation(vm.tables, vm.current), usrc, copied)
              && Translation(vm.tables, vm.current)(usrc + copied) == 0
    ensures forall i: nat | i < dst.Length ::
              dst[i] == if i < copied then Peek(vm.ram, Translation(vm.tables, vm.current)(usrc + i)) else old(dst[i])
  {
    RangeOkIff(usrc, len);
    if len == 0 {
      return true, 0;
    }
    if !RangeOk(usrc, len) {
      return false, 0;
    }
    TranslationPageLinear(vm.tables, vm.current);
    ok, copied := CopyInPages(vm, Translation(vm.tables, vm.current), dst, usrc, len);
  }

  // ---------------------------------------------------------------- copying out

  /** Memory after the first `n` bytes of `src` were stored one by one through translation. */
  ghost function CopyOut(tr: nat -> nat, ram: Memory, udst: nat, src: seq<bv8>, n: nat): Memory
    requires n <= |src|
  {
    if n == 0 then ram
    else CopyOut(tr, ram, udst, src, n - 1)[tr(udst + (n - 1)) := src[n - 1]]
  }

  lemma CopyOutStep(tr: nat -> nat, ram: Memory, udst: nat, src: seq<bv8>, n: nat)
    requires n < |src|
    ensures CopyOut(tr, ram, udst, src, n + 1) == CopyOut(tr, ram, udst, src, n)[tr(udst + n) := src[n]]
  {
  }

  /** Stores the bytes from `off` to `end` into one page. */
  method ChunkOut(ghost tr: nat -> nat, ghost before: Memory, ram: Memory, udst: nat, src: seq<bv8>, phys: nat, off: nat, end: nat)
    returns (after: Memory)
    requires PageLinear(tr) && phys != 0 && phys == tr(udst + off)
    requires off <= end <= |src| && forall a: nat | udst + off <= a < udst + end :: a / 4096 == (udst + off) / 4096
    requires ram == CopyOut(tr, before, udst, src, off)
    ensures after == CopyOut(tr, before, udst, src, end)
  {
    after := ram;
    for i := off to end
      invariant after == CopyOut(tr, before, udst, src, i)
    {
      assert tr(udst + i) == phys + (i - off);
      CopyOutStep(tr, before, udst, src, i);
      after := after[phys + (i - off) := src[i]];
    }
  }

  method CopyOutPages(vm: AddressSpaces, ghost tr: nat -> nat, udst: nat, src: seq<bv8>) returns (ok: bool, ghost stored: nat)
    requires vm.Valid() && Links(vm.tables, vm.current, tr) && PageLinear(tr)
    modifies vm`ram
    ensures vm.Valid() && stored <= |src|
    ensures ok <==> Reachable(tr, udst, |src|)
    ensures vm.ram == CopyOut(tr, old(vm.ram), udst, src, stored)
    ensures if ok then stored == |src| else stored < |src| && Reachable(tr, udst, stored) && tr(udst + stored) == 0
  {
    var len := |src|;
    var off := 0;
    while off < len
      invariant 0 <= off <= len && vm.Valid()
      invariant Reachable(tr, udst, off)
      invariant vm.ram == CopyOut(tr, old(vm.ram), udst, src, off)
    {
      var phys := Translate(vm, tr, udst + off);
      if phys == 0 {
        return false, off;
      }
      var chunk := Chunk(udst + off, len - off);
      var end := off + chunk;
      vm.ram := ChunkOut(tr, old(vm.ram), vm.ram, udst, src, phys, off, end);
      off := end;
    }
    return true, off;
  }

  /** Memory with the first `n` bytes stored one by one through the translation of a space. */
  ghost function Stored(t: Tables, root: nat, ram: Memory, udst: nat, src: seq<bv8>, n: nat): Memory
    requires n <= |src|
  {
    CopyOut(Translation(t, root), ram, udst, src, n)
  }

  /** Copies to user space, one page at a time; equals the byte-by-byte copy, and a failed
      call has stored exactly the bytes before the first unmapped one. */
  method CopyToUser(vm: AddressSpaces, udst: nat, src: seq<bv8>) returns (ok: bool, ghost stored: nat)
    requires vm.Valid() && udst < WORD && |src| < WORD
    modifies vm`ram
    ensures vm.Valid() && stored <= |src|
    ensures ok <==> |src| == 0 || (RangeOk(udst, |src|) && Reachable(Translation(vm.tables, vm.current), udst, |src|))
    ensures RangeOk(udst, |src|) <==> 0x400000 <= udst && udst + |src| <= 0x800000
    ensures vm.ram == Stored(vm.tables, vm.current, old(vm.ram), udst, src, stored)
    ensures ok ==> stored == |src|
    ensures !ok && !RangeOk(udst, |src|) ==> stored == 0
    ensures !ok && RangeOk(udst, |src|) ==>
              && stored < |src| && Reachable(Translation(vm.tables, vm.current), udst, stored)
              && Translation(vm.tables, vm.current)(udst + stored) == 0
  {
    RangeOkIff(udst, |src|);
    if |src| == 0 {
      return true, 0;
    }
    if !RangeOk(udst, |src|) {
      return false, 0;
    }
    TranslationPageLinear(vm.tables, vm.current);
    ok, stored := CopyOutPages(vm, Translation(vm.tables, vm.current), udst, src);
  }

  /** Bytes outside the range's physical addresses keep their value. */
  lemma {:induction false} CopyOutFrame(tr: nat -> nat, ram: Memory, udst: nat, src: seq<bv8>, n: nat, addr: nat)
    requires n <= |src| && forall a: nat | udst <= a < udst + n :: tr(a) != addr
    ensures Peek(CopyOut(tr, ram, udst, src, n), addr) == Peek(ram, addr)
  {
    if n > 0 {
      CopyOutFrame(tr, ram, udst, src, n - 1, addr);
    }
  }

  /** No two bytes of the range share a physical byte. */
  ghost predicate NoAlias(tr: nat -> nat, addr: nat, len: nat)
  {
    forall a: nat, b: nat | addr <= a < b < addr + len :: tr(a) != tr(b)
  }

  /** Distinct pages of the range lie in distinct frames. */
  ghost predicate FramesDistinct(t: Tables, root: nat, addr: nat, len: nat)
  {
    forall a: nat, b: nat | addr <= a < b < addr + len && PageOfVirt(a) != PageOfVirt(b) ::
      Walk(t, root, PageOfVirt(a)) != Walk(t, root, PageOfVirt(b))
  }

  /** Pages in distinct frames do not alias. */
  lemma DistinctFramesNoAlias(t: Tables, root: nat, addr: nat, len: nat)
    requires addr + len <= USER_ADDR_END
    requires FramesDistinct(t, root, addr, len) && Reachable(Translation(t, root), addr, len)
    ensures NoAlias(Translation(t, root), addr, len)
  {
    forall a: nat, b: nat | addr <= a < b < addr + len
      ensures Translation(t, root)(a) != Translation(t, root)(b)
    {
      assert Translation(t, root)(a) != 0 && Translation(t, root)(b) != 0;
      PhysApart(t, root, a, b);
    }
  }

  lemma PhysApart(t: Tables, root: nat, a: nat, b: nat)
    requires a < b < USER_ADDR_END && Phys(t, root, a) != 0 && Phys(t, root, b) != 0
    requires PageOfVirt(a) != PageOfVirt(b) ==> Walk(t, root, PageOfVirt(a)) != Walk(t, root, PageOfVirt(b))
    ensures Phys(t, root, a) != Phys(t, root, b)
  {
    PageOfVirtInjective(a, b);
    if PageOfVirt(a) != PageOfVirt(b) {
      FramesApart(Walk(t, root, PageOfVirt(a)).value, Walk(t, root, PageOfVirt(b)).value, a % 4096, b % 4096);
    }
  }

  lemma FramesApart(f: nat, g: nat, i: nat, j: nat)
    requires f != g && i < 4096 && j < 4096
    ensures f * 4096 + i != g * 4096 + j
  {
  }

  /** Copying out stores the bytes so that each can be read back. */
  lemma {:induction false} CopyOutReadsBack(tr: nat -> nat, ram: Memory, udst: nat, src: seq<bv8>, n: nat, i: nat)
    requires NoAlias(tr, udst, n) && i < n <= |src|
    ensures Peek(CopyOut(tr, ram, udst, src, n), tr(udst + i)) == src[i]
  {
    if i < n - 1 {
      assert tr(udst + i) != tr(udst + (n - 1));
      CopyOutReadsBack(tr, ram, udst, src, n - 1, i);
    }
  }

  /** Every stored byte reads back through translation. */
  ghost predicate ReadsBack(tr: nat -> nat, ram: Memory, udst: nat, src: seq<bv8>)
  {
    forall a: nat | udst <= a < udst + |src| :: Peek(CopyOut(tr, ram, udst, src, |src|), tr(a)) == src[a - udst]
  }

  /** All data of a length can be read back exactly when no two bytes of the range share a
      physical byte. */
  lemma ReadsBackIff(tr: nat -> nat, ram: Memory, udst: nat, len: nat)
    ensures NoAlias(tr, udst, len) <==> forall src: seq<bv8> | |src| == len :: ReadsBack(tr, ram, udst, src)
  {
    if NoAlias(tr, udst, len) {
      forall src: seq<bv8> | |src| == len ensures ReadsBack(tr, ram, udst, src) {
        forall a: nat | udst <= a < udst + len ensures Peek(CopyOut(tr, ram, udst, src, len), tr(a)) == src[a - udst] {
          CopyOutReadsBack(tr, ram, udst, src, len, a - udst);
        }
      }
    } else {
      var a: nat, b: nat :| udst <= a < b < udst + len && tr(a) == tr(b);
      var src := seq<bv8>(len, i => if i == a - udst then 1 else 0);
      assert src[a - udst] != src[b - udst];
      assert !ReadsBack(tr, ram, udst, src);
    }
  }

  /** Copying out and back in is the identity on a range whose pages lie in distinct frames. */
  method RoundTrip(vm: AddressSpaces, addr: nat, src: seq<bv8>, dst: array<bv8>)
    requires vm.Valid() && addr < WORD && |src| < WORD && dst.Length == |src| && dst != vm.pmm.bitmap
    requires RangeOk(addr, |src|) && Reachable(Translation(vm.tables, vm.current), addr, |src|)
    requires FramesDistinct(vm.tables, vm.current, addr, |src|)
    modifies vm`ram, dst
    ensures dst[..] == src
  {
    ghost var tr := Translation(vm.tables, vm.current);
    DistinctFramesNoAlias(vm.tables, vm.current, addr, |src|);
    var out, stored := CopyToUser(vm, addr, src);
    var back, copied := CopyFromUser(vm, dst, addr, |src|);
    forall i: nat | i < |src| ensures dst[i] == src[i] {
      CopyOutReadsBack(tr, old(vm.ram), addr, src, |src|, i);
    }
  }

  // ---------------------------------------------------------------- the user-range check

  /** The first byte of every page a range touches has a physical address. */
  ghost predicate PagesMapped(tr: nat -> nat, addr: nat, len: nat)
  {
    forall p: nat | p % 4096 == 0 && addr / 4096 * 4096 <= p < addr + len :: tr(p) != 0
  }

  lemma PagesMappedReachable(tr: nat -> nat, addr: nat, len: nat)
    requires PageLinear(tr) && PagesMapped(tr, addr, len)
    ensures Reachable(tr, addr, len)
  {
    forall a: nat | addr <= a < addr + len ensures tr(a) != 0 {
      assert tr(a / 4096 * 4096) != 0;
    }
  }

  method CheckPages(vm: AddressSpaces, ghost tr: nat -> nat, addr: nat, len: nat) returns (valid: bool)
    requires vm.Valid() && Links(vm.tables, vm.current, tr)
    ensures valid <==> PagesMapped(tr, addr, len)
  {
    var p := addr / 4096 * 4096;
    var end := (addr + len + 0xFFF) / 4096 * 4096;
    while p < end
      invariant p % 4096 == 0 && addr / 4096 * 4096 <= p <= end
      invariant forall q: nat | q % 4096 == 0 && addr / 4096 * 4096 <= q < p :: tr(q) != 0
    {
      var phys := Translate(vm, tr, p);
      if phys == 0 {
        return false;
      }
      p := p + 4096;
    }
    return true;
  }

  /** Checks every page a user range touches; what it accepts, both copies accept. */
  method UserPtrValid(vm: AddressSpaces, addr: nat, len: nat) returns (valid: bool)
    requires vm.Valid() && addr < WORD && len < WORD
    ensures valid <==> len == 0 || (RangeOk(addr, len) && PagesMapped(Translation(vm.tables, vm.current), addr, len))
    ensures RangeOk(addr, len) <==> 0x400000 <= addr && addr + len <= 0x800000
    ensures valid ==> len == 0 || (RangeOk(addr, len) && Reachable(Translation(vm.tables, vm.current), addr, len))
  {
    RangeOkIff(addr, len);
    if len == 0 {
      return true;
    }
    if (addr + len) % WORD < addr {
      return false;
    }
    if addr < USER_ADDR_START || (addr + len) % WORD > USER_ADDR_END {
      return false;
    }
    valid := CheckPages(vm, Translation(vm.tables, vm.current), addr, len);
    if valid {
      TranslationPageLinear(vm.tables, vm.current);
      PagesMappedReachable(Translation(vm.tables, vm.current), addr, len);
    }
  }
}
