/** The 4-level page tables as values: entries, the translation walk, what makes a
    set of tables well formed, and how each kind of entry write affects every
    translation in every address space. */
module PageTables {
  import opened Common

  const PRESENT: bv12 := 0x001
  const WRITABLE: bv12 := 0x002
  const USER: bv12 := 0x004
  const HUGE: bv12 := 0x080

  const FRAMES: nat := 0x100_0000_0000

  /** A table entry split into its page-frame number (bits 51..12) and its low flag bits. */
  datatype Pte = Pte(frame: nat, flags: bv12) {
    predicate Present() { flags & PRESENT != 0 }
    predicate Huge() { flags & HUGE != 0 }
  }

  const ZERO: Pte := Pte(0, 0)

  /** The entries of every frame that holds a table. */
  type Tables = map<nat, seq<Pte>>

  type Index = i: nat | i < 512

  /** Bits 47..12 of a virtual address, as the four table indices they select. */
  datatype VPage = VPage(i4: Index, i3: Index, i2: Index, i1: Index)

  function PageOfVirt(virt: nat): VPage
  {
    VPage(virt / 0x80_0000_0000 % 512, virt / 0x4000_0000 % 512, virt / 0x20_0000 % 512, virt / 0x1000 % 512)
  }

  /** Two addresses select the same entries exactly when they agree on bits 47..12. */
  lemma PageOfVirtInjective(a: nat, b: nat)
    ensures PageOfVirt(a) == PageOfVirt(b) <==> a / 0x1000 % 0x10_0000_0000 == b / 0x1000 % 0x10_0000_0000
  {
    PageNumber(a);
    PageNumber(b);
    var v, w := PageOfVirt(a), PageOfVirt(b);
    if a / 0x1000 % 0x10_0000_0000 == b / 0x1000 % 0x10_0000_0000 {
      LastDigit(v.i4 * 0x4_0000 + v.i3 * 0x200 + v.i2, v.i1, w.i4 * 0x4_0000 + w.i3 * 0x200 + w.i2, w.i1);
      LastDigit(v.i4 * 0x200 + v.i3, v.i2, w.i4 * 0x200 + w.i3, w.i2);
      LastDigit(v.i4, v.i3, w.i4, w.i3);
    }
  }

  lemma LastDigit(q: nat, d: Index, q': nat, d': Index)
    requires q * 0x200 + d == q' * 0x200 + d'
    ensures q == q' && d == d'
  {
  }

  lemma PageNumber(a: nat)
    ensures var v := PageOfVirt(a);
            a / 0x1000 % 0x10_0000_0000 == v.i4 * 0x800_0000 + v.i3 * 0x4_0000 + v.i2 * 0x200 + v.i1
  {
    IndexShifts(a);
    var n1 := a / 0x1000;
    var n2, n3, n4 := n1 / 512, n1 / 512 / 512, n1 / 512 / 512 / 512;
    ModIs(n1, n4 / 512, n4 % 512 * 0x800_0000 + n3 % 512 * 0x4_0000 + n2 % 512 * 0x200 + n1 % 512);
  }

  lemma IndexShifts(a: nat)
    ensures a / 0x20_0000 == a / 0x1000 / 512
    ensures a / 0x4000_0000 == a / 0x1000 / 512 / 512
    ensures a / 0x80_0000_0000 == a / 0x1000 / 512 / 512 / 512
  {
    assert a / 0x4000_0000 == a / 0x20_0000 / 512;
    assert a / 0x80_0000_0000 == a / 0x4000_0000 / 512;
  }

  lemma ModIs(n: nat, q: nat, r: nat)
    requires n == q * 0x10_0000_0000 + r && r < 0x10_0000_0000
    ensures n % 0x10_0000_0000 == r
  {
  }

  // ---------------------------------------------------------------- the walk

  function Entry(t: Tables, table: nat, i: nat): Pte
  {
    if table in t && i < |t[table]| then t[table][i] else ZERO
  }

  /** Bitwise or. */
  function BitOr(a: nat, b: nat): nat
  {
    if a == 0 then b
    else if b == 0 then a
    else 2 * BitOr(a / 2, b / 2) + (if a % 2 == 1 || b % 2 == 1 then 1 else 0)
  }

  /** Or-ing a PT index into the clear low bits of a 2 MiB frame number is addition. */
  lemma {:induction false} OrAligned(q: nat, low: nat, bits: nat)
    requires low < Shifted(1, bits)
    ensures BitOr(Shifted(q, bits), low) == Shifted(q, bits) + low
  {
    if bits > 0 {
      OrAligned(q, low / 2, bits - 1);
    }
  }

  /** A number shifted left. */
  function Shifted(q: nat, bits: nat): nat
  {
    if bits == 0 then q else 2 * Shifted(q, bits - 1)
  }

  lemma ShiftedNine(q: nat)
    ensures Shifted(q, 9) == 512 * q
  {
    assert Shifted(q, 1) == 2 * q;
    assert Shifted(q, 2) == 4 * q;
    assert Shifted(q, 4) == 4 * Shifted(q, 2);
    assert Shifted(q, 6) == 4 * Shifted(q, 4);
    assert Shifted(q, 8) == 4 * Shifted(q, 6);
  }

  function WalkPt(t: Tables, pt: nat, v: VPage): Option<nat>
  {
    var e := Entry(t, pt, v.i1);
    if e.Present() then Some(e.frame) else None
  }

  function WalkPd(t: Tables, pd: nat, v: VPage): Option<nat>
  {
    var e := Entry(t, pd, v.i2);
    if !e.Present() then None
    else if e.Huge() then Some(BitOr(e.frame, v.i1))
    else WalkPt(t, e.frame, v)
  }

  function WalkPdpt(t: Tables, pdpt: nat, v: VPage): Option<nat>
  {
    var e := Entry(t, pdpt, v.i3);
    if e.Present() then WalkPd(t, e.frame, v) else None
  }

  /** The frame that page `v` translates to in the address space rooted at `root`. */
  function Walk(t: Tables, root: nat, v: VPage): Option<nat>
  {
    var e := Entry(t, root, v.i4);
    if e.Present() then WalkPdpt(t, e.frame, v) else None
  }

  // ---------------------------------------------------------------- well-formed tables

  /** Where a table stands: the index path from a root down to it. */
  datatype Place = Root | L3(i4: nat) | L2(i4: nat, i3: nat) | L1(i4: nat, i3: nat, i2: nat)

  function Child(p: Place, i: nat): Place
    requires !p.L1?
  {
    match p
    case Root => L3(i)
    case L3(a) => L2(a, i)
    case L2(a, b) => L1(a, b, i)
  }

  ghost predicate EntryOk(place: map<nat, Place>, p: Place, i: nat, e: Pte)
  {
    e.Present() && !p.L1? ==>
      if e.Huge() then p.L2? && e.frame % 512 == 0
      else e.frame in place && place[e.frame] == Child(p, i)
  }

  /** Every table has 512 entries and one place; a present entry leads to a table one
      level down at exactly the place its path spells, or is an aligned 2 MiB entry in
      a page directory.  Tables of one space thus form a tree; spaces may share
      sub-trees, but only at the same place. */
  ghost predicate WellFormed(t: Tables, place: map<nat, Place>)
  {
    && place.Keys == t.Keys && 0 !in t
    && (forall x <- t :: |t[x]| == 512)
    && (forall x, i: nat | x in t && i < 512 :: EntryOk(place, place[x], i, t[x][i]))
  }

  ghost predicate IsRoot(t: Tables, place: map<nat, Place>, r: nat)
  {
    r in t && r in place && place[r] == Root
  }

  /** The tables on the way to a page, or 0 where the way ends. */
  function PdptOf(t: Tables, root: nat, v: VPage): nat
  {
    var e := Entry(t, root, v.i4);
    if e.Present() then e.frame else 0
  }

  function PdOf(t: Tables, root: nat, v: VPage): nat
  {
    var e := Entry(t, PdptOf(t, root, v), v.i3);
    if e.Present() then e.frame else 0
  }

  function PtOf(t: Tables, root: nat, v: VPage): nat
  {
    var e := Entry(t, PdOf(t, root, v), v.i2);
    if e.Present() && !e.Huge() then e.frame else 0
  }

  /** Page `v` is covered by a present 2 MiB entry. */
  predicate HugeAt(t: Tables, root: nat, v: VPage)
  {
    var e := Entry(t, PdOf(t, root, v), v.i2);
    e.Present() && e.Huge()
  }

  predicate SameRegion(v: VPage, w: VPage)
  {
    v.i4 == w.i4 && v.i3 == w.i3 && v.i2 == w.i2
  }

  /** The walk in terms of the tables it passes; every table passed stands at its place. */
  lemma WalkSteps(t: Tables, place: map<nat, Place>, r: nat, v: VPage)
    requires WellFormed(t, place) && IsRoot(t, place, r)
    ensures PdptOf(t, r, v) != 0 ==> PdptOf(t, r, v) in t && place[PdptOf(t, r, v)] == L3(v.i4)
    ensures PdOf(t, r, v) != 0 ==> PdOf(t, r, v) in t && place[PdOf(t, r, v)] == L2(v.i4, v.i3)
    ensures PtOf(t, r, v) != 0 ==> PtOf(t, r, v) in t && place[PtOf(t, r, v)] == L1(v.i4, v.i3, v.i2)
    ensures HugeAt(t, r, v) ==> PtOf(t, r, v) == 0 && Entry(t, PdOf(t, r, v), v.i2).frame % 512 == 0
    ensures Walk(t, r, v) ==
            if HugeAt(t, r, v) then Some(Entry(t, PdOf(t, r, v), v.i2).frame + v.i1)
            else WalkPt(t, PtOf(t, r, v), v)
  {
    assert WellFormed(t, place);
    if HugeAt(t, r, v) {
      ShiftedNine(1);
      ShiftedNine(Entry(t, PdOf(t, r, v), v.i2).frame / 512);
      OrAligned(Entry(t, PdOf(t, r, v), v.i2).frame / 512, v.i1, 9);
    }
  }

  // ---------------------------------------------------------------- entry writes

  function Write(t: Tables, x: nat, i: nat, e: Pte): Tables
    requires x in t && i < |t[x]|
  {
    t[x := t[x][i := e]]
  }

  /** A write to a page table changes the translation of one page only. */
  lemma LeafWrite(t: Tables, place: map<nat, Place>, x: nat, i: nat, e: Pte, r: nat, v: VPage)
    requires WellFormed(t, place) && x in t && place[x].L1? && i < 512 && IsRoot(t, place, r)
    ensures WellFormed(Write(t, x, i, e), place)
    ensures Walk(Write(t, x, i, e), r, v) ==
            if PtOf(t, r, v) == x && v.i1 == i then (if e.Present() then Some(e.frame) else None) else Walk(t, r, v)
  {
    var u := Write(t, x, i, e);
    WriteKeepsForm(t, place, x, i, e);
    WalkSteps(t, place, r, v);
    WalkSteps(u, place, r, v);
    assert PdptOf(u, r, v) == PdptOf(t, r, v);
    assert PdOf(u, r, v) == PdOf(t, r, v);
    assert PtOf(u, r, v) == PtOf(t, r, v);
  }

  lemma WriteKeepsForm(t: Tables, place: map<nat, Place>, x: nat, i: nat, e: Pte)
    requires WellFormed(t, place) && x in t && i < 512 && EntryOk(place, place[x], i, e)
    ensures WellFormed(Write(t, x, i, e), place)
  {
    var u := Write(t, x, i, e);
    forall y, k: nat | y in u && k < 512
      ensures EntryOk(place, place[y], k, u[y][k])
    {
      if y == x && k == i {} else {
        assert u[y][k] == t[y][k];
      }
    }
  }

  /** Changing only the flags of a present link to a lower table changes no translation. */
  lemma FlagWrite(t: Tables, place: map<nat, Place>, x: nat, i: nat, e: Pte, r: nat, v: VPage)
    requires WellFormed(t, place) && x in t && i < 512 && !place[x].L1? && IsRoot(t, place, r)
    requires t[x][i].Present() && !t[x][i].Huge()
    requires e.Present() && !e.Huge() && e.frame == t[x][i].frame
    ensures WellFormed(Write(t, x, i, e), place)
    ensures Walk(Write(t, x, i, e), r, v) == Walk(t, r, v)
  {
    var u := Write(t, x, i, e);
    assert EntryOk(place, place[x], i, t[x][i]);
    WriteKeepsForm(t, place, x, i, e);
    WalkSteps(t, place, r, v);
    WalkSteps(u, place, r, v);
    assert PdptOf(u, r, v) == PdptOf(t, r, v);
    assert PdOf(u, r, v) == PdOf(t, r, v);
    assert PtOf(u, r, v) == PtOf(t, r, v);
  }

  function Zeros(): seq<Pte>
  {
    seq(512, _ => ZERO)
  }

  /** A fresh table with no present entry, not linked from anywhere, changes nothing. */
  lemma FreshTable(t: Tables, place: map<nat, Place>, n: nat, p: Place)
    requires WellFormed(t, place) && n !in t && n != 0
    ensures WellFormed(t[n := Zeros()], place[n := p])
    ensures forall r, v | IsRoot(t, place, r) :: Walk(t[n := Zeros()], r, v) == Walk(t, r, v)
  {
    var u, place' := t[n := Zeros()], place[n := p];
    forall x, i: nat | x in u && i < 512
      ensures EntryOk(place', place'[x], i, u[x][i])
    {
      if x != n {
        assert EntryOk(place, place[x], i, t[x][i]);
      }
    }
    forall r, v | IsRoot(t, place, r)
      ensures Walk(u, r, v) == Walk(t, r, v)
    {
      WalkSteps(t, place, r, v);
      WalkSteps(u, place', r, v);
      assert PdptOf(u, r, v) == PdptOf(t, r, v);
      assert PdOf(u, r, v) == PdOf(t, r, v);
      assert PtOf(u, r, v) == PtOf(t, r, v);
    }
  }

  /** Hanging an empty table under an absent entry changes no translation. */
  lemma LinkEmpty(t: Tables, place: map<nat, Place>, x: nat, i: nat, e: Pte, r: nat, v: VPage)
    requires WellFormed(t, place) && x in t && i < 512 && !place[x].L1? && IsRoot(t, place, r)
    requires !t[x][i].Present()
    requires e.Present() && !e.Huge() && e.frame in t && place[e.frame] == Child(place[x], i)
    requires t[e.frame] == Zeros()
    ensures WellFormed(Write(t, x, i, e), place)
    ensures Walk(Write(t, x, i, e), r, v) == Walk(t, r, v)
  {
    var u := Write(t, x, i, e);
    WriteKeepsForm(t, place, x, i, e);
    WalkSteps(t, place, r, v);
    WalkSteps(u, place, r, v);
    assert u[e.frame] == Zeros();
  }

  /** The entries of the page table that replaces a 2 MiB entry. */
  function SplitEntries(huge: Pte): seq<Pte>
  {
    seq(512, i requires 0 <= i => Pte(huge.frame + i, huge.flags & !HUGE))
  }

  /** Replacing a 2 MiB entry by a table of 512 entries that spell the same frames,
      except for one page, changes the translation of that page only. */
  lemma LinkSplit(t: Tables, place: map<nat, Place>, x: nat, i: nat, e: Pte, k: nat, leaf: Pte, r: nat, v: VPage)
    requires WellFormed(t, place) && x in t && i < 512 && place[x].L2? && IsRoot(t, place, r)
    requires t[x][i].Present() && t[x][i].Huge()
    requires e.Present() && !e.Huge() && e.frame in t && place[e.frame] == Child(place[x], i)
    requires k < 512 && leaf.Present() && t[e.frame] == SplitEntries(t[x][i])[k := leaf]
    ensures WellFormed(Write(t, x, i, e), place)
    ensures PtOf(t, r, v) != e.frame ==>
              Walk(Write(t, x, i, e), r, v) ==
              if PdOf(t, r, v) == x && v.i2 == i && v.i1 == k then Some(leaf.frame) else Walk(t, r, v)
  {
    var u := Write(t, x, i, e);
    WriteKeepsForm(t, place, x, i, e);
    WalkSteps(t, place, r, v);
    WalkSteps(u, place, r, v);
    assert PdptOf(u, r, v) == PdptOf(t, r, v);
    assert PdOf(u, r, v) == PdOf(t, r, v);
    if PdOf(t, r, v) == x && v.i2 == i {
      assert HugeAt(t, r, v) && PtOf(u, r, v) == e.frame;
      assert t[x][i].flags & HUGE != 0 && t[x][i].flags & PRESENT != 0;
      assert (t[x][i].flags & !HUGE) & PRESENT != 0;
      assert u[e.frame] == t[e.frame];
    } else {
      assert PtOf(u, r, v) == PtOf(t, r, v);
    }
  }

  /** Clearing a page-directory entry that holds a 2 MiB page unmaps its 512 pages only. */
  lemma HugeClear(t: Tables, place: map<nat, Place>, x: nat, i: nat, r: nat, v: VPage)
    requires WellFormed(t, place) && x in t && i < 512 && place[x].L2? && IsRoot(t, place, r)
    requires t[x][i].Present() && t[x][i].Huge()
    ensures WellFormed(Write(t, x, i, ZERO), place)
    ensures Walk(Write(t, x, i, ZERO), r, v) ==
            if PdOf(t, r, v) == x && v.i2 == i then None else Walk(t, r, v)
  {
    var u := Write(t, x, i, ZERO);
    WriteKeepsForm(t, place, x, i, ZERO);
    WalkSteps(t, place, r, v);
    WalkSteps(u, place, r, v);
    assert PdptOf(u, r, v) == PdptOf(t, r, v);
    assert PdOf(u, r, v) == PdOf(t, r, v);
  }

  // ---------------------------------------------------------------- shared slots

  /** Spaces `a` and `b` reach the same third-level table through PML4 slot `i`. */
  ghost predicate Shared(t: Tables, a: nat, b: nat, i: nat)
  {
    && Entry(t, a, i).Present() && Entry(t, b, i).Present()
    && Entry(t, a, i).frame == Entry(t, b, i).frame
  }

  /** What every operation keeps: a present top-level entry of a root stays present and
      keeps leading to the same table. */
  ghost predicate Evolves(t: Tables, place: map<nat, Place>, u: Tables, place': map<nat, Place>)
  {
    && (forall r | IsRoot(t, place, r) :: IsRoot(u, place', r))
    && (forall r, i: nat | IsRoot(t, place, r) && i < 512 && Entry(t, r, i).Present() ::
          Entry(u, r, i).Present() && Entry(u, r, i).frame == Entry(t, r, i).frame)
  }

  lemma EvolvesTransitive(t: Tables, p: map<nat, Place>, u: Tables, q: map<nat, Place>, w: Tables, s: map<nat, Place>)
    requires Evolves(t, p, u, q) && Evolves(u, q, w, s)
    ensures Evolves(t, p, w, s)
  {
    forall r, i: nat | IsRoot(t, p, r) && i < 512 && Entry(t, r, i).Present()
      ensures Entry(w, r, i).Present() && Entry(w, r, i).frame == Entry(t, r, i).frame
    {
      assert IsRoot(u, q, r) && Entry(u, r, i).Present();
    }
  }

  /** A run of states in which each evolves from the one before. */
  ghost predicate Run(ts: seq<Tables>, ps: seq<map<nat, Place>>)
  {
    |ts| == |ps| && forall k | 0 < k < |ts| :: Evolves(ts[k - 1], ps[k - 1], ts[k], ps[k])
  }

  /** A slot shared at the start of a run translates alike in both spaces ever after. */
  lemma {:induction false} SharedForever(ts: seq<Tables>, ps: seq<map<nat, Place>>, a: nat, b: nat, i: nat, k: nat)
    requires Run(ts, ps) && k < |ts| && i < 512
    requires IsRoot(ts[0], ps[0], a) && IsRoot(ts[0], ps[0], b) && Shared(ts[0], a, b, i)
    ensures IsRoot(ts[k], ps[k], a) && IsRoot(ts[k], ps[k], b) && Shared(ts[k], a, b, i)
    ensures forall v: VPage | v.i4 == i :: Walk(ts[k], a, v) == Walk(ts[k], b, v)
  {
    if k > 0 {
      SharedForever(ts, ps, a, b, i, k - 1);
      assert Evolves(ts[k - 1], ps[k - 1], ts[k], ps[k]);
    }
  }
}
