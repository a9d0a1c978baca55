/** What a mapping writes to the tables, entry by entry: which entries, with which flags, and when
    the user can reach the page. */
module MapEntries {
  import opened Common
  import opened PageTables

  /** Entry `i` of table `x` is one of the four on the way to page `v`. */
  predicate OnPath(t: Tables, root: nat, v: VPage, x: nat, i: nat)
  {
    || (x == root && i == v.i4) || (x == PdptOf(t, root, v) && i == v.i3)
    || (x == PdOf(t, root, v) && i == v.i2) || (x == PtOf(t, root, v) && i == v.i1)
  }

  /** Of the entries there were, at most the four on the way to page `v` have changed. */
  ghost predicate OnlyPath(t: Tables, u: Tables, root: nat, v: VPage)
  {
    forall x, i: nat | x in t && x in u && i < |t[x]| && i < |u[x]| && !OnPath(u, root, v, x, i) :: u[x][i] == t[x][i]
  }

  /** The flags of a link that a mapping with `flags` passes: a new one is writable, and the user
      bit is added when asked for. */
  function LinkFlags(before: Pte, flags: bv12): bv12
  {
    if before.Present() then before.flags | (flags & 4) else 3 | (flags & 4)
  }

  function SetEntry(t: Tables, x: nat, i: nat, e: Pte): Tables
  {
    if x in t && i < |t[x]| then t[x := t[x][i := e]] else t
  }

  /** Entry `i` of table `x` leads to `child`, which is new and empty if the entry was absent. */
  function Linked(t: Tables, x: nat, i: nat, child: nat, flags: bv12): Tables
  {
    var before := Entry(t, x, i);
    SetEntry(if before.Present() then t else t[child := Zeros()], x, i, Pte(child, LinkFlags(before, flags)))
  }

  /** The 2 MiB entry that covers `v` replaced by page table `pt`. */
  function Split(t: Tables, pd: nat, v: VPage, pt: nat, frame: nat, flags: bv12): Tables
  {
    SetEntry(t[pt := SplitEntries(Entry(t, pd, v.i2))[v.i1 := Pte(frame, 1 | flags)]], pd, v.i2, Pte(pt, 3 | (flags & 4)))
  }

  lemma SetIsWrite(t: Tables, x: nat, i: nat, e: Pte)
    requires x in t && i < |t[x]|
    ensures SetEntry(t, x, i, e) == Write(t, x, i, e)
  {
  }

  lemma SameEntry(t: Tables, x: nat, i: nat, e: Pte)
    requires x in t && i < |t[x]| && t[x][i] == e
    ensures SetEntry(t, x, i, e) == t
  {
    assert t[x][i := e] == t[x];
  }

  /** The entries after page `v` was mapped: which were written, and with what flags.  The link in
      the page directory keeps its flags when it was there. */
  ghost predicate EntriesAfter(t: Tables, u: Tables, root: nat, v: VPage, frame: nat, flags: bv12)
  {
    && OnlyPath(t, u, root, v)
    && Entry(u, root, v.i4).flags == LinkFlags(Entry(t, root, v.i4), flags)
    && Entry(u, PdptOf(u, root, v), v.i3).flags == LinkFlags(Entry(t, PdptOf(t, root, v), v.i3), flags)
    && Entry(u, PdOf(u, root, v), v.i2).flags ==
         (if PtOf(t, root, v) != 0 then Entry(t, PdOf(t, root, v), v.i2).flags else 3 | (flags & 4))
    && PtOf(u, root, v) != 0 && Entry(u, PtOf(u, root, v), v.i1) == Pte(frame, 1 | flags)
    && (HugeAt(t, root, v) ==> SpelledOut(Entry(t, PdOf(t, root, v), v.i2), u, PtOf(u, root, v), v.i1))
  }

  /** The part of this above the page directory. */
  ghost predicate UpperAfter(t: Tables, u: Tables, root: nat, v: VPage, flags: bv12)
  {
    && (forall x, i: nat | x in t && x in u && i < |t[x]| && i < |u[x]|
                           && !(x == root && i == v.i4) && !(x == PdptOf(u, root, v) && i == v.i3) :: u[x][i] == t[x][i])
    && Entry(u, root, v.i4).flags == LinkFlags(Entry(t, root, v.i4), flags)
    && Entry(u, PdptOf(u, root, v), v.i3).flags == LinkFlags(Entry(t, PdptOf(t, root, v), v.i3), flags)
    && Entry(u, PdOf(u, root, v), v.i2) == Entry(t, PdOf(t, root, v), v.i2)
  }

  /** The part from the page directory on. */
  ghost predicate LowerAfter(t: Tables, u: Tables, root: nat, v: VPage, frame: nat, flags: bv12)
  {
    && (forall x, i: nat | x in t && x in u && i < |t[x]| && i < |u[x]|
                           && !(x == PdOf(u, root, v) && i == v.i2) && !(x == PtOf(u, root, v) && i == v.i1) :: u[x][i] == t[x][i])
    && PdptOf(u, root, v) == PdptOf(t, root, v) && PdOf(u, root, v) == PdOf(t, root, v)
    && Entry(u, root, v.i4) == Entry(t, root, v.i4)
    && Entry(u, PdptOf(u, root, v), v.i3) == Entry(t, PdptOf(t, root, v), v.i3)
    && Entry(u, PdOf(u, root, v), v.i2).flags ==
         (if PtOf(t, root, v) != 0 then Entry(t, PdOf(t, root, v), v.i2).flags else 3 | (flags & 4))
    && PtOf(u, root, v) != 0 && Entry(u, PtOf(u, root, v), v.i1) == Pte(frame, 1 | flags)
    && (HugeAt(t, root, v) ==> SpelledOut(Entry(t, PdOf(t, root, v), v.i2), u, PtOf(u, root, v), v.i1))
  }

  /** How a page table for the page came about: it was there, it is new, or it spells out a 2 MiB
      entry. */
  datatype Way = Leaf | Fresh(pt: nat) | Cut(pt: nat)

  /** The tables that a mapping passed, and the places of the tables when it reached the page
      directory. */
  datatype Steps = Steps(pdpt: nat, pd: nat, way: Way, place: map<nat, Place>)

  function Upper(t: Tables, root: nat, v: VPage, pdpt: nat, pd: nat, flags: bv12): Tables
  {
    Linked(Linked(t, root, v.i4, pdpt, flags), pdpt, v.i3, pd, flags)
  }

  /** A link that was there leads where it led, a new one to a new table. */
  predicate LinkTo(t: Tables, x: nat, i: nat, child: nat)
  {
    child != 0 && if Entry(t, x, i).Present() then child == Entry(t, x, i).frame else child !in t
  }

  predicate UpperOk(t: Tables, root: nat, v: VPage, pdpt: nat, pd: nat, flags: bv12)
  {
    LinkTo(t, root, v.i4, pdpt) && LinkTo(Linked(t, root, v.i4, pdpt, flags), pdpt, v.i3, pd)
  }

  function Lower(t: Tables, root: nat, v: VPage, pd: nat, way: Way, frame: nat, flags: bv12): Tables
  {
    var leaf := Pte(frame, 1 | flags);
    match way
    case Leaf => SetEntry(t, PtOf(t, root, v), v.i1, leaf)
    case Fresh(pt) => SetEntry(Linked(t, pd, v.i2, pt, flags), pt, v.i1, leaf)
    case Cut(pt) => Split(t, pd, v, pt, frame, flags)
  }

  predicate LowerOk(t: Tables, root: nat, v: VPage, pd: nat, way: Way)
  {
    match way
    case Leaf => PtOf(t, root, v) != 0
    case Fresh(pt) => pt !in t && pt != 0 && !Entry(t, pd, v.i2).Present()
    case Cut(pt) => pt !in t && pt != 0 && HugeAt(t, root, v)
  }

  function Stepped(t: Tables, root: nat, v: VPage, steps: Steps, frame: nat, flags: bv12): Tables
  {
    Lower(Upper(t, root, v, steps.pdpt, steps.pd, flags), root, v, steps.pd, steps.way, frame, flags)
  }

  ghost predicate StepsOk(t: Tables, root: nat, v: VPage, steps: Steps, flags: bv12)
  {
    var u := Upper(t, root, v, steps.pdpt, steps.pd, flags);
    && UpperOk(t, root, v, steps.pdpt, steps.pd, flags) && steps.pd == PdOf(u, root, v)
    && LowerOk(u, root, v, steps.pd, steps.way) && WellFormed(u, steps.place) && IsRoot(u, steps.place, root)
  }

  /** What a mapping writes, entry by entry. */
  lemma SteppedEntries(t: Tables, place: map<nat, Place>, root: nat, v: VPage, steps: Steps, frame: nat, flags: bv12)
    requires WellFormed(t, place) && IsRoot(t, place, root) && StepsOk(t, root, v, steps, flags)
    ensures EntriesAfter(t, Stepped(t, root, v, steps, frame, flags), root, v, frame, flags)
  {
    var u := Upper(t, root, v, steps.pdpt, steps.pd, flags);
    var w := Lower(u, root, v, steps.pd, steps.way, frame, flags);
    UpperLinks(t, place, root, v, steps.pdpt, steps.pd, flags);
    LowerAny(u, steps.place, root, v, steps.pd, steps.way, frame, flags);
    UpperForm(t, place, root, v, steps.pdpt, steps.pd, flags);
    JoinEntries(t, u, w, root, v, frame, flags);
  }

  lemma UpperForm(t: Tables, place: map<nat, Place>, root: nat, v: VPage, pdpt: nat, pd: nat, flags: bv12)
    requires WellFormed(t, place) && UpperOk(t, root, v, pdpt, pd, flags)
    ensures forall x <- t :: x in Upper(t, root, v, pdpt, pd, flags) && |Upper(t, root, v, pdpt, pd, flags)[x]| == |t[x]| == 512
  {
  }

  lemma LowerAny(t: Tables, place: map<nat, Place>, root: nat, v: VPage, pd: nat, way: Way, frame: nat, flags: bv12)
    requires WellFormed(t, place) && IsRoot(t, place, root) && pd != 0 && pd == PdOf(t, root, v) && LowerOk(t, root, v, pd, way)
    ensures LowerAfter(t, Lower(t, root, v, pd, way, frame, flags), root, v, frame, flags)
    ensures forall x <- t :: x in Lower(t, root, v, pd, way, frame, flags) && |Lower(t, root, v, pd, way, frame, flags)[x]| == 512
  {
    match way
    case Leaf => LowerLeaf(t, place, root, v, PtOf(t, root, v), frame, flags);
    case Fresh(pt) => LowerNew(t, place, root, v, pd, pt, frame, flags);
    case Cut(pt) => LowerSplit(t, place, root, v, pd, pt, frame, flags);
  }

  lemma JoinEntries(t: Tables, u: Tables, w: Tables, root: nat, v: VPage, frame: nat, flags: bv12)
    requires UpperAfter(t, u, root, v, flags) && LowerAfter(u, w, root, v, frame, flags)
    requires forall x <- t :: x in u && |u[x]| == |t[x]| == 512
    requires forall x <- u :: x in w && |w[x]| == 512
    ensures EntriesAfter(t, w, root, v, frame, flags)
  {
  }

  lemma UpperLinks(t: Tables, place: map<nat, Place>, root: nat, v: VPage, pdpt: nat, pd: nat, flags: bv12)
    requires WellFormed(t, place) && IsRoot(t, place, root)
    requires UpperOk(t, root, v, pdpt, pd, flags)
    ensures UpperAfter(t, Upper(t, root, v, pdpt, pd, flags), root, v, flags)
  {
    WalkSteps(t, place, root, v);
    LinkFlagsFacts(Entry(t, root, v.i4), flags);
    LinkFlagsFacts(Entry(t, PdptOf(t, root, v), v.i3), flags);
  }

  lemma LowerLeaf(t: Tables, place: map<nat, Place>, root: nat, v: VPage, pt: nat, frame: nat, flags: bv12)
    requires WellFormed(t, place) && IsRoot(t, place, root) && pt != 0 && pt == PtOf(t, root, v)
    ensures LowerAfter(t, SetEntry(t, pt, v.i1, Pte(frame, 1 | flags)), root, v, frame, flags)
  {
    WalkSteps(t, place, root, v);
  }

  lemma LowerNew(t: Tables, place: map<nat, Place>, root: nat, v: VPage, pd: nat, pt: nat, frame: nat, flags: bv12)
    requires WellFormed(t, place) && IsRoot(t, place, root) && pd != 0 && pd == PdOf(t, root, v)
    requires pt !in t && pt != 0 && !Entry(t, pd, v.i2).Present()
    ensures LowerAfter(t, SetEntry(Linked(t, pd, v.i2, pt, flags), pt, v.i1, Pte(frame, 1 | flags)), root, v, frame, flags)
  {
    WalkSteps(t, place, root, v);
    NotHuge(flags);
  }

  lemma LowerSplit(t: Tables, place: map<nat, Place>, root: nat, v: VPage, pd: nat, pt: nat, frame: nat, flags: bv12)
    requires WellFormed(t, place) && IsRoot(t, place, root) && pd != 0 && pd == PdOf(t, root, v)
    requires pt !in t && pt != 0 && HugeAt(t, root, v)
    ensures LowerAfter(t, Split(t, pd, v, pt, frame, flags), root, v, frame, flags)
  {
    WalkSteps(t, place, root, v);
    NotHuge(flags);
  }

  /** Apart from entry `skip`, table `pt` spells out the frames of a 2 MiB entry, with its flags. */
  ghost predicate SpelledOut(huge: Pte, u: Tables, pt: nat, skip: nat)
  {
    forall i: nat | i < 512 && i != skip :: Entry(u, pt, i) == Pte(huge.frame + i, huge.flags & 0xF7F)
  }

  /** The user bit is set at all four levels. */
  predicate UserReaches(t: Tables, root: nat, v: VPage)
  {
    && Entry(t, root, v.i4).flags & 4 != 0 && Entry(t, PdptOf(t, root, v), v.i3).flags & 4 != 0
    && Entry(t, PdOf(t, root, v), v.i2).flags & 4 != 0 && Entry(t, PtOf(t, root, v), v.i1).flags & 4 != 0
  }

  /** A page mapped for the user can be reached from user mode if and only if there was no page
      table for it yet, or the page directory let the user through to it. */
  lemma UserReachesIff(t: Tables, u: Tables, root: nat, v: VPage, frame: nat, flags: bv12)
    requires EntriesAfter(t, u, root, v, frame, flags) && flags & 4 != 0
    ensures UserReaches(u, root, v) <==> PtOf(t, root, v) == 0 || Entry(t, PdOf(t, root, v), v.i2).flags & 4 != 0
  {
    LinkFlagsFacts(Entry(t, root, v.i4), flags);
    LinkFlagsFacts(Entry(t, PdptOf(t, root, v), v.i3), flags);
    assert (1 | flags) & 4 == flags & 4;
    assert (3 | (flags & 4)) & 4 == flags & 4;
  }

  lemma LinkFlagsFacts(before: Pte, flags: bv12)
    ensures flags & 4 != 0 ==> LinkFlags(before, flags) & 4 != 0
    ensures LinkFlags(ZERO, flags) == 3 | (flags & 4)
    ensures flags & 4 == 0 && before.Present() ==> LinkFlags(before, flags) == before.flags
    ensures before.Present() ==> LinkFlags(before, flags) & 1 != 0
    ensures before.flags & 4 != 0 && before.Present() ==> LinkFlags(before, flags) == before.flags
  {
    var f := before.flags;
    assert (f | (flags & 4)) & 4 == (f & 4) | (flags & 4);
    assert (3 | (flags & 4)) & 4 == flags & 4;
    assert f & 4 != 0 ==> f | (flags & 4) == f;
    assert (f | (flags & 4)) & 1 == f & 1;
  }

  lemma UserBit(flags: bv12)
    ensures flags & 4 != 0 ==> flags & 4 == 4
  {
  }

  lemma NotHuge(flags: bv12)
    ensures (PRESENT | WRITABLE | (flags & USER)) & HUGE == 0
    ensures (PRESENT | WRITABLE | (flags & USER)) & PRESENT != 0
  {
  }
}
