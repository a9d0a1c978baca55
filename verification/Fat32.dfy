/** The FAT32 driver on sectors: the byte-level table with its copies, cluster allocation
    and reading a file through its chain. */
module Fat32 {
  import opened Common
  import opened FatChains

  type Sector = s: seq<Byte> | |s| == 512 witness seq(512, _ => 0)

  // ---------------------------------------------------------------- little-endian words

  function Le32(s: Sector, off: nat): nat
    requires off + 4 <= 512
  {
    var b0: int, b1: int, b2: int, b3: int := s[off], s[off + 1], s[off + 2], s[off + 3];
    b0 + 0x100 * b1 + 0x10000 * b2 + 0x1000000 * b3
  }

  function PutLe32(s: Sector, off: nat, v: nat): Sector
    requires off + 4 <= 512
  {
    s[off := v % 0x100][off + 1 := v / 0x100 % 0x100][off + 2 := v / 0x10000 % 0x100][off + 3 := v / 0x1000000 % 0x100]
  }

  /** A stored word reads back, and words elsewhere are untouched. */
  lemma PutLe32Reads(s: Sector, off: nat, v: nat, other: nat)
    requires off + 4 <= 512 && other + 4 <= 512 && off % 4 == 0 && other % 4 == 0 && v < 0x1_0000_0000
    ensures Le32(PutLe32(s, off, v), other) == if other == off then v else Le32(s, other)
  {
    if other == off {
      LeBytes(v);
    } else {
      assert other + 4 <= off || off + 4 <= other;
    }
  }

  lemma LeBytes(v: nat)
    requires v < 0x1_0000_0000
    ensures v % 0x100 + 0x100 * (v / 0x100 % 0x100) + 0x10000 * (v / 0x10000 % 0x100) + 0x1000000 * (v / 0x1000000 % 0x100) == v
  {
    assert v / 0x10000 == v / 0x100 / 0x100;
    assert v / 0x1000000 == v / 0x100 / 0x100 / 0x100;
  }

  /** The 28 bits of an entry that are in use. */
  function Low28(v: nat): (r: nat)
    ensures r < 0x1000_0000 && (v < 0x1000_0000 ==> r == v)
  {
    v % 0x1000_0000
  }

  // ---------------------------------------------------------------- geometry

  /** The volume's layout in sectors. */
  datatype Geometry = Geometry(reserved: nat, copies: nat, perFat: nat, perCluster: nat) {
    function Clusters(): nat { perFat * 128 }
    function FirstData(): nat { reserved + copies * perFat }
  }

  /** The table copies lie on the disk.  The table may have more entries than the disk has
      clusters: a volume that fills its disk always does. */
  ghost predicate GeometryOk(g: Geometry, sectors: nat)
  {
    && g.copies >= 1 && 1 <= g.perFat && g.perFat * 128 < EOC && 1 <= g.perCluster <= 8
    && g.FirstData() <= sectors
  }

  /** The sector of one table copy that holds a cluster's entry. */
  function Lba(g: Geometry, copy: nat, c: nat): nat
  {
    g.reserved + copy * g.perFat + c / 128
  }

  lemma EntryPlace(c: nat)
    ensures c * 4 / 512 == c / 128 && c * 4 % 512 == c % 128 * 4
    ensures c % 128 * 4 + 4 <= 512 && c % 128 * 4 % 4 == 0
  {
  }

  function ClusterSector(g: Geometry, c: nat): nat
    requires c >= 2
  {
    g.FirstData() + (c - 2) * g.perCluster
  }

  lemma {:induction false} MulStep(a: nat, b: nat, m: nat)
    requires a < b
    ensures a * m + m <= b * m
  {
    assert b * m == (b - 1) * m + m;
    if a < b - 1 {
      MulStep(a, b - 1, m);
    }
  }

  /** Entries of different copies, or of different sectors of one copy, lie apart, and all of
      them lie before the data area. */
  lemma LbaFacts(g: Geometry, k: nat, c: nat, k': nat, c': nat)
    requires k < g.copies && k' < g.copies && c < g.Clusters() && c' < g.Clusters()
    ensures g.reserved <= Lba(g, k, c) < g.FirstData()
    ensures Lba(g, k, c) == Lba(g, k', c') <==> k == k' && c / 128 == c' / 128
  {
    MulStep(k, g.copies, g.perFat);
    if k < k' {
      MulStep(k, k', g.perFat);
    } else if k' < k {
      MulStep(k', k, g.perFat);
    }
  }

  /** Data sectors lie behind every table copy, and different clusters have different ones. */
  lemma DataApart(g: Geometry, c: nat, c': nat, i: nat, i': nat, k: nat, e: nat)
    requires 2 <= c < g.Clusters() && 2 <= c' < g.Clusters() && i < g.perCluster && i' < g.perCluster
    requires k < g.copies && e < g.Clusters()
    ensures ClusterSector(g, c) + i != Lba(g, k, e)
    ensures ClusterSector(g, c) + i == ClusterSector(g, c') + i' <==> c == c' && i == i'
    ensures ClusterSector(g, c) + i < g.FirstData() + g.Clusters() * g.perCluster
  {
    LbaFacts(g, k, e, k, e);
    Nonneg(c - 2, g.perCluster);
    MulStep(c - 2, g.Clusters(), g.perCluster);
    if c < c' {
      MulStep(c - 2, c' - 2, g.perCluster);
    } else if c' < c {
      MulStep(c' - 2, c - 2, g.perCluster);
    }
  }

  /** All sectors of a cluster lie on the disk. */
  ghost predicate ClusterFits(d: Disk, g: Geometry, c: nat)
  {
    c >= 2 && ClusterSector(g, c) + g.perCluster <= |d|
  }

  /** The first cluster number past the disk. */
  function DataEnd(g: Geometry, sectors: nat): nat
    requires g.perCluster > 0 && g.FirstData() <= sectors
  {
    2 + (sectors - g.FirstData()) / g.perCluster
  }

  lemma OnDiskIff(d: Disk, g: Geometry, c: nat)
    requires GeometryOk(g, |d|) && c >= 2
    ensures ClusterFits(d, g, c) <==> c < DataEnd(g, |d|)
  {
    var room, m := |d| - g.FirstData(), g.perCluster;
    assert (c - 2) * m + m == (c - 1) * m;
    ProductFits(c - 1, room, m);
  }

  lemma ProductFits(a: nat, b: nat, m: nat)
    requires m > 0
    ensures a * m <= b <==> a <= b / m
  {
    var q := b / m;
    assert b == q * m + b % m;
    if a <= q {
      if a < q { MulStep(a, q, m); }
    } else {
      MulStep(q, a, m);
    }
  }

  lemma Nonneg(a: nat, b: nat)
    ensures a * b >= 0
  {
  }

  // ---------------------------------------------------------------- the table in bytes

  type Disk = seq<Sector>

  function Entry(d: Disk, g: Geometry, copy: nat, c: nat): nat
  {
    if Lba(g, copy, c) < |d| then Low28(Le32(d[Lba(g, copy, c)], c % 128 * 4)) else 0
  }

  /** One copy of the table, read as numbers. */
  ghost function Table(d: Disk, g: Geometry, copy: nat): (t: Fat)
    ensures |t| == g.Clusters()
  {
    seq(g.Clusters(), c requires 0 <= c => Entry(d, g, copy, c))
  }

  /** Where an entry lies and how its bytes make it up: little-endian, the top four bits ignored. */
  lemma TableBytes(d: Disk, g: Geometry, copy: nat, c: nat)
    requires c < g.perFat * 128 && g.reserved + copy * g.perFat + c / 128 < |d|
    ensures var s: seq<int>, o := d[g.reserved + copy * g.perFat + c / 128], c % 128 * 4;
            Table(d, g, copy)[c] == s[o] + 0x100 * s[o + 1] + 0x10000 * s[o + 2] + 0x1000000 * (s[o + 3] % 16)
  {
    var s, o := d[g.reserved + copy * g.perFat + c / 128], c % 128 * 4;
    LowBytes(s[o], s[o + 1], s[o + 2], s[o + 3]);
  }

  lemma LowBytes(a: nat, b: nat, c: nat, e: nat)
    requires a < 256 && b < 256 && c < 256 && e < 256
    ensures Low28(a + 0x100 * b + 0x10000 * c + 0x1000000 * e) == a + 0x100 * b + 0x10000 * c + 0x1000000 * (e % 16)
  {
    var low := a + 0x100 * b + 0x10000 * c + 0x1000000 * (e % 16);
    assert a + 0x100 * b + 0x10000 * c + 0x1000000 * e == low + 0x1000_0000 * (e / 16);
  }

  ghost predicate CopiesEqual(d: Disk, g: Geometry)
  {
    forall k: nat | k < g.copies :: Table(d, g, k) == Table(d, g, 0)
  }

  function PutEntry(d: Disk, g: Geometry, copy: nat, c: nat, v: nat): Disk
    requires Lba(g, copy, c) < |d|
  {
    d[Lba(g, copy, c) := PutLe32(d[Lba(g, copy, c)], c % 128 * 4, v)]
  }

  /** Writing one entry of one copy changes exactly that entry. */
  lemma PutEntryTable(d: Disk, g: Geometry, k: nat, c: nat, v: nat, k': nat)
    requires k < g.copies && k' < g.copies && c < g.Clusters() && v < 0x1000_0000 && Lba(g, k, c) < |d|
    ensures Table(PutEntry(d, g, k, c, v), g, k') == if k == k' then Table(d, g, k)[c := v] else Table(d, g, k')
  {
    var d' := PutEntry(d, g, k, c, v);
    forall e: nat | e < g.Clusters()
      ensures Entry(d', g, k', e) == if k == k' && e == c then v else Entry(d, g, k', e)
    {
      LbaFacts(g, k, c, k', e);
      if Lba(g, k', e) == Lba(g, k, c) {
        EntryPlace(c);
        EntryPlace(e);
        PutLe32Reads(d[Lba(g, k, c)], c % 128 * 4, v, e % 128 * 4);
      }
    }
  }

  // ---------------------------------------------------------------- the driver

  class Volume32 {
    const g: Geometry
    const disk: array<Sector>

    ghost predicate Valid()
      reads this, disk
    {
      GeometryOk(g, disk.Length) && CopiesEqual(disk[..], g)
    }

    ghost function Fat(): (fat: Fat)
      reads this, disk
      ensures |fat| == g.Clusters()
    {
      Table(disk[..], g, 0)
    }

    constructor (geometry: Geometry, sectors: array<Sector>)
      requires GeometryOk(geometry, sectors.Length) && CopiesEqual(sectors[..], geometry)
      ensures Valid() && g == geometry && disk == sectors
    {
      g, disk := geometry, sectors;
    }

    method NextCluster(c: nat) returns (next: nat)
      requires Valid() && c < g.Clusters()
      ensures next == Fat()[c]
    {
      LbaFacts(g, 0, c, 0, c);
      EntryPlace(c);
      var sector := disk[g.reserved + c * 4 / 512];
      next := Low28(Le32(sector, c * 4 % 512));
    }

    /** Writes an entry into every copy: that entry changes to the low 28 bits of the value,
        the copies stay equal, and no sector outside the table changes. */
    method WriteFatEntry(c: nat, value: nat)
      requires Valid() && c < g.Clusters() && value < 0x1_0000_0000
      modifies disk
      ensures Valid() && Fat() == old(Fat())[c := Low28(value)]
      ensures forall k: nat | k < g.copies :: Table(disk[..], g, k) == old(Table(disk[..], g, k))[c := Low28(value)]
      ensures forall l: nat | l < disk.Length && !(g.reserved <= l < g.FirstData()) :: disk[l] == old(disk[l])
      ensures forall k: nat | k < g.copies :: Lba(g, k, c) < disk.Length && disk[Lba(g, k, c)][c % 128 * 4 + 3] < 16
    {
      var v := Low28(value);
      for fat := 0 to g.copies
        invariant forall k: nat | k < fat :: Lba(g, k, c) < disk.Length && disk[Lba(g, k, c)][c % 128 * 4 + 3] < 16
        invariant forall k: nat | k < g.copies ::
                    Table(disk[..], g, k) == if k < fat then old(Table(disk[..], g, k))[c := v] else old(Table(disk[..], g, k))
        invariant forall l: nat | l < disk.Length && !(g.reserved <= l < g.FirstData()) :: disk[l] == old(disk[l])
      {
        WriteCopy(fat, c, v);
      }
    }

    /** Writes an entry of one copy. */
    method WriteCopy(fat: nat, c: nat, v: nat)
      requires GeometryOk(g, disk.Length) && fat < g.copies && c < g.Clusters() && v < 0x1000_0000
      modifies disk
      ensures forall k: nat | k < g.copies ::
                Table(disk[..], g, k) == if k == fat then old(Table(disk[..], g, k))[c := v] else old(Table(disk[..], g, k))
      ensures forall l: nat | l < disk.Length && !(g.reserved <= l < g.FirstData()) :: disk[l] == old(disk[l])
      ensures forall l: nat | l < disk.Length && l != Lba(g, fat, c) :: disk[l] == old(disk[l])
      ensures Lba(g, fat, c) < disk.Length && disk[Lba(g, fat, c)][c % 128 * 4 + 3] < 16
    {
      LbaFacts(g, fat, c, fat, c);
      EntryPlace(c);
      var lba := g.reserved + fat * g.perFat + c * 4 / 512;
      ghost var before := disk[..];
      disk[lba] := PutLe32(disk[lba], c * 4 % 512, v);
      assert disk[..] == PutEntry(before, g, fat, c, v);
      forall k: nat | k < g.copies
        ensures Table(disk[..], g, k) == if k == fat then Table(before, g, k)[c := v] else Table(before, g, k)
      {
        PutEntryTable(before, g, fat, c, v, k);
      }
    }

    method FindFreeCluster() returns (c: nat)
      requires Valid()
      ensures c == FindFree(Fat(), 2)
    {
      c := 2;
      while c < g.perFat * 128
        invariant 2 <= c && FindFree(Fat(), 2) == FindFree(Fat(), c)
        decreases g.perFat * 128 - c
      {
        var entry := NextCluster(c);
        if entry == 0 {
          return;
        }
        c := c + 1;
      }
      return 0;
    }

    /** Takes the lowest free cluster and marks it as the end of a chain. */
    method AllocateCluster() returns (c: nat)
      requires Valid()
      modifies disk
      ensures Valid() && c == FindFree(old(Fat()), 2)
      ensures Fat() == if c == 0 then old(Fat()) else old(Fat())[c := EOC]
      ensures c != 0 ==> (ClusterFits(disk[..], g, c) <==> c < DataEnd(g, disk.Length))
    {
      c := FindFreeCluster();
      if c != 0 {
        OnDiskIff(disk[..], g, c);
      }
      if c != 0 {
        WriteFatEntry(c, EOC);
      }
    }

    /** Walks a chain to its last cluster. */
    method LastCluster(start: nat, ghost chain: seq<nat>) returns (ok: bool, last: nat, walked: nat)
      requires Valid() && chain != [] && IsChain(Fat(), chain) && start == chain[0]
      ensures ok && last == chain[|chain| - 1] && walked == |chain|
    {
      assert LinkOk(Fat(), chain, 0);
      ChainFits(Fat(), chain);
      var c := start;
      last, walked := 0, 0;
      while c < EOC
        invariant 0 <= walked < |chain| && c == chain[walked] && InTable(Fat(), c)
        decreases |chain| - walked
      {
        assert LinkOk(Fat(), chain, walked);
        assert walked + 1 < |chain| ==> chain[walked] != chain[walked + 1] && LinkOk(Fat(), chain, walked + 1);
        if walked + 1 > 0x10000000 {
          return false, last, walked;
        }
        var next := NextCluster(c);
        if next == c {
          return false, last, walked;
        }
        last := c;
        walked := walked + 1;
        if next >= EOC {
          break;
        }
        c := next;
      }
      ok := true;
    }

    /** Extends a file's chain.  With a start cluster the length reached is the one asked for;
        without one it is one short, because the first cluster is counted twice. */
    method ExtendFileClusters(start: nat, needed: nat, ghost chain: seq<nat>) returns (ok: bool, newStart: nat, ghost longer: seq<nat>)
      requires Valid() && IsChain(Fat(), chain)
      requires if chain == [] then start == 0 || start >= EOC else start == chain[0]
      modifies disk
      ensures Valid() && IsChain(Fat(), longer)
      ensures chain != [] ==> chain[0] < |Fat()| && (forall i: nat | i < |chain| :: chain[i] < |old(Fat())|)
                              && Extension(Fat(), longer, ok) == Extend(old(Fat()), chain, needed)
      ensures chain == [] ==> Extension(Fat(), longer, ok) == ExtendNew(old(Fat()), needed)
      ensures longer != [] ==> newStart == longer[0]
    {
      ghost var fat0 := Fat();
      ChainInRange(fat0, chain);
      longer := chain;
      newStart := start;
      var count := 0;
      assert chain != [] ==> LinkOk(fat0, chain, 0);
      if start == 0 || start >= EOC {
        newStart := AllocateCluster();
        if newStart == 0 {
          ok := false;
          return;
        }
        longer := [newStart];
        assert LinkOk(Fat(), longer, 0);
        count := 1;
        if count >= needed {
          ok := true;
          return;
        }
      }
      ghost var extra := count;
      ghost var fat1, chain1 := Fat(), longer;
      var walkOk, last, walked := LastCluster(newStart, longer);
      count := count + walked;
      assert chain == [] ==> extra == 1 && chain1 == [newStart] && fat1 == fat0[newStart := EOC];
      assert chain != [] ==> extra == 0 && chain1 == chain && fat1 == fat0;
      ok, longer := AppendClusters(last, count, needed, longer, extra);
      ChainInRange(fat1, chain1);
    }

    /** Allocates one cluster and links it behind `last`. */
    method AppendOne(last: nat, ghost chain: seq<nat>) returns (c: nat)
      requires Valid() && chain != [] && IsChain(Fat(), chain) && last == chain[|chain| - 1]
      modifies disk
      ensures Valid() && c == FindFree(old(Fat()), 2)
      ensures c == 0 ==> Fat() == old(Fat())
      ensures c != 0 ==> last < |old(Fat())| && Fat() == Appended(old(Fat()), last, c) && IsChain(Fat(), chain + [c])
    {
      ghost var fat := Fat();
      assert LinkOk(fat, chain, |chain| - 1);
      c := AllocateCluster();
      if c != 0 {
        AppendChain(fat, chain, c);
        WriteFatEntry(last, c);
      }
    }

    /** Appends free clusters behind `last` until the count reaches the number asked for. */
    method AppendClusters(tail: nat, counted: nat, needed: nat, ghost chain: seq<nat>, ghost extra: nat) returns (ok: bool, ghost longer: seq<nat>)
      requires Valid() && chain != [] && IsChain(Fat(), chain) && tail == chain[|chain| - 1]
      requires counted == |chain| + extra && needed >= extra
      requires forall i: nat | i < |chain| :: chain[i] < |Fat()|
      modifies disk
      ensures Valid() && IsChain(Fat(), longer) && chain <= longer
      ensures Extension(Fat(), longer, ok) == Extend(old(Fat()), chain, needed - extra)
    {
      var last, count := tail, counted;
      longer := chain;
      ghost var n := needed - extra;
      while count < needed
        invariant Valid() && IsChain(Fat(), longer) && chain <= longer && last == longer[|longer| - 1]
        invariant count == |longer| + extra && |Fat()| == |old(Fat())|
        invariant forall i: nat | i < |longer| :: longer[i] < |Fat()|
        invariant Extend(Fat(), longer, n) == Extend(old(Fat()), chain, n)
        decreases needed - count
      {
        var c := AppendOne(last, longer);
        if c == 0 {
          ok := false;
          return;
        }
        longer := longer + [c];
        last := c;
        count := count + 1;
      }
      ok := true;
    }

    /** Frees a chain: exactly its clusters become free. */
    method FreeClusters(start: nat, ghost chain: seq<nat>)
      requires Valid() && IsChain(Fat(), chain)
      requires if chain == [] then start < 2 || start >= EOC else start == chain[0]
      modifies disk
      ensures Valid() && Fat() == Freed(old(Fat()), chain)
    {
      ghost var fat0 := Fat();
      ghost var i := 0;
      var c := start;
      assert chain != [] ==> LinkOk(fat0, chain, 0);
      assert Fat() == Freed(fat0, chain[..0]);
      while c >= 2 && c < EOC
        invariant Valid() && 0 <= i <= |chain| && Fat() == Freed(fat0, chain[..i])
        invariant if i < |chain| then c == chain[i] && InTable(fat0, c) else c < 2 || c >= EOC
        decreases |chain| - i
      {
        assert LinkOk(fat0, chain, i);
        var next := NextCluster(c);
        assert next == fat0[c];
        WriteFatEntry(c, 0);
        assert chain[..i + 1] == chain[..i] + [c];
        assert Fat() == Freed(fat0, chain[..i + 1]);
        i := i + 1;
        c := next;
        assert i < |chain| ==> LinkOk(fat0, chain, i);
      }
      assert chain[..i] == chain;
    }
  }

  /** When every cluster of the disk is taken and the table has a free entry beyond them, the
      scan hands out that entry: a cluster none of whose sectors lies on the disk. */
  lemma FullDiskOverrun(d: Disk, g: Geometry, fat: Fat)
    requires GeometryOk(g, |d|) && |fat| == g.Clusters()
    requires forall c: nat | 2 <= c < DataEnd(g, |d|) && c < |fat| :: fat[c] != 0
    requires exists c: nat | 2 <= c < |fat| :: fat[c] == 0
    ensures FindFree(fat, 2) >= DataEnd(g, |d|) && !ClusterFits(d, g, FindFree(fat, 2))
  {
    var c: nat :| 2 <= c < |fat| && fat[c] == 0;
    assert FindFree(fat, 2) != 0;
    OnDiskIff(d, g, FindFree(fat, 2));
  }

  function BlankSector(): (s: Sector)
    ensures forall i: nat | i < 512 :: s[i] == 0
  {
    seq(512, _ => 0)
  }

  /** Three sectors, one of them data, its one cluster in use. */
  function SmallDisk(): Disk
  {
    [BlankSector(), PutLe32(BlankSector(), 8, EOC), BlankSector()]
  }

  /** Such a volume: its only cluster is taken, and the scan hands out the next number. */
  lemma SmallFullDisk()
    ensures var g := Geometry(1, 1, 1, 1);
            && GeometryOk(g, |SmallDisk()|) && CopiesEqual(SmallDisk(), g) && ClusterFits(SmallDisk(), g, 2)
            && FindFree(Table(SmallDisk(), g, 0), 2) == 3 && !ClusterFits(SmallDisk(), g, 3)
  {
    var blank := BlankSector();
    PutLe32Reads(blank, 8, EOC, 8);
    PutLe32Reads(blank, 8, EOC, 12);
    assert Le32(blank, 12) == 0;
    SmallTable(SmallDisk());
  }

  lemma SmallTable(d: Disk)
    requires |d| == 3 && Le32(d[1], 8) == EOC && Le32(d[1], 12) == 0
    ensures FindFree(Table(d, Geometry(1, 1, 1, 1), 0), 2) == 3
  {
    var g := Geometry(1, 1, 1, 1);
    SmallEntry(d, 2);
    SmallEntry(d, 3);
    ThirdIsFree(Table(d, g, 0));
  }

  /** Its one cluster is a chain. */
  lemma SmallChain()
    ensures IsChain(Table(SmallDisk(), Geometry(1, 1, 1, 1), 0), [2])
  {
    PutLe32Reads(BlankSector(), 8, EOC, 8);
    SmallEntry(SmallDisk(), 2);
  }

  lemma SmallEntry(d: Disk, c: nat)
    requires |d| == 3 && c < 128 && Le32(d[1], c % 128 * 4) < 0x1000_0000
    ensures Table(d, Geometry(1, 1, 1, 1), 0)[c] == Le32(d[1], c % 128 * 4)
  {
    assert Lba(Geometry(1, 1, 1, 1), 0, c) == 1;
  }

  lemma ThirdIsFree(fat: Fat)
    requires |fat| > 3 && fat[2] != 0 && fat[3] == 0
    ensures FindFree(fat, 2) == 3
  {
    var c := FindFree(fat, 2);
    assert c != 0 && c <= 3;
  }

  /** A chain of distinct clusters is no longer than the table. */
  lemma ChainFits(fat: Fat, chain: seq<nat>)
    requires IsChain(fat, chain)
    ensures |chain| <= |fat|
  {
    var members := set c: nat | c in chain;
    var all := Range(|fat|);
    RangeCount(|fat|);
    forall c | c in members ensures c in all {
      ChainNotFree(fat, chain, c);
    }
    DistinctCount(chain);
    SubsetCount(members, all);
  }

  lemma {:induction false} DistinctCount(chain: seq<nat>)
    requires NoDup(chain)
    ensures |set c: nat | c in chain| == |chain|
  {
    if chain != [] {
      var front, last := chain[..|chain| - 1], chain[|chain| - 1];
      DistinctCount(front);
      assert (set c: nat | c in chain) == (set c: nat | c in front) + {last};
      assert last !in front;
    } else {
      assert (set c: nat | c in chain) == {};
    }
  }

  function Range(n: nat): set<nat>
  {
    if n == 0 then {} else Range(n - 1) + {n - 1}
  }

  lemma {:induction false} RangeCount(n: nat)
    ensures |Range(n)| == n && forall c: nat :: c in Range(n) <==> c < n
  {
    if n > 0 {
      RangeCount(n - 1);
    }
  }

  lemma {:induction false} SubsetCount(a: set<nat>, b: set<nat>)
    requires a <= b
    ensures |a| <= |b|
  {
    if a != {} {
      var x :| x in a;
      SubsetCount(a - {x}, b - {x});
    }
  }
}
