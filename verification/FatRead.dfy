/** Reading a FAT32 file through an open handle: any split of the file into reads delivers
    its bytes in order. */
module FatRead {
  import opened Common
  import opened FatChains
  import opened Fat32

  const FS_EOF: int := -2
  const WORD32: nat := 0x1_0000_0000

  // ---------------------------------------------------------------- arithmetic of positions

  /** Position `p` in units of `cs`: the quotient, and the remainder. */
  function Slot(p: nat, cs: nat): nat
    requires cs > 0
  {
    if p < cs then 0 else 1 + Slot(p - cs, cs)
  }

  function Rest(p: nat, cs: nat): (r: nat)
    requires cs > 0
    ensures r < cs
  {
    if p < cs then p else Rest(p - cs, cs)
  }

  function Span(n: nat, cs: nat): nat
  {
    if n == 0 then 0 else Span(n - 1, cs) + cs
  }

  /** These are the usual quotient, remainder and product. */
  lemma {:induction false} SlotRest(p: nat, cs: nat)
    requires cs > 0
    ensures p == Slot(p, cs) * cs + Rest(p, cs) && Span(Slot(p, cs), cs) == Slot(p, cs) * cs
  {
    if p >= cs {
      SlotRest(p - cs, cs);
      assert (Slot(p - cs, cs) + 1) * cs == Slot(p - cs, cs) * cs + cs;
    }
  }

  /** A position that stays in its cluster, or reaches the start of the next one. */
  lemma {:induction false} Advance(pos: nat, j: nat, cs: nat)
    requires cs > 0 && Rest(pos, cs) + j <= cs
    ensures Rest(pos, cs) + j < cs ==> Slot(pos + j, cs) == Slot(pos, cs) && Rest(pos + j, cs) == Rest(pos, cs) + j
    ensures Rest(pos, cs) + j == cs ==> Slot(pos + j, cs) == Slot(pos, cs) + 1 && Rest(pos + j, cs) == 0
  {
    if pos >= cs {
      Advance(pos - cs, j, cs);
    }
  }

  lemma {:induction false} IndexInChain(pos: nat, n: nat, cs: nat)
    requires cs > 0 && pos < Span(n, cs)
    ensures Slot(pos, cs) < n
  {
    if pos >= cs {
      IndexInChain(pos - cs, n - 1, cs);
    }
  }

  lemma {:induction false} SlotBelow(pos: nat, n: nat, cs: nat)
    requires cs > 0 && Slot(pos, cs) >= n
    ensures pos >= Span(n, cs)
  {
    if n > 0 {
      SlotBelow(pos - cs, n - 1, cs);
    }
  }

  // ---------------------------------------------------------------- contents

  function ClusterSize(g: Geometry): nat
  {
    512 * g.perCluster
  }

  /** `n` consecutive sectors as one run of bytes. */
  function SectorRun(d: Disk, from: nat, n: nat): (b: seq<Byte>)
    requires from + n <= |d|
    ensures |b| == 512 * n
  {
    if n == 0 then [] else SectorRun(d, from, n - 1) + d[from + n - 1]
  }

  function ClusterBytes(d: Disk, g: Geometry, c: nat): (b: seq<Byte>)
    requires ClusterFits(d, g, c)
    ensures |b| == ClusterSize(g)
  {
    SectorRun(d, ClusterSector(g, c), g.perCluster)
  }

  lemma {:induction false} SectorRunAt(d: Disk, from: nat, n: nat, i: nat)
    requires from + n <= |d| && i < 512 * n
    ensures SectorRun(d, from, n)[i] == d[from + i / 512][i % 512]
  {
    if i < 512 * (n - 1) {
      SectorRunAt(d, from, n - 1, i);
    }
  }

  /** Byte `i` of a cluster lies in the sector, counted from the cluster's first, that holds it. */
  lemma ClusterByteAt(d: Disk, g: Geometry, c: nat, i: nat)
    requires ClusterFits(d, g, c) && i < 512 * g.perCluster
    ensures g.reserved + g.copies * g.perFat + (c - 2) * g.perCluster + i / 512 < |d|
    ensures ClusterBytes(d, g, c)[i] == d[g.reserved + g.copies * g.perFat + (c - 2) * g.perCluster + i / 512][i % 512]
  {
    SectorRunAt(d, ClusterSector(g, c), g.perCluster, i);
  }

  /** A position lies in one cluster, at one offset. */
  lemma PlaceUnique(cs: nat, k: nat, i: nat, q: nat, r: nat)
    requires k * cs + i == q * cs + r && i < cs && r < cs
    ensures k == q && i == r
  {
    if k < q {
      MulStep(k, q, cs);
    } else if q < k {
      MulStep(q, k, cs);
    }
  }

  lemma PlaceOf(cs: nat, k: nat, i: nat)
    requires i < cs
    ensures Slot(k * cs + i, cs) == k && Rest(k * cs + i, cs) == i
  {
    var p := k * cs + i;
    SlotRest(p, cs);
    PlaceUnique(cs, k, i, Slot(p, cs), Rest(p, cs));
  }

  /** Byte `i` of the file's `k`-th cluster, by sector: the cluster the chain names, the sector in
      it that holds the offset, and the byte in that. */
  lemma ContentAt(d: Disk, g: Geometry, chain: seq<nat>, size: nat, k: nat, i: nat)
    requires k < |chain| && ClusterFits(d, g, chain[k])
    requires i < 512 * g.perCluster && k * (512 * g.perCluster) + i < size
    ensures var sector := g.reserved + g.copies * g.perFat + (chain[k] - 2) * g.perCluster + i / 512;
            sector < |d| && Content(d, g, chain, size)[k * (512 * g.perCluster) + i] == d[sector][i % 512]
  {
    ClusterByteAt(d, g, chain[k], i);
    PlaceOf(ClusterSize(g), k, i);
  }

  /** The same for byte `p` of a file. */
  lemma ContentByte(d: Disk, g: Geometry, chain: seq<nat>, size: nat, p: nat, k: nat, i: nat)
    requires g.perCluster > 0 && p < size && k == p / (512 * g.perCluster) && i == p % (512 * g.perCluster)
    requires k < |chain| && ClusterFits(d, g, chain[k])
    ensures var sector := g.reserved + g.copies * g.perFat + (chain[k] - 2) * g.perCluster + i / 512;
            sector < |d| && Content(d, g, chain, size)[p] == d[sector][i % 512]
  {
    var cs := 512 * g.perCluster;
    DivMod(p, cs);
    ContentAt(d, g, chain, size, k, i);
  }

  lemma DivMod(p: nat, cs: nat)
    requires cs > 0
    ensures p == p / cs * cs + p % cs && 0 <= p % cs < cs && 0 <= p / cs
  {
  }

  /** Byte `p` of a file: the remainder selects the byte in the cluster the quotient selects. */
  ghost function FileByte(d: Disk, g: Geometry, chain: seq<nat>, p: nat): Byte
    requires g.perCluster > 0
  {
    if Slot(p, ClusterSize(g)) < |chain| && ClusterFits(d, g, chain[Slot(p, ClusterSize(g))])
    then ClusterBytes(d, g, chain[Slot(p, ClusterSize(g))])[Rest(p, ClusterSize(g))] else 0
  }

  ghost function Content(d: Disk, g: Geometry, chain: seq<nat>, size: nat): (b: seq<Byte>)
    requires g.perCluster > 0
    ensures |b| == size
  {
    seq(size, p requires 0 <= p => FileByte(d, g, chain, p))
  }

  // ---------------------------------------------------------------- the open file

  class OpenFile {
    const size: nat
    var current: nat
    var position: nat

    constructor (start: nat, length: nat)
      ensures size == length && current == start && position == 0
    {
      size, current, position := length, start, 0;
    }
  }

  /** All clusters of a chain lie on the disk. */
  ghost predicate ChainOnDisk(v: Volume32, chain: seq<nat>)
    reads v, v.disk
  {
    v.Valid() && IsChain(v.Fat(), chain) && forall c <- chain :: ClusterFits(v.disk[..], v.g, c)
  }

  /** The handle stands on the cluster that holds its position, or past the last one. */
  ghost predicate HandleOk(v: Volume32, f: OpenFile, chain: seq<nat>)
    reads v, v.disk, f
  {
    && ChainOnDisk(v, chain)
    && f.size <= Span(|chain|, ClusterSize(v.g)) && f.size < WORD32
    && f.position <= Span(|chain|, ClusterSize(v.g)) && f.position < WORD32
    && OnCluster(chain, Slot(f.position, ClusterSize(v.g)), f.current)
  }

  /** The handle stands on some cluster of its chain, or past the last one. */
  ghost predicate HandleSafe(v: Volume32, f: OpenFile, chain: seq<nat>, i: nat)
    reads v, v.disk, f
  {
    && ChainOnDisk(v, chain) && i <= |chain| && OnCluster(chain, i, f.current)
    && f.size <= Span(|chain|, ClusterSize(v.g)) && f.size < WORD32 && f.position < WORD32
  }

  ghost predicate OnCluster(chain: seq<nat>, i: nat, c: nat)
  {
    if i < |chain| then c == chain[i] else c >= EOC || chain == []
  }

  method ReadCluster(v: Volume32, c: nat) returns (buf: seq<Byte>)
    requires v.Valid() && 2 <= c < v.g.Clusters() && ClusterFits(v.disk[..], v.g, c)
    ensures buf == ClusterBytes(v.disk[..], v.g, c) && |buf| == 512 * v.g.perCluster
    ensures forall i: nat | i < |buf| ::
              var sector := v.g.reserved + v.g.copies * v.g.perFat + (c - 2) * v.g.perCluster + i / 512;
              sector < v.disk.Length && buf[i] == v.disk[sector][i % 512]
  {
    var sector := v.g.FirstData() + (c - 2) * v.g.perCluster;
    buf := [];
    for i := 0 to v.g.perCluster
      invariant buf == SectorRun(v.disk[..], sector, i)
    {
      buf := buf + v.disk[sector + i];
    }
    forall i: nat | i < |buf|
      ensures var at := v.g.reserved + v.g.copies * v.g.perFat + (c - 2) * v.g.perCluster + i / 512;
              at < v.disk.Length && buf[i] == v.disk[at][i % 512]
    {
      ClusterByteAt(v.disk[..], v.g, c, i);
    }
  }

  /** All bytes the chain holds, those behind the end of the file included. */
  ghost function Whole(d: Disk, g: Geometry, chain: seq<nat>): (b: seq<Byte>)
    requires g.perCluster > 0
    ensures |b| == Span(|chain|, ClusterSize(g))
  {
    Content(d, g, chain, Span(|chain|, ClusterSize(g)))
  }

  /** The file is what the chain holds up to its size. */
  lemma ContentOfWhole(d: Disk, g: Geometry, chain: seq<nat>, size: nat)
    requires g.perCluster > 0 && size <= Span(|chain|, ClusterSize(g))
    ensures Content(d, g, chain, size) == Whole(d, g, chain)[..size]
  {
  }

  lemma {:induction false} SpanAligned(n: nat, cs: nat)
    requires cs > 0
    ensures Slot(Span(n, cs), cs) == n && Rest(Span(n, cs), cs) == 0
  {
    if n > 0 {
      SpanAligned(n - 1, cs);
    }
  }

  /** A position never passes the end of its cluster. */
  lemma {:induction false} ClusterEnd(pos: nat, j: nat, n: nat, cs: nat)
    requires cs > 0 && pos < Span(n, cs) && Rest(pos, cs) + j <= cs
    ensures pos + j <= Span(n, cs)
  {
    if pos >= cs {
      ClusterEnd(pos - cs, j, n - 1, cs);
    } else {
      SpanGrows(1, n, cs);
    }
  }

  lemma {:induction false} SpanGrows(m: nat, n: nat, cs: nat)
    requires m <= n
    ensures Span(m, cs) <= Span(n, cs)
  {
    if m < n {
      SpanGrows(m, n - 1, cs);
    }
  }

  /** One piece of a read: the bytes from the position up to the end of its cluster, and where
      the position then stands. */
  lemma PieceOfWhole(d: Disk, g: Geometry, chain: seq<nat>, pos: nat, piece: seq<Byte>)
    requires g.perCluster > 0 && pos < Span(|chain|, ClusterSize(g)) && 0 < |piece|
    requires Rest(pos, ClusterSize(g)) + |piece| <= ClusterSize(g)
    requires Slot(pos, ClusterSize(g)) < |chain| && ClusterFits(d, g, chain[Slot(pos, ClusterSize(g))])
    requires piece == ClusterBytes(d, g, chain[Slot(pos, ClusterSize(g))])[Rest(pos, ClusterSize(g))..][..|piece|]
    ensures pos + |piece| <= |Whole(d, g, chain)| && piece == Whole(d, g, chain)[pos..pos + |piece|]
    ensures var i := Slot(pos, ClusterSize(g));
            Slot(pos + |piece|, ClusterSize(g)) == if Rest(pos + |piece|, ClusterSize(g)) == 0 then i + 1 else i
  {
    var cs := ClusterSize(g);
    ClusterEnd(pos, |piece|, |chain|, cs);
    var w := Whole(d, g, chain);
    forall j: nat | j < |piece| ensures piece[j] == w[pos + j] {
      Advance(pos, j, cs);
      assert w[pos + j] == FileByte(d, g, chain, pos + j);
    }
    assert piece == w[pos..pos + |piece|];
    Advance(pos, |piece|, cs);
  }

  lemma JoinSlices(w: seq<Byte>, a: nat, b: nat, c: nat)
    requires a <= b <= c <= |w|
    ensures w[a..b] + w[b..c] == w[a..c]
  {
  }

  /** An unsigned 32-bit number returned as a signed one. */
  function AsInt(n: nat): int
  {
    if n < 0x8000_0000 then n else n - 0x1_0000_0000
  }

  /** The bytes a read delivers from position `pos` of a file of `size` bytes whose chain holds
      `span`: it is cut at the end of the file, unless the 32-bit sum of the test wraps, when
      only the end of the chain stops it. */
  function Delivered(pos: nat, len: nat, size: nat, span: nat): nat
    requires pos < size <= span
  {
    if pos + len < WORD32 then Min(len, size - pos) else Min(len, span - pos)
  }

  /** A read stays within the file if and only if the sum does not wrap or the file fills its
      chain. */
  lemma WithinFileIff(pos: nat, len: nat, size: nat, span: nat)
    requires pos < size <= span && size < WORD32
    ensures Delivered(pos, len, size, span) == Min(len, size - pos) <==> pos + len < WORD32 || size == span
  {
  }

  /** Reads up to `len` bytes and advances the position by the number delivered.  They are the
      file's next bytes exactly when the 32-bit sum of position and length does not wrap or the
      file fills its chain.  Without a wrap the value returned is `len` itself, so it tells the
      number delivered exactly when `len` does not pass the end of the file. */
  method Read(v: Volume32, f: OpenFile, len: nat, ghost chain: seq<nat>, ghost i: nat)
    returns (ret: int, out: seq<Byte>, ghost j: nat)
    requires HandleSafe(v, f, chain, i) && len < WORD32
    modifies f
    ensures HandleSafe(v, f, chain, j)
    ensures old(f.position) >= f.size ==>
              ret == FS_EOF && out == [] && f.position == old(f.position) && f.current == old(f.current)
    ensures old(HandleOk(v, f, chain)) && old(f.position) < f.size
            && (old(f.position) + len < WORD32 || Span(|chain|, ClusterSize(v.g)) <= WORD32) ==>
              && |out| == Delivered(old(f.position), len, f.size, Span(|chain|, ClusterSize(v.g)))
              && old(f.position) + |out| <= |Whole(v.disk[..], v.g, chain)|
              && out == Whole(v.disk[..], v.g, chain)[old(f.position)..old(f.position) + |out|]
              && (old(f.position) + |out| <= f.size <==>
                    old(f.position) + len < WORD32 || f.size == Span(|chain|, ClusterSize(v.g)))
              && f.position == Low32(old(f.position) + |out|)
              && (old(f.position) + |out| < WORD32 ==> HandleOk(v, f, chain))
              && ret == AsInt(if old(f.position) + len < WORD32 then len else |out|)
    ensures old(HandleOk(v, f, chain)) && old(f.position) < f.size && old(f.position) + len < WORD32 && len < 0x8000_0000 ==>
              (ret == |out| <==> old(f.position) + len <= f.size)
  {
    out, j := [], i;
    if f.position >= f.size {
      return FS_EOF, [], i;
    }
    var remaining := if Low32(f.position + len) > f.size then f.size - f.position else len;
    out, j := ReadLoop(v, f, remaining, chain, i);
    ret := AsInt(len - (remaining - |out|));
  }

  /** Whether the position cannot wrap within a read of `total` bytes. */
  ghost predicate NoWrap(start: nat, total: nat, span: nat)
  {
    start + total < WORD32 || span <= WORD32
  }

  /** Follows the chain until `total` bytes are delivered or it ends. */
  method ReadLoop(v: Volume32, f: OpenFile, total: nat, ghost chain: seq<nat>, ghost from: nat)
    returns (out: seq<Byte>, ghost i: nat)
    requires HandleSafe(v, f, chain, from) && f.position < f.size
    modifies f
    ensures HandleSafe(v, f, chain, i) && |out| <= total
    ensures old(HandleOk(v, f, chain)) && NoWrap(old(f.position), total, Span(|chain|, ClusterSize(v.g))) ==>
              && |out| == Min(total, Span(|chain|, ClusterSize(v.g)) - old(f.position))
              && out == Whole(v.disk[..], v.g, chain)[old(f.position)..old(f.position) + |out|]
              && f.position == Low32(old(f.position) + |out|)
              && (old(f.position) + |out| < WORD32 ==> HandleOk(v, f, chain))
  {
    ghost var cs, span, start := ClusterSize(v.g), Span(|chain|, ClusterSize(v.g)), f.position;
    ghost var whole, exact := Whole(v.disk[..], v.g, chain), HandleOk(v, f, chain) && NoWrap(start, total, span);
    ghost var pos: nat := start;
    i := from;
    if exact {
      IndexInChain(start, |chain|, cs);
      i := Slot(start, cs);
    }
    out := [];
    while |out| < total && f.current < EOC
      invariant |out| <= total && HandleSafe(v, f, chain, i)
      invariant exact ==> Exact(whole, start, pos, out, i, cs) && f.position == Low32(pos) && pos <= WORD32
      decreases total - |out|
    {
      var piece;
      piece, i := ReadNext(v, f, total - |out|, chain, i, exact, start, pos, out);
      pos := pos + |piece|;
      out := out + piece;
    }
    assert i < |chain| ==> LinkOk(v.Fat(), chain, i);
    if exact && |out| < total {
      SlotBelow(pos, |chain|, cs);
    }
  }

  /** One piece, and what it adds to what was delivered so far. */
  method ReadNext(v: Volume32, f: OpenFile, remaining: nat, ghost chain: seq<nat>, ghost i: nat,
                  ghost exact: bool, ghost start: nat, ghost pos: nat, ghost out: seq<Byte>)
    returns (piece: seq<Byte>, ghost j: nat)
    requires HandleSafe(v, f, chain, i) && 0 < remaining && i < |chain|
    requires exact ==> Exact(Whole(v.disk[..], v.g, chain), start, pos, out, i, ClusterSize(v.g)) && f.position == Low32(pos)
    requires exact ==> pos + remaining < WORD32 || (pos <= WORD32 && Span(|chain|, ClusterSize(v.g)) <= WORD32)
    modifies f
    ensures HandleSafe(v, f, chain, j) && 0 < |piece| <= remaining
    ensures exact ==> Exact(Whole(v.disk[..], v.g, chain), start, pos + |piece|, out + piece, j, ClusterSize(v.g))
    ensures exact ==> f.position == Low32(pos + |piece|) && pos + |piece| <= WORD32
  {
    if exact {
      SlotBelowLess(pos, i, |chain|, ClusterSize(v.g));
    }
    piece, j := ReadPiece(v, f, remaining, chain, i);
    if exact {
      ExactStep(v.disk[..], v.g, chain, start, pos, out, piece, i, j);
    }
  }

  /** What was delivered so far is what the chain holds from `start` to `pos`. */
  ghost predicate Exact(whole: seq<Byte>, start: nat, pos: nat, out: seq<Byte>, i: nat, cs: nat)
    requires cs > 0
  {
    start <= pos == start + |out| <= |whole| && out == whole[start..pos] && i == Slot(pos, cs)
  }

  lemma ExactStep(d: Disk, g: Geometry, chain: seq<nat>, start: nat, pos: nat, out: seq<Byte>, piece: seq<Byte>, i: nat, j: nat)
    requires g.perCluster > 0 && pos < Span(|chain|, ClusterSize(g)) && pos < WORD32
    requires i < |chain| && ClusterFits(d, g, chain[i]) && Exact(Whole(d, g, chain), start, pos, out, i, ClusterSize(g))
    requires 0 < |piece| <= ClusterSize(g) - Rest(pos, ClusterSize(g))
    requires piece == ClusterBytes(d, g, chain[i])[Rest(pos, ClusterSize(g))..][..|piece|]
    requires j == if Rest(Low32(pos + |piece|), ClusterSize(g)) == 0 then i + 1 else i
    requires pos + |piece| < WORD32 || Span(|chain|, ClusterSize(g)) <= WORD32
    ensures Exact(Whole(d, g, chain), start, pos + |piece|, out + piece, j, ClusterSize(g)) && pos + |piece| <= WORD32
  {
    PieceOfWhole(d, g, chain, pos, piece);
    JoinSlices(Whole(d, g, chain), start, pos, pos + |piece|);
    SpanAligned(|chain|, ClusterSize(g));
  }

  lemma SlotBelowLess(pos: nat, i: nat, n: nat, cs: nat)
    requires cs > 0 && i == Slot(pos, cs) < n && pos <= Span(n, cs)
    ensures pos < Span(n, cs)
  {
    SpanAligned(n, cs);
  }

  method ReadChunk(v: Volume32, c: nat, from: nat, n: nat) returns (piece: seq<Byte>)
    requires v.Valid() && 2 <= c < v.g.Clusters() && ClusterFits(v.disk[..], v.g, c) && from + n <= ClusterSize(v.g)
    ensures piece == ClusterBytes(v.disk[..], v.g, c)[from..][..n]
  {
    var buf := ReadCluster(v, c);
    piece := buf[from..from + n];
  }

  /** Copies what the current cluster still holds of the read, and moves on to the next
      cluster at its end. */
  method ReadPiece(v: Volume32, f: OpenFile, remaining: nat, ghost chain: seq<nat>, ghost i: nat)
    returns (piece: seq<Byte>, ghost j: nat)
    requires ChainOnDisk(v, chain) && i < |chain| && f.current == chain[i] && f.position < WORD32 && 0 < remaining
    modifies f`position, f`current
    ensures ClusterFits(v.disk[..], v.g, chain[i]) && 0 < ClusterSize(v.g)
    ensures |piece| == Min(remaining, ClusterSize(v.g) - Rest(old(f.position), ClusterSize(v.g))) > 0
    ensures piece == ClusterBytes(v.disk[..], v.g, chain[i])[Rest(old(f.position), ClusterSize(v.g))..][..|piece|]
    ensures f.position == Low32(old(f.position) + |piece|)
    ensures j == (if Rest(f.position, ClusterSize(v.g)) == 0 then i + 1 else i) && OnCluster(chain, j, f.current)
  {
    var cs := ClusterSize(v.g);
    assert LinkOk(v.Fat(), chain, i);
    assert chain[i] in chain;
    var clusterPos := Rest(f.position, cs);
    var chunk := if cs - clusterPos > remaining then remaining else cs - clusterPos;
    piece := ReadChunk(v, f.current, clusterPos, chunk);
    f.position := Low32(f.position + chunk);
    j := i;
    if Rest(f.position, cs) == 0 {
      f.current := v.NextCluster(f.current);
      j := i + 1;
    }
  }

  /** The bytes that reads of the given lengths ask for in all. */
  function Total(lens: seq<nat>): nat
  {
    if lens == [] then 0 else Total(lens[..|lens| - 1]) + lens[|lens| - 1]
  }

  /** Read `k` does not wrap the 32-bit sum of position and length before the end of the file. */
  ghost predicate PlainAt(lens: seq<nat>, size: nat, k: nat)
    requires k < |lens|
  {
    Total(lens[..k]) >= size || Total(lens[..k]) + lens[k] < WORD32
  }

  /** No read does. */
  ghost predicate Plain(lens: seq<nat>, size: nat)
  {
    forall k: nat | k < |lens| :: PlainAt(lens, size, k)
  }

  /** The file was delivered up to its end or to the bytes asked for. */
  ghost predicate Progress(whole: seq<Byte>, out: seq<Byte>, position: nat, size: nat, asked: nat)
  {
    position == Min(asked, size) <= |whole| && out == whole[..position]
  }

  lemma ProgressStep(whole: seq<Byte>, out: seq<Byte>, pos: nat, size: nat, asked: nat, len: nat, piece: seq<Byte>, now: nat)
    requires Progress(whole, out, pos, size, asked) && size <= |whole|
    requires if pos >= size then piece == [] && now == pos
             else |piece| == Min(len, size - pos) && piece == whole[pos..pos + |piece|] && now == pos + |piece|
    ensures Progress(whole, out + piece, now, size, asked + len)
  {
    if pos < size {
      JoinSlices(whole, 0, pos, pos + |piece|);
    }
  }

  lemma TotalStep(lens: seq<nat>, i: nat)
    requires i < |lens|
    ensures Total(lens[..i + 1]) == Total(lens[..i]) + lens[i]
  {
    assert lens[..i + 1][..i] == lens[..i];
  }

  /** Before a read that wraps everything was delivered as asked for. */
  lemma NotPlain(lens: seq<nat>, size: nat, i: nat)
    requires i < |lens| && Total(lens[..i]) < size && Total(lens[..i]) + lens[i] >= WORD32
    ensures !Plain(lens, size)
  {
    assert !PlainAt(lens, size, i);
  }

  /** What one read of a run adds: the next bytes of the file, or, when it wraps in a file that
      does not fill its chain, bytes behind the end. */
  lemma ReadAdds(whole: seq<Byte>, out: seq<Byte>, pos: nat, size: nat, asked: nat, len: nat, piece: seq<Byte>, now: nat)
    requires Progress(whole, out, pos, size, asked) && size <= |whole| && size < WORD32 && len < WORD32
    requires pos >= size || pos + len < WORD32 || |whole| <= WORD32
    requires if pos >= size then piece == [] && now == pos
             else |piece| == Delivered(pos, len, size, |whole|) && piece == whole[pos..pos + |piece|]
                  && now == Low32(pos + |piece|)
    ensures if pos >= size || pos + len < WORD32 || size == |whole| then Progress(whole, out + piece, now, size, asked + len)
            else |out + piece| > size && pos == asked
  {
    if pos >= size || pos + len < WORD32 || size == |whole| {
      ProgressStep(whole, out, pos, size, asked, len, piece, now);
    }
  }

  /** After `i` reads: everything was delivered as asked for, or some read wrapped and bytes behind
      the end of the file were delivered. */
  ghost predicate Going(whole: seq<Byte>, out: seq<Byte>, position: nat, size: nat, lens: seq<nat>, i: nat, reading: bool)
  {
    && i <= |lens|
    && (reading ==> Progress(whole, out, position, size, Total(lens[..i])))
    && (reading ==> size == |whole| || forall k: nat | k < i :: PlainAt(lens, size, k))
    && (!reading ==> !Plain(lens, size) && size != |whole| && (|whole| <= WORD32 ==> |out| > size))
  }

  lemma GoingStep(whole: seq<Byte>, out: seq<Byte>, pos: nat, size: nat, lens: seq<nat>, i: nat, piece: seq<Byte>, now: nat)
    returns (reading: bool)
    requires Going(whole, out, pos, size, lens, i, true) && i < |lens| && size <= |whole| && size < WORD32 && lens[i] < WORD32
    requires if pos >= size then piece == [] && now == pos
             else pos + lens[i] < WORD32 || |whole| <= WORD32 ==>
               && |piece| == Delivered(pos, lens[i], size, |whole|) && piece == whole[pos..pos + |piece|]
               && now == Low32(pos + |piece|)
    ensures reading <==> pos >= size || pos + lens[i] < WORD32 || size == |whole|
    ensures Going(whole, out + piece, now, size, lens, i + 1, reading)
    ensures reading && pos < size ==> now == pos + |piece|
  {
    TotalStep(lens, i);
    reading := pos >= size || pos + lens[i] < WORD32 || size == |whole|;
    if !reading {
      NotPlain(lens, size, i);
    }
    if reading || |whole| <= WORD32 {
      ReadAdds(whole, out, pos, size, Total(lens[..i]), lens[i], piece, now);
    }
  }

  /** What the last read leaves. */
  lemma AllRead(whole: seq<Byte>, out: seq<Byte>, position: nat, size: nat, lens: seq<nat>, reading: bool)
    requires Going(whole, out, position, size, lens, |lens|, reading) && size <= |whole|
    ensures Plain(lens, size) || size == |whole| ==> out == whole[..size][..Min(Total(lens), size)]
    ensures |whole| <= WORD32 ==> (out == whole[..size][..Min(Total(lens), size)] <==> Plain(lens, size) || size == |whole|)
    ensures reading || (!Plain(lens, size) && size != |whole|)
  {
    assert lens[..|lens|] == lens;
  }

  method ReadMore(v: Volume32, f: OpenFile, lens: seq<nat>, i: nat, ghost chain: seq<nat>, ghost at: nat,
                  ghost out: seq<Byte>, ghost reading: bool)
    returns (piece: seq<Byte>, ghost next: nat, ghost still: bool)
    requires HandleSafe(v, f, chain, at) && i < |lens| && lens[i] < WORD32
    requires reading ==> HandleOk(v, f, chain)
    requires Going(Whole(v.disk[..], v.g, chain), out, f.position, f.size, lens, i, reading)
    modifies f
    ensures HandleSafe(v, f, chain, next) && (still ==> HandleOk(v, f, chain))
    ensures Going(Whole(v.disk[..], v.g, chain), out + piece, f.position, f.size, lens, i + 1, still)
  {
    ghost var pos := f.position;
    still := reading;
    var ret;
    ret, piece, next := Read(v, f, lens[i], chain, at);
    if reading {
      still := GoingStep(Whole(v.disk[..], v.g, chain), out, pos, f.size, lens, i, piece, f.position);
    }
  }

  /** Any split of a file into reads from a fresh handle delivers its bytes in order if and only
      if no read wraps the 32-bit sum before the end of the file or the file fills its chain. */
  method ReadAll(v: Volume32, start: nat, size: nat, lens: seq<nat>, ghost chain: seq<nat>) returns (out: seq<Byte>)
    requires ChainOnDisk(v, chain) && size <= Span(|chain|, ClusterSize(v.g)) && size < WORD32
    requires chain != [] ==> start == chain[0]
    requires forall n <- lens :: n < WORD32
    ensures Plain(lens, size) || size == Span(|chain|, ClusterSize(v.g)) ==>
              out == Content(v.disk[..], v.g, chain, size)[..Min(Total(lens), size)]
    ensures Span(|chain|, ClusterSize(v.g)) <= WORD32 ==>
              (out == Content(v.disk[..], v.g, chain, size)[..Min(Total(lens), size)] <==>
                 Plain(lens, size) || size == Span(|chain|, ClusterSize(v.g)))
  {
    var f := new OpenFile(start, size);
    ghost var whole := Whole(v.disk[..], v.g, chain);
    out := [];
    var i := 0;
    ghost var reading, at := true, 0;
    while i < |lens|
      invariant i <= |lens| && f.size == size && whole == Whole(v.disk[..], v.g, chain)
      invariant HandleSafe(v, f, chain, at) && (reading ==> HandleOk(v, f, chain))
      invariant Going(whole, out, f.position, size, lens, i, reading)
    {
      assert lens[i] in lens;
      var piece;
      piece, at, reading := ReadMore(v, f, lens, i, chain, at, out, reading);
      out := out + piece;
      i := i + 1;
    }
    ContentOfWhole(v.disk[..], v.g, chain, size);
    AllRead(whole, out, f.position, size, lens, reading);
  }

  /** A volume on a small disk, whose one cluster is a chain. */
  method SmallVolume() returns (v: Volume32)
    ensures v.g == Geometry(1, 1, 1, 1) && ChainOnDisk(v, [2])
  {
    var disk := new Sector[3](i requires 0 <= i < 3 => SmallDisk()[i]);
    assert disk[..] == SmallDisk();
    SmallFullDisk();
    SmallChain();
    v := new Volume32(Geometry(1, 1, 1, 1), disk);
  }

  /** On that volume, a file of 100 bytes: after one byte, a request whose sum wraps delivers the
      511 bytes behind it. */
  method WrappedRead() returns (out: seq<Byte>, position: nat)
    ensures |out| == 511 && position == 512
  {
    var v := SmallVolume();
    var f := new OpenFile(2, 100);
    out := ReadPast(v, f);
    position := f.position;
  }

  method ReadPast(v: Volume32, f: OpenFile) returns (out: seq<Byte>)
    requires ChainOnDisk(v, [2]) && ClusterSize(v.g) == 512 && f.size == 100 && f.position == 0 && f.current == 2
    modifies f
    ensures |out| == 511 && f.position == 512
  {
    ghost var chain, at := [2], 0;
    assert Span(1, 512) == 512 && Slot(0, 512) == 0;
    var ret, first;
    ret, first, at := Read(v, f, 1, chain, at);
    ret, out, at := Read(v, f, 0xFFFF_FFFF, chain, at);
  }
}
