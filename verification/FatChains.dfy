/** FAT32 cluster chains on an abstract table: allocation, extension and freeing, and what
    every run of them keeps. */
module FatChains {
  import opened Common

  const EOC: nat := 0x0FFFFFF8
  const ENTRY_LIMIT: nat := 0x10000000

  /** One entry for each cluster; entries 0 and 1 are reserved.  Cluster numbers stay below
      the marks for bad and last clusters. */
  type Fat = seq<nat>

  ghost predicate TableOk(fat: Fat)
  {
    2 <= |fat| < EOC
  }

  predicate InTable(fat: Fat, c: nat)
  {
    2 <= c < |fat|
  }

  /** The i-th cluster leads to the next one, the last one to an end mark. */
  ghost predicate LinkOk(fat: Fat, chain: seq<nat>, i: nat)
    requires i < |chain|
  {
    && InTable(fat, chain[i])
    && if i + 1 < |chain| then fat[chain[i]] == chain[i + 1] else fat[chain[i]] >= EOC
  }

  /** A finite chain of distinct clusters; the empty chain belongs to a file without clusters. */
  ghost predicate IsChain(fat: Fat, chain: seq<nat>)
  {
    NoDup(chain) && forall i: nat {:trigger LinkOk(fat, chain, i)} | i < |chain| :: LinkOk(fat, chain, i)
  }

  lemma ChainNotFree(fat: Fat, chain: seq<nat>, c: nat)
    requires IsChain(fat, chain) && c in chain
    ensures InTable(fat, c) && fat[c] != 0
  {
    var i :| 0 <= i < |chain| && chain[i] == c;
    assert LinkOk(fat, chain, i);
    assert i + 1 < |chain| ==> LinkOk(fat, chain, i + 1);
  }

  /** A chain depends only on the entries of its own clusters. */
  lemma ChainFrame(fat: Fat, fat': Fat, chain: seq<nat>)
    requires IsChain(fat, chain) && |fat'| == |fat|
    requires forall c <- chain | c < |fat| :: fat'[c] == fat[c]
    ensures IsChain(fat', chain)
  {
    forall i: nat | i < |chain| ensures LinkOk(fat', chain, i) {
      assert LinkOk(fat, chain, i) && chain[i] in chain;
    }
  }

  // ---------------------------------------------------------------- allocation

  /** The lowest free cluster from `from` on, 0 when there is none. */
  function FindFree(fat: Fat, from: nat): (c: nat)
    requires 2 <= from
    ensures c == 0 ==> forall x: nat | from <= x < |fat| :: fat[x] != 0
    ensures c != 0 ==> from <= c < |fat| && fat[c] == 0 && forall x: nat | from <= x < c :: fat[x] != 0
    decreases |fat| - from
  {
    if from >= |fat| then 0 else if fat[from] == 0 then from else FindFree(fat, from + 1)
  }

  /** Marks a free cluster as the end of a chain and links it behind `last`. */
  function Appended(fat: Fat, last: nat, c: nat): Fat
    requires last < |fat| && c < |fat|
  {
    fat[c := EOC][last := c]
  }

  lemma AppendChain(fat: Fat, chain: seq<nat>, c: nat)
    requires IsChain(fat, chain) && chain != [] && InTable(fat, c) && fat[c] == 0 && TableOk(fat)
    ensures c !in chain
    ensures chain[|chain| - 1] < |fat| && IsChain(Appended(fat, chain[|chain| - 1], c), chain + [c])
  {
    var last := chain[|chain| - 1];
    assert LinkOk(fat, chain, |chain| - 1);
    forall x <- chain ensures InTable(fat, x) && fat[x] != 0 {
      ChainNotFree(fat, chain, x);
    }
    var fat', longer := Appended(fat, last, c), chain + [c];
    forall i: nat | i < |longer| ensures LinkOk(fat', longer, i) {
      if i < |chain| {
        assert LinkOk(fat, chain, i);
        assert i + 1 < |chain| ==> chain[i] != last;
      }
    }
  }

  /** The result of extending a chain: how far it got, and whether that was far enough. */
  datatype Extension = Extension(fat: Fat, chain: seq<nat>, ok: bool)

  /** Appends the lowest free cluster until the chain has `n` clusters or none is free. */
  function Extend(fat: Fat, chain: seq<nat>, n: nat): Extension
    requires chain != [] && forall i: nat | i < |chain| :: chain[i] < |fat|
    decreases n - |chain|
  {
    if |chain| >= n then Extension(fat, chain, true)
    else
      var c := FindFree(fat, 2);
      if c == 0 then Extension(fat, chain, false)
      else Extend(Appended(fat, chain[|chain| - 1], c), chain + [c], n)
  }

  /** The old chain is a prefix of the new one, only free clusters were added, every cluster
      outside the new chain keeps its entry; it stops early only on a full table. */
  lemma {:induction false} ExtendSound(fat: Fat, chain: seq<nat>, n: nat)
    requires TableOk(fat) && IsChain(fat, chain) && chain != [] && forall i: nat | i < |chain| :: chain[i] < |fat|
    ensures var e := Extend(fat, chain, n);
            && |e.fat| == |fat| && IsChain(e.fat, e.chain) && chain <= e.chain
            && (forall c <- e.chain[|chain|..] :: InTable(fat, c) && fat[c] == 0 && c !in chain)
            && (forall c: nat | c < |fat| && c !in e.chain :: e.fat[c] == fat[c])
            && (e.ok <==> |e.chain| >= n)
            && (e.ok ==> |e.chain| == Max(|chain|, n))
            && (!e.ok ==> forall c: nat | 2 <= c < |fat| :: e.fat[c] != 0)
    decreases n - |chain|
  {
    if |chain| < n {
      var c := FindFree(fat, 2);
      if c != 0 {
        var last := chain[|chain| - 1];
        AppendChain(fat, chain, c);
        var fat', longer := Appended(fat, last, c), chain + [c];
        ExtendSound(fat', longer, n);
        AppendedThen(fat, chain, c, Extend(fat', longer, n));
      }
    }
  }

  /** The last cluster added is marked as the end; without one the table is as it was. */
  lemma {:induction false} ExtendEnds(fat: Fat, chain: seq<nat>, n: nat)
    requires TableOk(fat) && IsChain(fat, chain) && chain != [] && forall i: nat | i < |chain| :: chain[i] < |fat|
    ensures var e := Extend(fat, chain, n);
            && |chain| <= |e.chain| && (|e.chain| == |chain| ==> e.fat == fat && e.chain == chain)
            && (|e.chain| > |chain| ==> var end := e.chain[|e.chain| - 1]; end < |e.fat| && e.fat[end] == 0x0FFFFFF8)
    decreases n - |chain|
  {
    if |chain| < n {
      var c := FindFree(fat, 2);
      if c != 0 {
        AppendChain(fat, chain, c);
        var last := chain[|chain| - 1];
        assert last in chain;
        ExtendEnds(Appended(fat, last, c), chain + [c], n);
      }
    }
  }

  /** What an extension does after one cluster was appended, seen from before that. */
  lemma AppendedThen(fat: Fat, chain: seq<nat>, c: nat, e: Extension)
    requires IsChain(fat, chain) && chain != [] && InTable(fat, c) && fat[c] == 0 && c !in chain
    requires chain[|chain| - 1] < |fat| && |e.fat| == |fat| && chain + [c] <= e.chain
    requires forall x <- e.chain[|chain| + 1..] ::
               InTable(fat, x) && Appended(fat, chain[|chain| - 1], c)[x] == 0 && x !in chain + [c]
    requires forall x: nat | x < |fat| && x !in e.chain :: e.fat[x] == Appended(fat, chain[|chain| - 1], c)[x]
    ensures chain <= e.chain
    ensures forall x <- e.chain[|chain|..] :: InTable(fat, x) && fat[x] == 0 && x !in chain
    ensures forall x: nat | x < |fat| && x !in e.chain :: e.fat[x] == fat[x]
  {
    var last, longer := chain[|chain| - 1], chain + [c];
    assert longer == e.chain[..|longer|];
    assert chain == longer[..|chain|] == e.chain[..|chain|];
    assert e.chain[|chain| - 1] == last && e.chain[|chain|] == c;
    assert e.chain[|chain|..] == [c] + e.chain[|chain| + 1..];
    forall x <- e.chain[|chain|..] ensures InTable(fat, x) && fat[x] == 0 && x !in chain {
      if x != c {
        assert x in e.chain[|chain| + 1..];
        assert x !in chain + [c] && last in chain;
      }
    }
    assert last in e.chain && c in e.chain;
  }

  function Max(a: nat, b: nat): nat
  {
    if a >= b then a else b
  }

  /** Extension of a file that has no cluster yet.  The first cluster is counted twice, so
      the chain ends one cluster short of the number asked for when that is above one. */
  function ExtendNew(fat: Fat, n: nat): Extension
  {
    var c := FindFree(fat, 2);
    if c == 0 then Extension(fat, [], false)
    else if n <= 1 then Extension(fat[c := EOC], [c], true)
    else Extend(fat[c := EOC], [c], n - 1)
  }

  lemma ExtendNewSound(fat: Fat, n: nat)
    requires TableOk(fat)
    ensures var e := ExtendNew(fat, n);
            && |e.fat| == |fat| && IsChain(e.fat, e.chain)
            && (forall c <- e.chain :: InTable(fat, c) && fat[c] == 0)
            && (forall c: nat | c < |fat| && c !in e.chain :: e.fat[c] == fat[c])
            && (e.ok ==> |e.chain| == if n <= 2 then 1 else n - 1)
            && (!e.ok ==> forall c: nat | 2 <= c < |fat| :: e.fat[c] != 0)
  {
    var c := FindFree(fat, 2);
    if c != 0 {
      var fat' := fat[c := EOC];
      assert LinkOk(fat', [c], 0);
      if n > 1 {
        ExtendSound(fat', [c], n - 1);
        var e := Extend(fat', [c], n - 1);
        assert e.chain == [c] + e.chain[1..];
      }
    }
  }

  // ---------------------------------------------------------------- freeing

  function Freed(fat: Fat, chain: seq<nat>): (r: Fat)
    ensures |r| == |fat|
  {
    seq(|fat|, c requires 0 <= c < |fat| => if c in chain then 0 else fat[c])
  }

  // ---------------------------------------------------------------- many files

  type Files = map<nat, seq<nat>>

  /** No cluster belongs to two files. */
  ghost predicate Apart(files: Files, a: nat, b: nat)
    requires a in files && b in files
  {
    a != b ==> forall c <- files[a] :: c !in files[b]
  }

  ghost predicate Inv(fat: Fat, files: Files)
  {
    && TableOk(fat)
    && (forall f {:trigger IsChain(fat, files[f])} | f in files :: IsChain(fat, files[f]))
    && (forall a, b {:trigger Apart(files, a, b)} | a in files && b in files :: Apart(files, a, b))
  }

  ghost function FreeSet(fat: Fat): set<nat>
  {
    set c: nat | c < |fat| && 2 <= c && fat[c] == 0
  }

  ghost function Chained(files: Files): set<nat>
  {
    set f, c | f in files && c in files[f] :: c
  }

  /** The clusters the file system can use: free ones and those in chains. */
  ghost function Pool(fat: Fat, files: Files): set<nat>
  {
    FreeSet(fat) + Chained(files)
  }

  /** Free and chained clusters are different, so the pool's size is the sum of theirs. */
  lemma PoolCounts(fat: Fat, files: Files)
    requires Inv(fat, files)
    ensures FreeSet(fat) !! Chained(files)
    ensures |Pool(fat, files)| == |FreeSet(fat)| + |Chained(files)|
  {
    forall c | c in Chained(files) ensures c !in FreeSet(fat) {
      var f :| f in files && c in files[f];
      assert IsChain(fat, files[f]);
      ChainNotFree(fat, files[f], c);
    }
  }

  /** A file's chain was replaced by one that keeps it as a prefix and adds free clusters. */
  ghost predicate Grown(fat: Fat, fat': Fat, chain: seq<nat>, chain': seq<nat>)
  {
    && |fat'| == |fat| && IsChain(fat', chain') && chain <= chain'
    && (forall c <- chain'[|chain|..] :: InTable(fat, c) && fat[c] == 0)
    && (forall c: nat | c < |fat| && c !in chain' :: fat'[c] == fat[c])
  }

  lemma GrowKeeps(fat: Fat, files: Files, f: nat, fat': Fat, chain': seq<nat>)
    requires Inv(fat, files) && (f in files ==> Grown(fat, fat', files[f], chain'))
    requires f !in files ==> Grown(fat, fat', [], chain')
    ensures Inv(fat', files[f := chain']) && Pool(fat', files[f := chain']) == Pool(fat, files)
  {
    var files' := files[f := chain'];
    var chain := if f in files then files[f] else [];
    assert f in files ==> IsChain(fat, files[f]);
    forall c <- chain' ensures c in chain || (InTable(fat, c) && fat[c] == 0) {
      var i :| 0 <= i < |chain'| && chain'[i] == c;
      assert i >= |chain| ==> chain'[|chain|..][i - |chain|] == c;
      assert i < |chain| ==> chain[i] == c;
    }
    forall g, c | g in files && g != f && c in files[g] ensures c !in chain' && c < |fat| {
      assert IsChain(fat, files[g]) && (f in files ==> Apart(files, g, f));
      ChainNotFree(fat, files[g], c);
    }
    forall g | g in files' ensures IsChain(fat', files'[g]) {
      if g != f {
        assert IsChain(fat, files[g]);
        ChainFrame(fat, fat', files[g]);
      }
    }
    forall a, b | a in files' && b in files' ensures Apart(files', a, b) {
      assert a in files && b in files ==> Apart(files, a, b);
    }
    GrowPool(fat, files, f, fat', chain', chain);
  }

  lemma PrefixMembers(chain: seq<nat>, chain': seq<nat>)
    requires chain <= chain'
    ensures forall c <- chain :: c in chain'
  {
    forall c <- chain ensures c in chain' {
      var i :| 0 <= i < |chain| && chain[i] == c;
      assert chain'[i] == c;
    }
  }

  lemma GrowPool(fat: Fat, files: Files, f: nat, fat': Fat, chain': seq<nat>, chain: seq<nat>)
    requires Grown(fat, fat', chain, chain') && chain == (if f in files then files[f] else []) && IsChain(fat, chain)
    requires forall c <- chain' :: c in chain || (InTable(fat, c) && fat[c] == 0)
    requires TableOk(fat)
    ensures Pool(fat', files[f := chain']) == Pool(fat, files)
  {
    var files' := files[f := chain'];
    PrefixMembers(chain, chain');
    forall c: nat ensures c in Pool(fat', files') <==> c in Pool(fat, files) {
      if c in chain' {
        assert f in files' && c in files'[f];
        assert c in Chained(files');
        if c in chain { assert f in files && c in files[f]; }
      } else {
        assert c in FreeSet(fat') <==> c in FreeSet(fat);
        assert c in Chained(files') <==> c in Chained(files) by {
          if c in Chained(files) {
            var g :| g in files && c in files[g];
            assert g != f && files'[g] == files[g];
          }
          if c in Chained(files') {
            var g :| g in files' && c in files'[g];
            assert g != f && files[g] == files'[g];
          }
        }
      }
    }
  }

  /** Freeing a file gives back exactly its chain. */
  lemma FreeKeeps(fat: Fat, files: Files, f: nat)
    requires Inv(fat, files) && f in files
    ensures Inv(Freed(fat, files[f]), files - {f})
    ensures Pool(Freed(fat, files[f]), files - {f}) == Pool(fat, files)
    ensures FreeSet(Freed(fat, files[f])) == FreeSet(fat) + (set c | c in files[f])
  {
    var fat', files' := Freed(fat, files[f]), files - {f};
    assert IsChain(fat, files[f]);
    forall c <- files[f] ensures InTable(fat, c) {
      ChainNotFree(fat, files[f], c);
    }
    forall g | g in files' ensures IsChain(fat', files'[g]) {
      assert IsChain(fat, files[g]) && Apart(files, g, f);
      ChainFrame(fat, fat', files[g]);
    }
    forall a, b | a in files' && b in files' ensures Apart(files', a, b) {
      assert Apart(files, a, b);
    }
    forall c: nat ensures c in Pool(fat', files') <==> c in Pool(fat, files) {
      if c in Chained(files) && c !in files[f] {
        var g :| g in files && c in files[g];
        assert g in files' && c in files'[g];
      }
      if c in Chained(files') {
        var g :| g in files' && c in files'[g];
        assert g in files && c in files[g];
      }
      if c in files[f] {
        assert c in Chained(files);
      }
    }
  }

  // ---------------------------------------------------------------- runs

  datatype Op = Extending(file: nat, clusters: nat) | Deleting(file: nat)

  datatype Volume = Volume(fat: Fat, files: Files)

  /** Extension of a file, with or without clusters so far. */
  ghost function ExtendFile(v: Volume, f: nat, n: nat): Volume
    requires Inv(v.fat, v.files)
  {
    if f in v.files && v.files[f] != [] then
      assert IsChain(v.fat, v.files[f]);
      ChainInRange(v.fat, v.files[f]);
      var e := Extend(v.fat, v.files[f], n);
      Volume(e.fat, v.files[f := e.chain])
    else
      var e := ExtendNew(v.fat, n);
      Volume(e.fat, v.files[f := e.chain])
  }

  lemma ChainInRange(fat: Fat, chain: seq<nat>)
    requires IsChain(fat, chain)
    ensures forall i: nat | i < |chain| :: InTable(fat, chain[i])
  {
    forall i: nat | i < |chain| ensures InTable(fat, chain[i]) {
      assert LinkOk(fat, chain, i);
    }
  }

  ghost function Apply(v: Volume, op: Op): Volume
    requires Inv(v.fat, v.files)
  {
    match op
    case Extending(f, n) => ExtendFile(v, f, n)
    case Deleting(f) => if f in v.files then Volume(Freed(v.fat, v.files[f]), v.files - {f}) else v
  }

  lemma ApplyKeeps(v: Volume, op: Op)
    requires Inv(v.fat, v.files)
    ensures Inv(Apply(v, op).fat, Apply(v, op).files)
    ensures Pool(Apply(v, op).fat, Apply(v, op).files) == Pool(v.fat, v.files)
  {
    match op
    case Extending(f, n) =>
      if f in v.files && v.files[f] != [] {
        assert IsChain(v.fat, v.files[f]);
        ChainInRange(v.fat, v.files[f]);
        ExtendSound(v.fat, v.files[f], n);
        var e := Extend(v.fat, v.files[f], n);
        GrowKeeps(v.fat, v.files, f, e.fat, e.chain);
      } else {
        ExtendNewSound(v.fat, n);
        var e := ExtendNew(v.fat, n);
        assert e.chain[0..] == e.chain;
        GrowKeeps(v.fat, v.files, f, e.fat, e.chain);
      }
    case Deleting(f) =>
      if f in v.files {
        FreeKeeps(v.fat, v.files, f);
      }
  }

  /** Over every run of extensions and deletions, chains stay finite, well linked and
      pairwise disjoint, and free plus chained clusters stay the same set. */
  ghost function Run(v: Volume, ops: seq<Op>): (w: Volume)
    requires Inv(v.fat, v.files)
    ensures Inv(w.fat, w.files) && Pool(w.fat, w.files) == Pool(v.fat, v.files)
  {
    if ops == [] then v else
      var u := Run(v, ops[..|ops| - 1]);
      ApplyKeeps(u, ops[|ops| - 1]);
      Apply(u, ops[|ops| - 1])
  }

  lemma RunConserves(v: Volume, ops: seq<Op>)
    requires Inv(v.fat, v.files)
    ensures var w := Run(v, ops);
            && Inv(w.fat, w.files)
            && |FreeSet(w.fat)| + |Chained(w.files)| == |FreeSet(v.fat)| + |Chained(v.files)|
  {
    var w := Run(v, ops);
    PoolCounts(v.fat, v.files);
    PoolCounts(w.fat, w.files);
  }
}
