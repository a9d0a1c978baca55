/** The in-memory file system: the node pool edited in place, each operation specified on
    the namespace it represents. */
module MemFs {
  import opened Common
  import opened PathWalk
  import opened MemFsTree

  /** Every prefix of a path in the namespace is in it too. */
  lemma {:induction false} PrefixIn(pool: Pool, ns: Names, kids: Kids, p: Path, i: nat)
    requires Inv(pool, ns, kids) && p in ns && i <= |p|
    ensures p[..i] in ns
    decreases |p|
  {
    if i == |p| {
      assert p[..i] == p;
    } else {
      assert UpOk(pool, ns, kids, p);
      PrefixIn(pool, ns, kids, Parent(p), i);
      assert Parent(p)[..i] == p[..i];
    }
  }

  /** The node a path string leads to. */
  function Resolved(ns: Names, path: string): int
  {
    match Parsed(path)
    case None => NIL
    case Some(parts) => Lookup(ns, parts.segs)
  }

  /** The segments of a path that parses. */
  function SegsOf(path: string): Path
  {
    match Parsed(path)
    case None => []
    case Some(parts) => parts.segs
  }

  /** When a new object can be made at a path. */
  ghost predicate CanAdd(tree: map<Path, Object>, pool: Pool, path: string)
  {
    && Parsed(path).Some? && SegsOf(path) != []
    && Parent(SegsOf(path)) in tree && tree[Parent(SegsOf(path))] == Directory
    && |Last(SegsOf(path))| < 12 && SegsOf(path) !in tree
    && HasFree(pool)
  }

  ghost predicate HasFree(pool: Pool)
  {
    exists i: nat | i < |pool| :: !pool[i].used
  }

  datatype Entry = Entry(name: string, kind: Kind, node: nat)

  class FileSystem {
    const nodes: array<Node>
    ghost var ns: Names
    ghost var kids: Kids

    ghost predicate Valid()
      reads this, nodes
    {
      Inv(nodes[..], ns, kids)
    }

    ghost function View(): map<Path, Object>
      reads this, nodes
    {
      Tree(nodes[..], ns)
    }

    /** A pool with an empty root directory in slot 0. */
    constructor ()
      ensures Valid() && View() == map[[] := Directory] && nodes.Length == 128 && fresh(nodes)
    {
      nodes := new Node[NODES](_ => BLANK);
      ns, kids := map[[] := 0], map[[] := []];
      new;
      nodes[0] := Node(true, Dir, "/", 0, NIL, NIL, []);
      assert UpOk(nodes[..], ns, kids, []) && DownOk(nodes[..], ns, kids, []);
    }

    /** Walks a sibling list; the list is finite, so the walk ends. */
    method FindChild(ghost p: Path, parent: nat, name: string) returns (c: int)
      requires Valid() && p in ns && ns[p] == parent
      ensures c == Lookup(ns, Sub(p, name))
    {
      ghost var pool, list := nodes[..], kids[p];
      assert DownOk(pool, ns, kids, p);
      c := nodes[parent].firstChild;
      ghost var i := 0;
      while c != NIL
        invariant 0 <= i <= |list| && c == (if i < |list| then list[i] else NIL)
        invariant forall k: nat | k < i :: N(pool, list[k]).name != name
        decreases |list| - i
      {
        assert list[i] in list;
        assert KidOk(pool, ns, p, list[i]);
        if nodes[c].name == name {
          return;
        }
        assert LinkOk(pool, list, i);
        c := nodes[c].nextSibling;
        i := i + 1;
      }
      AbsentChild(pool, ns, kids, p, name);
    }

    /** Follows a list of segments from the root. */
    method Follow(segs: Path) returns (cur: int)
      requires Valid()
      ensures cur == Lookup(ns, segs)
    {
      ghost var pool := nodes[..];
      assert UpOk(pool, ns, kids, []);
      cur := 0;
      var i := 0;
      while i < |segs|
        invariant 0 <= i <= |segs| && segs[..i] in ns && cur == ns[segs[..i]]
      {
        var c := FindChild(segs[..i], cur, segs[i]);
        assert Sub(segs[..i], segs[i]) == segs[..i + 1];
        if c == NIL {
          if segs in ns {
            PrefixIn(pool, ns, kids, segs, i + 1);
            assert false;
          }
          return NIL;
        }
        cur := c;
        i := i + 1;
      }
      assert segs[..i] == segs;
    }

    method ResolvePath(path: string) returns (n: int)
      requires Valid()
      ensures n == Resolved(ns, path)
    {
      var p := PathParse(path);
      if p.None? {
        return NIL;
      }
      n := Follow(p.value.segs);
    }

    method ResolveParent(path: string) returns (parent: int, name: string)
      requires Valid()
      ensures parent != NIL <==>
              && Parsed(path).Some? && SegsOf(path) != [] && Parent(SegsOf(path)) in ns && |Last(SegsOf(path))| < 12
      ensures parent != NIL ==> parent == ns[Parent(SegsOf(path))] && name == Last(SegsOf(path))
    {
      var p := PathParse(path);
      if p.None? || p.value.segs == [] {
        return NIL, "";
      }
      var segs := p.value.segs;
      parent := Follow(segs[..|segs| - 1]);
      name := segs[|segs| - 1];
      if parent == NIL || |name| >= NAME_MAX {
        return NIL, "";
      }
    }

    /** Takes the lowest free slot. */
    method AllocNode() returns (n: int)
      requires nodes.Length == NODES
      modifies nodes
      ensures n == NIL <==> !HasFree(old(nodes[..]))
      ensures n == NIL ==> nodes[..] == old(nodes[..])
      ensures n != NIL ==> 0 <= n < NODES && !old(nodes[n].used) && forall i: nat | i < n :: old(nodes[i].used)
      ensures n != NIL ==> nodes[..] == old(nodes[..])[n := BLANK.(used := true)]
    {
      for i := 0 to NODES
        invariant nodes[..] == old(nodes[..])
        invariant forall k: nat | k < i :: nodes[k].used
      {
        if !nodes[i].used {
          nodes[i] := BLANK.(used := true);
          return i;
        }
      }
      assert forall k: nat | k < NODES :: nodes[..][k] == nodes[k];
      return NIL;
    }

    /** The body shared by making a directory and creating a file. */
    method Add(path: string, kind: Kind) returns (ok: bool)
      requires Valid() && !kind.Unset?
      modifies this, nodes
      ensures Valid()
      ensures ok <==> CanAdd(old(View()), old(nodes[..]), path)
      ensures ok ==> View() == old(View())[SegsOf(path) := if kind.Dir? then Directory else Data([])]
      ensures !ok ==> View() == old(View()) && nodes[..] == old(nodes[..])
    {
      var parent, name := ResolveParent(path);
      if parent == NIL {
        return false;
      }
      ghost var pool, segs := nodes[..], SegsOf(path);
      assert UpOk(pool, ns, kids, Parent(segs));
      if !nodes[parent].kind.Dir? {
        return false;
      }
      var c := FindChild(Parent(segs), parent, name);
      assert Sub(Parent(segs), name) == segs;
      if c != NIL {
        return false;
      }
      var n := AllocNode();
      if n == NIL {
        return false;
      }
      nodes[n] := nodes[n].(kind := kind, name := name, parent := parent, nextSibling := nodes[parent].firstChild);
      nodes[parent] := nodes[parent].(firstChild := n);
      SegsClean(path);
      assert CanInsert(pool, ns, kids, Parent(segs), n, kind, name);
      assert nodes[..] == Inserted(pool, parent, n, kind, name);
      InsertKeeps(pool, ns, kids, Parent(segs), n, kind, name);
      InsertTree(pool, ns, kids, Parent(segs), n, kind, name);
      ns, kids := ns[segs := n], InsertedKids(kids, Parent(segs), name, n);
      return true;
    }

    /** Adds exactly one path, an empty directory. */
    method Mkdir(path: string) returns (ok: bool)
      requires Valid()
      modifies this, nodes
      ensures Valid()
      ensures ok <==> CanAdd(old(View()), old(nodes[..]), path)
      ensures ok ==> View() == old(View())[SegsOf(path) := Directory]
      ensures !ok ==> View() == old(View())
    {
      ok := Add(path, Dir);
    }

    /** Adds exactly one path, an empty file. */
    method Create(path: string) returns (ok: bool)
      requires Valid()
      modifies this, nodes
      ensures Valid()
      ensures ok <==> CanAdd(old(View()), old(nodes[..]), path)
      ensures ok ==> View() == old(View())[SegsOf(path) := Data([])]
      ensures !ok ==> View() == old(View())
    {
      ok := Add(path, File);
    }

    /** Takes a node out of its parent's list and frees its slot, and only its slot. */
    method Unlink(ghost p: Path, n: nat)
      requires Valid() && p in ns && p != [] && ns[p] == n
      modifies this, nodes
      ensures Valid() && View() == Without(old(View()), p) && ns == Without(old(ns), p)
      ensures forall i: nat | i < NODES :: nodes[i].used == (i != n && old(nodes[i].used))
    {
      ghost var pool := nodes[..];
      assert UpOk(pool, ns, kids, p);
      ghost var list := kids[Parent(p)];
      assert UpOk(pool, ns, kids, Parent(p)) && DownOk(pool, ns, kids, Parent(p));
      var parent := nodes[n].parent;
      ghost var k: nat :| k < |list| && list[k] == n;
      ghost var pred: int := NIL;
      if nodes[parent].firstChild == n {
        assert k == 0;
        nodes[parent] := nodes[parent].(firstChild := nodes[n].nextSibling);
      } else {
        var c := FindPred(Parent(p), parent, n, k);
        pred := c;
        assert list[k - 1] in list && KidOk(pool, ns, Parent(p), list[k - 1]);
        nodes[c] := nodes[c].(nextSibling := nodes[n].nextSibling);
      }
      nodes[n] := BLANK;
      assert At(pool, ns, kids, p, k, pred);
      assert nodes[..] == Unlinked(pool, parent, pred, n);
      UnlinkKeeps(pool, ns, kids, p, k, pred);
      UnlinkTree(pool, ns, kids, p, k, pred);
      UnlinkedUsed(pool, parent, pred, n);
      assert forall i: nat | i < NODES :: nodes[i] == nodes[..][i] && pool[i] == old(nodes[i]);
      ns, kids := Without(ns, p), UnlinkedKids(kids, p, k);
    }

    /** The sibling before the k-th one. */
    method FindPred(ghost p: Path, parent: nat, n: nat, ghost k: nat) returns (c: int)
      requires Valid() && p in ns && ns[p] == parent && 0 < k < |kids[p]| && kids[p][k] == n
      ensures c == kids[p][k - 1]
    {
      ghost var pool, list := nodes[..], kids[p];
      assert DownOk(pool, ns, kids, p);
      c := nodes[parent].firstChild;
      ghost var i := 0;
      assert list[0] in list && KidOk(pool, ns, p, list[0]) && LinkOk(pool, list, 0);
      while c != NIL && nodes[c].nextSibling != n
        invariant 0 <= i < k && c == list[i] && 0 <= c < NODES
        decreases k - i
      {
        assert LinkOk(pool, list, i);
        assert list[i + 1] in list && KidOk(pool, ns, p, list[i + 1]) && LinkOk(pool, list, i + 1);
        c := nodes[c].nextSibling;
        i := i + 1;
      }
      assert LinkOk(pool, list, i);
    }

    /** Deletes the path and everything beneath it from the namespace; frees one slot. */
    method Remove(path: string) returns (ok: bool)
      requires Valid()
      modifies this, nodes
      ensures Valid()
      ensures ok <==> Parsed(path).Some? && SegsOf(path) != [] && SegsOf(path) in old(View())
      ensures View() == if ok then Without(old(View()), SegsOf(path)) else old(View())
      ensures ok ==> forall i: nat | i < NODES ::
                nodes[i].used == (i != old(ns)[SegsOf(path)] && old(nodes[i].used))
    {
      var n := ResolvePath(path);
      ghost var pool := nodes[..];
      assert UpOk(pool, ns, kids, []);
      assert n > 0 ==> UpOk(pool, ns, kids, SegsOf(path));
      assert n == 0 ==> SegsOf(path) in ns && UpOk(pool, ns, kids, SegsOf(path));
      if n == NIL || n == 0 {
        return false;
      }
      Unlink(SegsOf(path), n);
      return true;
    }

    /** Deletes exactly one path, an empty directory. */
    method Rmdir(path: string) returns (ok: bool)
      requires Valid()
      modifies this, nodes
      ensures Valid()
      ensures ok <==> && Parsed(path).Some? && SegsOf(path) != [] && SegsOf(path) in old(View())
                      && old(View())[SegsOf(path)] == Directory
                      && forall q <- old(View()) :: SegsOf(path) <= q ==> q == SegsOf(path)
      ensures View() == if ok then old(View()) - {SegsOf(path)} else old(View())
    {
      var n := ResolvePath(path);
      ghost var pool, segs := nodes[..], SegsOf(path);
      assert UpOk(pool, ns, kids, []);
      assert n >= 0 ==> UpOk(pool, ns, kids, segs) && DownOk(pool, ns, kids, segs);
      if n == NIL || n == 0 {
        return false;
      }
      if !nodes[n].kind.Dir? {
        return false;
      }
      if nodes[n].firstChild != NIL {
        HasChild(pool, ns, kids, segs);
        return false;
      }
      ChildlessTree(pool, ns, kids, segs);
      Unlink(segs, n);
      return true;
    }

    /** Replaces one file's contents, cut to the payload size; returns the bytes stored. */
    method Write(path: string, data: seq<bv8>) returns (n: int)
      requires Valid()
      modifies nodes
      ensures Valid()
      ensures n >= 0 <==> Parsed(path).Some? && SegsOf(path) in old(View()) && old(View())[SegsOf(path)].Data?
      ensures n >= 0 ==>
                && n == (if |data| > 256 then 256 else |data|)
                && View() == old(View())[SegsOf(path) := Data(data[..n])]
      ensures n < 0 ==> n == NIL && View() == old(View())
    {
      var i := ResolvePath(path);
      ghost var pool := nodes[..];
      assert i >= 0 ==> UpOk(pool, ns, kids, SegsOf(path));
      if i == NIL {
        return NIL;
      }
      if !nodes[i].kind.File? {
        return NIL;
      }
      n := if |data| > PAYLOAD then PAYLOAD else |data|;
      WriteKeeps(pool, ns, kids, SegsOf(path), data[..n]);
      nodes[i] := nodes[i].(payload := data[..n]);
      assert nodes[..] == pool[i := pool[i].(payload := data[..n])];
    }

    /** Returns the first bytes of a file. */
    method Read(path: string, size: nat) returns (n: int, data: seq<bv8>)
      requires Valid()
      ensures n >= 0 <==> Parsed(path).Some? && SegsOf(path) in View() && View()[SegsOf(path)].Data?
      ensures n >= 0 ==>
                && n == (if size > |View()[SegsOf(path)].bytes| then |View()[SegsOf(path)].bytes| else size)
                && data == View()[SegsOf(path)].bytes[..n]
      ensures n < 0 ==> n == NIL
    {
      var i := ResolvePath(path);
      assert i >= 0 ==> UpOk(nodes[..], ns, kids, SegsOf(path));
      if i == NIL || !nodes[i].kind.File? {
        return NIL, [];
      }
      n := if size > |nodes[i].payload| then |nodes[i].payload| else size;
      data := nodes[i].payload[..n];
    }

    /** The entries of the first `max` children of the directory in slot `n`. */
    method FirstChildren(n: nat, max: nat, ghost segs: Path) returns (out: seq<Entry>)
      requires Valid() && segs in ns && segs in kids && ns[segs] == n
      ensures |out| == if |kids[segs]| <= max then |kids[segs]| else max
      ensures forall i: nat | i < |out| ::
                out[i] == Entry(N(nodes[..], kids[segs][i]).name, N(nodes[..], kids[segs][i]).kind, kids[segs][i])
    {
      ghost var pool := nodes[..];
      assert DownOk(pool, ns, kids, segs);
      out := [];
      ghost var list := kids[segs];
      var c := nodes[n].firstChild;
      while c != NIL && |out| < max
        invariant |out| <= |list| && |out| <= max
        invariant c == (if |out| < |list| then list[|out|] else NIL)
        invariant forall i: nat | i < |out| :: out[i] == Entry(N(pool, list[i]).name, N(pool, list[i]).kind, list[i])
        decreases |list| - |out|
      {
        assert list[|out|] in list && KidOk(pool, ns, segs, list[|out|]) && LinkOk(pool, list, |out|);
        out := out + [Entry(nodes[c].name, nodes[c].kind, c)];
        c := nodes[c].nextSibling;
      }
    }

    /** Lists a directory: different children, each with its own name and kind, and all of
        them if there are at most `max`. */
    method Ls(path: string, max: nat) returns (ok: bool, out: seq<Entry>)
      requires Valid()
      ensures ok <==> Parsed(path).Some? && SegsOf(path) in View() && View()[SegsOf(path)] == Directory
      ensures ok ==> |out| == if |Children(ns, SegsOf(path))| <= max then |Children(ns, SegsOf(path))| else max
      ensures ok ==> forall i: nat | i < |out| :: ListedOk(nodes[..], ns, SegsOf(path), out[i])
      ensures ok ==> forall i: nat, j: nat | i < j < |out| :: out[i].name != out[j].name
      ensures ok && |Children(ns, SegsOf(path))| <= max ==>
                forall name: string | Sub(SegsOf(path), name) in ns :: exists i: nat | i < |out| :: out[i].name == name
    {
      var n := ResolvePath(path);
      ghost var pool, segs := nodes[..], SegsOf(path);
      assert n >= 0 ==> UpOk(pool, ns, kids, segs) && DownOk(pool, ns, kids, segs);
      out := [];
      if n == NIL || !nodes[n].kind.Dir? {
        return false, [];
      }
      out := FirstChildren(n, max, segs);
      ListSound(pool, ns, kids, segs, out);
      ChildCount(pool, ns, kids, segs);
      ok := true;
    }
  }

  /** Entries made from the first children of a directory: different children of it, and all
      of them when no child is left over. */
  lemma ListSound(pool: Pool, ns: Names, kids: Kids, p: Path, out: seq<Entry>)
    requires Inv(pool, ns, kids) && p in ns && |out| <= |kids[p]|
    requires forall i: nat | i < |out| ::
               out[i] == Entry(N(pool, kids[p][i]).name, N(pool, kids[p][i]).kind, kids[p][i])
    ensures forall i: nat | i < |out| :: ListedOk(pool, ns, p, out[i])
    ensures forall i: nat, j: nat | i < j < |out| :: out[i].name != out[j].name
    ensures |out| == |kids[p]| ==> forall name: string | Sub(p, name) in ns :: exists i: nat | i < |out| :: out[i].name == name
  {
    var list := kids[p];
    assert DownOk(pool, ns, kids, p);
    forall i: nat | i < |out| ensures ListedOk(pool, ns, p, out[i]) {
      assert list[i] in list && KidOk(pool, ns, p, list[i]);
    }
    if |out| == |list| {
      forall name: string | Sub(p, name) in ns ensures exists i: nat | i < |out| :: out[i].name == name {
        assert UpOk(pool, ns, kids, Sub(p, name));
        var i: nat :| i < |list| && list[i] == ns[Sub(p, name)];
        assert out[i].name == name;
      }
    }
  }

  /** The paths just beneath a path. */
  ghost function Children(ns: Names, p: Path): set<Path>
  {
    set q | q in ns && q != [] && Parent(q) == p
  }

  lemma {:induction false} Distinct<T>(s: seq<T>)
    requires forall i: nat, j: nat | i < j < |s| :: s[i] != s[j]
    ensures |set x | x in s| == |s|
  {
    if s != [] {
      var last, rest := s[|s| - 1], s[..|s| - 1];
      Distinct(rest);
      assert (set x | x in s) == (set x | x in rest) + {last};
    }
  }

  /** A directory's list holds each of its children once. */
  lemma ChildCount(pool: Pool, ns: Names, kids: Kids, p: Path)
    requires Inv(pool, ns, kids) && p in ns
    ensures |Children(ns, p)| == |kids[p]|
  {
    var list := kids[p];
    assert DownOk(pool, ns, kids, p);
    var paths := seq(|list|, i requires 0 <= i < |list| => Sub(p, N(pool, list[i]).name));
    forall i: nat | i < |list| ensures paths[i] in ns && ns[paths[i]] == list[i] {
      assert list[i] in list && KidOk(pool, ns, p, list[i]);
    }
    Distinct(paths);
    forall q | q in Children(ns, p) ensures q in paths {
      assert UpOk(pool, ns, kids, q);
      var i: nat :| i < |list| && list[i] == ns[q];
      assert q == Sub(p, Last(q)) == paths[i];
    }
    assert Children(ns, p) == set q | q in paths;
  }

  lemma UnlinkedUsed(pool: Pool, parent: nat, pred: int, n: nat)
    requires |pool| == NODES && parent < NODES && n < NODES && -1 <= pred < NODES
    ensures forall i: nat | i < NODES :: Unlinked(pool, parent, pred, n)[i].used == (i != n && pool[i].used)
  {
  }

  /** A directory entry describes a child of the directory. */
  ghost predicate ListedOk(pool: Pool, ns: Names, p: Path, e: Entry)
  {
    && Sub(p, e.name) in ns && ns[Sub(p, e.name)] == e.node
    && e.node < |pool| && pool[e.node].kind == e.kind
  }

  lemma HasChild(pool: Pool, ns: Names, kids: Kids, p: Path)
    requires Inv(pool, ns, kids) && p in ns && kids[p] != []
    ensures exists q :: q in Tree(pool, ns) && p <= q && q != p
  {
    assert DownOk(pool, ns, kids, p) && KidOk(pool, ns, p, kids[p][0]);
    assert p <= Sub(p, N(pool, kids[p][0]).name) && Sub(p, N(pool, kids[p][0]).name) in Tree(pool, ns);
  }

  lemma ChildlessTree(pool: Pool, ns: Names, kids: Kids, p: Path)
    requires Inv(pool, ns, kids) && p in ns && kids[p] == []
    ensures forall q <- Tree(pool, ns) :: p <= q ==> q == p
    ensures Without(Tree(pool, ns), p) == Tree(pool, ns) - {p}
  {
    forall q | q in ns && p <= q ensures q == p {
      ChildlessAlone(pool, ns, kids, p, q);
    }
  }

  lemma SegsClean(path: string)
    requires SegsOf(path) != []
    ensures CleanSeg(Last(SegsOf(path)))
  {
    var segs := Segs(path);
    assert Clean(segs);
    assert Last(SegsOf(path)) == segs[|SegsOf(path)| - 1];
  }

  // ---------------------------------------------------------------- normalisation keeps meaning

  /** One step of a walk that understands "." and "..": the root is its own parent. */
  ghost function StepDots(pool: Pool, ns: Names, kids: Kids, cur: nat, seg: string): int
  {
    if seg == "." then cur
    else if seg == ".." then N(pool, cur).parent
    else if exists c: nat :: IsKid(pool, ns, kids, cur, seg, c) then
      var c: nat :| IsKid(pool, ns, kids, cur, seg, c); c
    else NIL
  }

  /** Node `c` is in the sibling list of node `cur` under name `seg`. */
  ghost predicate IsKid(pool: Pool, ns: Names, kids: Kids, cur: nat, seg: string, c: nat)
  {
    exists p :: p in ns && p in kids && ns[p] == cur && c in kids[p] && N(pool, c).name == seg
  }

  ghost function WalkDots(pool: Pool, ns: Names, kids: Kids, segs: seq<string>): int
  {
    if segs == [] then 0 else
      var cur := WalkDots(pool, ns, kids, segs[..|segs| - 1]);
      if cur < 0 then NIL else StepDots(pool, ns, kids, cur, segs[|segs| - 1])
  }

  /** A walk over "." and ".." ends at the node that the reduced segments name. */
  lemma {:induction false} WalkDotsNorm(pool: Pool, ns: Names, kids: Kids, segs: seq<string>)
    requires Inv(pool, ns, kids) && WalkDots(pool, ns, kids, segs) >= 0
    ensures NormStack(segs) in ns && ns[NormStack(segs)] == WalkDots(pool, ns, kids, segs)
  {
    if segs == [] {
      assert UpOk(pool, ns, kids, []);
    } else {
      var front, seg := segs[..|segs| - 1], segs[|segs| - 1];
      WalkDotsNorm(pool, ns, kids, front);
      var p := NormStack(front);
      assert UpOk(pool, ns, kids, p);
      if seg == ".." {
        assert p != [] ==> Parent(p) == p[..|p| - 1];
      } else if seg != "." {
        var c := WalkDots(pool, ns, kids, segs);
        assert IsKid(pool, ns, kids, ns[p], seg, c);
        var q :| q in ns && q in kids && ns[q] == ns[p] && c in kids[q] && N(pool, c).name == seg;
        assert Same(ns, p, q) && DownOk(pool, ns, kids, p) && KidOk(pool, ns, p, c);
        assert Sub(p, seg) == p + [seg];
      }
    }
  }

  /** Looking up the normal form of a path gives the node its walk ends at, exactly when the
      path begins with a slash or its normal form has a segment left (a relative path that reduces
      to nothing is written ".", which lookup treats as an ordinary name). */
  lemma NormalKeepsMeaning(pool: Pool, ns: Names, kids: Kids, path: string)
    requires Inv(pool, ns, kids) && 0 < |path| < 128 && WalkDots(pool, ns, kids, SegsOf(path)) >= 0
    ensures Normal(path).Some?
    ensures Resolved(ns, Normal(path).value) == WalkDots(pool, ns, kids, SegsOf(path)) <==>
            path[0] == '/' || NormStack(SegsOf(path)) != []
  {
    ParsedNormal(path);
    WalkDotsNorm(pool, ns, kids, SegsOf(path));
    if path[0] != '/' && NormStack(SegsOf(path)) == [] {
      assert UpOk(pool, ns, kids, []);
      assert ["."] in ns ==> UpOk(pool, ns, kids, ["."]);
    }
  }
}
