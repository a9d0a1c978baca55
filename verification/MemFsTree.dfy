/** The mem_fs node pool as a value: first-child / next-sibling lists in a fixed pool of
    nodes, the namespace they represent, and the effect of linking and unlinking a node. */
module MemFsTree {
  import opened Common
  import opened PathWalk

  const NODES: nat := 128
  const NAME_MAX: nat := 12
  const PAYLOAD: nat := 256
  const NIL: int := -1

  datatype Kind = Unset | File | Dir

  datatype Node = Node(used: bool, kind: Kind, name: string, parent: int, firstChild: int, nextSibling: int, payload: seq<bv8>)

  const BLANK: Node := Node(false, Unset, "", NIL, NIL, NIL, [])

  type Pool = seq<Node>
  type Path = seq<string>
  type Names = map<Path, nat>
  type Kids = map<Path, seq<nat>>

  function N(pool: Pool, i: int): Node
  {
    if 0 <= i < |pool| then pool[i] else BLANK
  }

  // ---------------------------------------------------------------- paths

  function Sub(p: Path, name: string): (q: Path)
    ensures q != [] && q != p && Parent(q) == p && Last(q) == name
  {
    assert (p + [name])[..|p|] == p;
    p + [name]
  }

  function Parent(p: Path): Path
    requires p != []
  {
    p[..|p| - 1]
  }

  function Last(p: Path): string
    requires p != []
  {
    p[|p| - 1]
  }

  // ---------------------------------------------------------------- the invariant

  /** The sibling list that starts at `first` is exactly `kids`. */
  ghost predicate Linked(pool: Pool, first: int, kids: seq<nat>)
  {
    && first == (if kids == [] then NIL else kids[0])
    && forall i: nat {:trigger LinkOk(pool, kids, i)} | i < |kids| :: LinkOk(pool, kids, i)
  }

  /** The i-th sibling leads to the next one, the last one nowhere. */
  ghost predicate LinkOk(pool: Pool, kids: seq<nat>, i: nat)
    requires i < |kids|
  {
    N(pool, kids[i]).nextSibling == if i + 1 < |kids| then kids[i + 1] else NIL
  }

  /** What holds of the node that path `p` names, towards its parent. */
  ghost predicate UpOk(pool: Pool, ns: Names, kids: Kids, p: Path)
    requires p in ns
  {
    && N(pool, ns[p]).used && !N(pool, ns[p]).kind.Unset?
    && (p == [] ==> ns[p] == 0 && N(pool, 0).kind.Dir? && N(pool, 0).parent == 0)
    && (p != [] ==>
          && ns[p] != 0 && CleanSeg(Last(p)) && |Last(p)| < NAME_MAX && N(pool, ns[p]).name == Last(p)
          && Parent(p) in ns && N(pool, ns[p]).parent == ns[Parent(p)]
          && Parent(p) in kids && ns[p] in kids[Parent(p)])
  }

  /** The child `c` of path `p` is named by one path, just beneath `p`. */
  ghost predicate KidOk(pool: Pool, ns: Names, p: Path, c: nat)
  {
    c < |pool| && Sub(p, N(pool, c).name) in ns && ns[Sub(p, N(pool, c).name)] == c
  }

  /** What holds of it towards its children. */
  ghost predicate DownOk(pool: Pool, ns: Names, kids: Kids, p: Path)
    requires p in ns && p in kids
  {
    && Linked(pool, N(pool, ns[p]).firstChild, kids[p]) && NoDup(kids[p])
    && (N(pool, ns[p]).kind.File? ==> kids[p] == [])
    && forall c {:trigger KidOk(pool, ns, p, c)} | c in kids[p] :: KidOk(pool, ns, p, c)
  }

  /** Two paths to one node are one path. */
  ghost predicate Same(ns: Names, p: Path, q: Path)
    requires p in ns && q in ns
  {
    ns[p] == ns[q] ==> p == q
  }

  /** The pool represents the namespace `ns`: every path names one node, children are
      listed once each under their parent, and names are unique there. */
  ghost predicate Inv(pool: Pool, ns: Names, kids: Kids)
  {
    && |pool| == NODES && [] in ns && kids.Keys == ns.Keys
    && (forall p <- ns :: ns[p] < NODES)
    && (forall p {:trigger UpOk(pool, ns, kids, p)} | p in ns :: UpOk(pool, ns, kids, p))
    && (forall p {:trigger DownOk(pool, ns, kids, p)} | p in ns :: DownOk(pool, ns, kids, p))
    && (forall p, q {:trigger Same(ns, p, q)} | p in ns && q in ns :: Same(ns, p, q))
  }

  function Lookup(ns: Names, p: Path): int
  {
    if p in ns then ns[p] else NIL
  }

  /** The object a path names. */
  datatype Object = Directory | Data(bytes: seq<bv8>)

  function ObjectOf(node: Node): Object
  {
    if node.kind.Dir? then Directory else Data(node.payload)
  }

  /** The namespace as a map from segment sequences to directories and file contents. */
  ghost function Tree(pool: Pool, ns: Names): map<Path, Object>
  {
    map p | p in ns :: ObjectOf(N(pool, ns[p]))
  }

  /** A name with no node in its parent's list is not in the namespace. */
  lemma AbsentChild(pool: Pool, ns: Names, kids: Kids, p: Path, name: string)
    requires Inv(pool, ns, kids) && p in ns
    requires forall c <- kids[p] :: N(pool, c).name != name
    ensures Sub(p, name) !in ns
  {
    assert Sub(p, name) in ns ==> UpOk(pool, ns, kids, Sub(p, name));
  }

  /** Children of different paths, and a path and its children, are different nodes. */
  lemma KidFacts(pool: Pool, ns: Names, kids: Kids, p: Path, c: nat, q: Path)
    requires Inv(pool, ns, kids) && p in ns && q in ns && c in kids[p]
    ensures KidOk(pool, ns, p, c) && c != ns[p]
    ensures q != p ==> c !in kids[q]
    ensures q != [] && Parent(q) != p ==> c != ns[q]
  {
    assert DownOk(pool, ns, kids, p) && DownOk(pool, ns, kids, q) && KidOk(pool, ns, p, c);
    var name := N(pool, c).name;
    assert Same(ns, p, Sub(p, name)) && Same(ns, q, Sub(p, name));
    assert c in kids[q] ==> KidOk(pool, ns, q, c) && Same(ns, Sub(q, name), Sub(p, name));
    assert Parent(Sub(q, name)) == q && Parent(Sub(p, name)) == p;
  }

  // ---------------------------------------------------------------- linking a node

  function Inserted(pool: Pool, parent: nat, n: nat, kind: Kind, name: string): Pool
    requires parent < |pool| && n < |pool|
  {
    pool[n := Node(true, kind, name, parent, NIL, pool[parent].firstChild, [])]
        [parent := pool[parent].(firstChild := n)]
  }

  ghost function InsertedKids(kids: Kids, p: Path, name: string, n: nat): Kids
    requires p in kids
  {
    kids[p := [n] + kids[p]][Sub(p, name) := []]
  }

  /** A free slot `n` and a name not yet used under directory `p`. */
  ghost predicate CanInsert(pool: Pool, ns: Names, kids: Kids, p: Path, n: nat, kind: Kind, name: string)
  {
    && Inv(pool, ns, kids) && p in ns && N(pool, ns[p]).kind.Dir? && Sub(p, name) !in ns
    && n < NODES && !N(pool, n).used && !kind.Unset? && CleanSeg(name) && |name| < NAME_MAX
  }

  lemma InsertKeeps(pool: Pool, ns: Names, kids: Kids, p: Path, n: nat, kind: Kind, name: string)
    requires CanInsert(pool, ns, kids, p, n, kind, name)
    ensures Inv(Inserted(pool, ns[p], n, kind, name), ns[Sub(p, name) := n], InsertedKids(kids, p, name, n))
  {
    var pool', ns', kids' := Inserted(pool, ns[p], n, kind, name), ns[Sub(p, name) := n], InsertedKids(kids, p, name, n);
    forall q | q in ns' ensures UpOk(pool', ns', kids', q) {
      InsertUp(pool, ns, kids, p, n, kind, name, q);
    }
    forall q | q in ns' ensures DownOk(pool', ns', kids', q) {
      InsertDown(pool, ns, kids, p, n, kind, name, q);
    }
    forall q, r | q in ns' && r in ns' ensures Same(ns', q, r) {
      assert q in ns ==> UpOk(pool, ns, kids, q);
      assert r in ns ==> UpOk(pool, ns, kids, r);
      assert q in ns && r in ns ==> Same(ns, q, r);
    }
  }

  lemma InsertUp(pool: Pool, ns: Names, kids: Kids, p: Path, n: nat, kind: Kind, name: string, q: Path)
    requires CanInsert(pool, ns, kids, p, n, kind, name) && (q in ns || q == Sub(p, name))
    ensures UpOk(Inserted(pool, ns[p], n, kind, name), ns[Sub(p, name) := n], InsertedKids(kids, p, name, n), q)
  {
    assert UpOk(pool, ns, kids, p) && UpOk(pool, ns, kids, []);
    if q in ns {
      assert UpOk(pool, ns, kids, q);
    }
  }

  lemma InsertDown(pool: Pool, ns: Names, kids: Kids, p: Path, n: nat, kind: Kind, name: string, q: Path)
    requires CanInsert(pool, ns, kids, p, n, kind, name) && (q in ns || q == Sub(p, name))
    ensures DownOk(Inserted(pool, ns[p], n, kind, name), ns[Sub(p, name) := n], InsertedKids(kids, p, name, n), q)
  {
    if q in ns {
      var pool', ns', kids' := Inserted(pool, ns[p], n, kind, name), ns[Sub(p, name) := n], InsertedKids(kids, p, name, n);
      InsertKids(pool, ns, kids, p, n, kind, name, q);
      assert UpOk(pool, ns, kids, p) && UpOk(pool, ns, kids, q) && DownOk(pool, ns, kids, q);
      assert Same(ns, p, q);
      SameLinks(pool, pool', kids[q]);
      if q == p {
        assert kids'[q] == [n] + kids[q];
        PushChain(pool, pool', kids[q], n, ns[p]);
        assert KidOk(pool', ns', q, n);
      }
    }
  }

  /** A sibling list depends only on its members' links. */
  lemma SameLinks(pool: Pool, pool': Pool, list: seq<nat>)
    requires forall c <- list :: N(pool', c).nextSibling == N(pool, c).nextSibling
    ensures forall first :: Linked(pool, first, list) ==> Linked(pool', first, list)
  {
    forall first | Linked(pool, first, list) ensures Linked(pool', first, list) {
      forall i: nat | i < |list| ensures LinkOk(pool', list, i) {
        assert LinkOk(pool, list, i) && list[i] in list;
      }
    }
  }

  /** Pushing a fresh node at the head of a sibling list. */
  lemma PushChain(pool: Pool, pool': Pool, list: seq<nat>, n: nat, parent: nat)
    requires Linked(pool, N(pool, parent).firstChild, list) && NoDup(list)
    requires N(pool', parent).firstChild == n && N(pool', n).nextSibling == N(pool, parent).firstChild
    requires forall c <- list :: c != n && N(pool', c).nextSibling == N(pool, c).nextSibling
    ensures Linked(pool', N(pool', parent).firstChild, [n] + list) && NoDup([n] + list)
  {
    var longer := [n] + list;
    forall i: nat | i < |longer|
      ensures LinkOk(pool', longer, i)
    {
      if i > 0 {
        assert LinkOk(pool, list, i - 1);
        assert longer[i] == list[i - 1] && list[i - 1] in list;
      }
    }
  }

  lemma InsertKids(pool: Pool, ns: Names, kids: Kids, p: Path, n: nat, kind: Kind, name: string, q: Path)
    requires CanInsert(pool, ns, kids, p, n, kind, name) && q in ns
    ensures var pool' := Inserted(pool, ns[p], n, kind, name);
            forall c <- kids[q] ::
              && c != n && N(pool', c).nextSibling == N(pool, c).nextSibling
              && KidOk(pool', ns[Sub(p, name) := n], q, c)
  {
    var pool', ns' := Inserted(pool, ns[p], n, kind, name), ns[Sub(p, name) := n];
    forall c | c in kids[q]
      ensures c != n && N(pool', c).nextSibling == N(pool, c).nextSibling && KidOk(pool', ns', q, c)
    {
      InsertKid(pool, ns, kids, p, n, kind, name, q, c);
    }
  }

  lemma InsertKid(pool: Pool, ns: Names, kids: Kids, p: Path, n: nat, kind: Kind, name: string, q: Path, c: nat)
    requires CanInsert(pool, ns, kids, p, n, kind, name) && q in ns && c in kids[q]
    ensures var pool' := Inserted(pool, ns[p], n, kind, name);
            && c != n && N(pool', c).nextSibling == N(pool, c).nextSibling
            && KidOk(pool', ns[Sub(p, name) := n], q, c)
  {
    KidFacts(pool, ns, kids, q, c, q);
    assert UpOk(pool, ns, kids, Sub(q, N(pool, c).name));
  }

  /** Linking adds exactly one path, an empty directory or file. */
  lemma InsertTree(pool: Pool, ns: Names, kids: Kids, p: Path, n: nat, kind: Kind, name: string)
    requires CanInsert(pool, ns, kids, p, n, kind, name)
    ensures Tree(Inserted(pool, ns[p], n, kind, name), ns[Sub(p, name) := n]) ==
            Tree(pool, ns)[Sub(p, name) := if kind.Dir? then Directory else Data([])]
  {
    forall q | q in ns ensures ns[q] != n {
      assert UpOk(pool, ns, kids, q);
    }
  }

  // ---------------------------------------------------------------- unlinking a node

  function Unlinked(pool: Pool, parent: nat, pred: int, n: nat): Pool
    requires parent < |pool| && n < |pool| && NIL <= pred < |pool|
  {
    (if pred == NIL then pool[parent := pool[parent].(firstChild := pool[n].nextSibling)]
     else pool[pred := pool[pred].(nextSibling := pool[n].nextSibling)])[n := BLANK]
  }

  /** All paths but `p` and those beneath it. */
  function Without<V>(m: map<Path, V>, p: Path): map<Path, V>
  {
    map q | q in m && !(p <= q) :: m[q]
  }

  ghost function Drop(list: seq<nat>, k: nat): seq<nat>
    requires k < |list|
  {
    list[..k] + list[k + 1..]
  }

  ghost function UnlinkedKids(kids: Kids, p: Path, k: nat): Kids
    requires p != [] && Parent(p) in kids && k < |kids[Parent(p)]|
  {
    map q | q in kids && !(p <= q) :: if q == Parent(p) then Drop(kids[q], k) else kids[q]
  }

  /** `p` names the k-th child of its parent, and `pred` is the sibling before it. */
  ghost predicate At(pool: Pool, ns: Names, kids: Kids, p: Path, k: nat, pred: int)
  {
    && Inv(pool, ns, kids) && p in ns && p != []
    && Parent(p) in ns && k < |kids[Parent(p)]| && kids[Parent(p)][k] == ns[p]
    && pred == (if k == 0 then NIL else kids[Parent(p)][k - 1]) && NIL <= pred < NODES
  }

  lemma PrefixFacts(p: Path, q: Path, name: string)
    requires !(p <= q)
    ensures q != [] ==> !(p <= Parent(q))
    ensures Sub(q, name) != p ==> !(p <= Sub(q, name))
  {
    if q != [] {
      assert Parent(q) <= q;
    }
    SubPrefix(p, q, name);
  }

  lemma SubPrefix(p: Path, q: Path, name: string)
    ensures p <= Sub(q, name) ==> p == Sub(q, name) || p <= q
  {
    var s := Sub(q, name);
    if p <= s && p != s {
      assert p == s[..|p|];
      assert |p| == |s| ==> p == s;
      assert p == q[..|p|];
    }
  }

  lemma UnlinkKeeps(pool: Pool, ns: Names, kids: Kids, p: Path, k: nat, pred: int)
    requires At(pool, ns, kids, p, k, pred)
    ensures Inv(Unlinked(pool, ns[Parent(p)], pred, ns[p]), Without(ns, p), UnlinkedKids(kids, p, k))
  {
    var pool', ns', kids' := Unlinked(pool, ns[Parent(p)], pred, ns[p]), Without(ns, p), UnlinkedKids(kids, p, k);
    forall q | q in ns' ensures UpOk(pool', ns', kids', q) {
      UnlinkUp(pool, ns, kids, p, k, pred, q);
    }
    forall q | q in ns' ensures DownOk(pool', ns', kids', q) {
      UnlinkDown(pool, ns, kids, p, k, pred, q);
    }
    forall q, r | q in ns' && r in ns' ensures Same(ns', q, r) {
      assert Same(ns, q, r);
    }
    assert !(p <= []);
  }

  lemma UnlinkUp(pool: Pool, ns: Names, kids: Kids, p: Path, k: nat, pred: int, q: Path)
    requires At(pool, ns, kids, p, k, pred) && q in ns && !(p <= q)
    ensures UpOk(Unlinked(pool, ns[Parent(p)], pred, ns[p]), Without(ns, p), UnlinkedKids(kids, p, k), q)
  {
    assert UpOk(pool, ns, kids, q) && Same(ns, q, p);
    assert q == [] ==> ns[p] != 0;
    if q != [] {
      PrefixFacts(p, q, "");
      if Parent(q) == Parent(p) {
        DropKeeps(kids[Parent(p)], k, ns[q]);
      }
    }
  }

  lemma DropKeeps(list: seq<nat>, k: nat, c: nat)
    requires k < |list| && c in list && c != list[k]
    ensures c in Drop(list, k)
  {
    var i :| 0 <= i < |list| && list[i] == c;
    assert Drop(list, k)[if i < k then i else i - 1] == c;
  }

  lemma DropSubset(list: seq<nat>, k: nat)
    requires k < |list| && NoDup(list)
    ensures forall c <- Drop(list, k) :: c in list && c != list[k]
  {
  }

  lemma UnlinkDown(pool: Pool, ns: Names, kids: Kids, p: Path, k: nat, pred: int, q: Path)
    requires At(pool, ns, kids, p, k, pred) && q in ns && !(p <= q)
    ensures DownOk(Unlinked(pool, ns[Parent(p)], pred, ns[p]), Without(ns, p), UnlinkedKids(kids, p, k), q)
  {
    var pool', ns', kids' := Unlinked(pool, ns[Parent(p)], pred, ns[p]), Without(ns, p), UnlinkedKids(kids, p, k);
    assert DownOk(pool, ns, kids, q) && Same(ns, q, p) && Same(ns, q, Parent(p));
    UnlinkedKidsOk(pool, ns, kids, p, k, pred, q);
    if q == Parent(p) {
      UnlinkParentChain(pool, ns, kids, p, k, pred);
      DropSubset(kids[q], k);
    } else {
      UnlinkOtherChain(pool, ns, kids, p, k, pred, q);
      assert ns[p] !in kids[q];
    }
  }

  lemma UnlinkOtherChain(pool: Pool, ns: Names, kids: Kids, p: Path, k: nat, pred: int, q: Path)
    requires At(pool, ns, kids, p, k, pred) && q in ns && !(p <= q) && q != Parent(p)
    ensures var pool' := Unlinked(pool, ns[Parent(p)], pred, ns[p]);
            Linked(pool', N(pool', ns[q]).firstChild, kids[q]) && ns[p] !in kids[q]
  {
    var pool' := Unlinked(pool, ns[Parent(p)], pred, ns[p]);
    assert DownOk(pool, ns, kids, q) && Same(ns, q, Parent(p));
    assert ns[p] in kids[Parent(p)] && (pred != NIL ==> pred in kids[Parent(p)]);
    KidsApart(pool, ns, kids, p, q, pred);
    SameLinks(pool, pool', kids[q]);
  }

  lemma UnlinkParentChain(pool: Pool, ns: Names, kids: Kids, p: Path, k: nat, pred: int)
    requires At(pool, ns, kids, p, k, pred)
    ensures var pool' := Unlinked(pool, ns[Parent(p)], pred, ns[p]);
            Linked(pool', N(pool', ns[Parent(p)]).firstChild, Drop(kids[Parent(p)], k)) && NoDup(Drop(kids[Parent(p)], k))
  {
    var q := Parent(p);
    assert DownOk(pool, ns, kids, q);
    forall i: nat | i < |kids[q]| ensures kids[q][i] < |pool| && kids[q][i] != ns[q] {
      assert kids[q][i] in kids[q];
      KidFacts(pool, ns, kids, q, kids[q][i], q);
    }
    UnlinkChain(pool, kids[q], k, ns[q]);
  }

  /** The remaining children of a surviving path stay where they are. */
  lemma UnlinkedKidsOk(pool: Pool, ns: Names, kids: Kids, p: Path, k: nat, pred: int, q: Path)
    requires At(pool, ns, kids, p, k, pred) && q in ns && !(p <= q)
    ensures forall c <- kids[q] | c != ns[p] ::
              KidOk(Unlinked(pool, ns[Parent(p)], pred, ns[p]), Without(ns, p), q, c)
  {
    var pool', ns' := Unlinked(pool, ns[Parent(p)], pred, ns[p]), Without(ns, p);
    forall c | c in kids[q] && c != ns[p] ensures KidOk(pool', ns', q, c) {
      KidFacts(pool, ns, kids, q, c, p);
      PrefixFacts(p, q, N(pool, c).name);
      assert N(pool', c).name == N(pool, c).name;
    }
  }

  lemma KidsApart(pool: Pool, ns: Names, kids: Kids, p: Path, q: Path, pred: int)
    requires Inv(pool, ns, kids) && p in ns && p != [] && Parent(p) in ns && q in ns && q != Parent(p) && !(p <= q)
    requires ns[p] in kids[Parent(p)] && (pred != NIL ==> pred in kids[Parent(p)])
    ensures forall c <- kids[q] :: c != ns[p] && c != pred
    ensures ns[q] != ns[p]
  {
    KidFacts(pool, ns, kids, Parent(p), ns[p], q);
    assert Same(ns, q, p);
    if pred != NIL {
      KidFacts(pool, ns, kids, Parent(p), pred, q);
    }
  }

  /** Bypassing the k-th member of a sibling list removes it from the list. */
  lemma UnlinkChain(pool: Pool, kids: seq<nat>, k: nat, parent: nat)
    requires parent < |pool| && Linked(pool, pool[parent].firstChild, kids) && NoDup(kids) && k < |kids|
    requires forall i: nat | i < |kids| :: kids[i] < |pool| && kids[i] != parent
    ensures var pred := if k == 0 then NIL else kids[k - 1];
            var pool' := Unlinked(pool, parent, pred, kids[k]);
            Linked(pool', pool'[parent].firstChild, Drop(kids, k)) && NoDup(Drop(kids, k))
  {
    var pred := if k == 0 then NIL else kids[k - 1];
    var pool' := Unlinked(pool, parent, pred, kids[k]);
    var rest := Drop(kids, k);
    assert LinkOk(pool, kids, k);
    forall i: nat | i < |rest|
      ensures LinkOk(pool', rest, i)
    {
      var j := if i < k then i else i + 1;
      assert rest[i] == kids[j] && LinkOk(pool, kids, j);
      assert kids[j] != kids[k];
      if j + 1 == k {
        assert kids[j] == pred;
      } else {
        assert kids[j] != pred;
      }
    }
  }

  /** Unlinking removes the path and everything beneath it, and changes nothing else. */
  lemma UnlinkTree(pool: Pool, ns: Names, kids: Kids, p: Path, k: nat, pred: int)
    requires At(pool, ns, kids, p, k, pred)
    ensures Tree(Unlinked(pool, ns[Parent(p)], pred, ns[p]), Without(ns, p)) == Without(Tree(pool, ns), p)
  {
    var pool' := Unlinked(pool, ns[Parent(p)], pred, ns[p]);
    forall q | q in ns && !(p <= q) ensures ObjectOf(N(pool', ns[q])) == ObjectOf(N(pool, ns[q])) {
      assert Same(ns, q, p);
    }
  }

  /** Nothing lies beneath a node without children. */
  lemma {:induction false} ChildlessAlone(pool: Pool, ns: Names, kids: Kids, p: Path, q: Path)
    requires Inv(pool, ns, kids) && p in ns && kids[p] == [] && q in ns && p <= q
    ensures q == p
    decreases |q|
  {
    if q != p {
      assert UpOk(pool, ns, kids, q);
      assert p <= Parent(q);
      ChildlessAlone(pool, ns, kids, p, Parent(q));
    }
  }

  // ---------------------------------------------------------------- changing contents

  /** A write to a file changes that file's contents and nothing else. */
  lemma WriteKeeps(pool: Pool, ns: Names, kids: Kids, p: Path, data: seq<bv8>)
    requires Inv(pool, ns, kids) && p in ns && N(pool, ns[p]).kind.File?
    ensures var pool' := pool[ns[p] := pool[ns[p]].(payload := data)];
            Inv(pool', ns, kids) && Tree(pool', ns) == Tree(pool, ns)[p := Data(data)]
  {
    var pool' := pool[ns[p] := pool[ns[p]].(payload := data)];
    forall q | q in ns ensures UpOk(pool', ns, kids, q) {
      assert UpOk(pool, ns, kids, q);
    }
    forall q | q in ns ensures DownOk(pool', ns, kids, q) {
      assert DownOk(pool, ns, kids, q);
      SameLinks(pool, pool', kids[q]);
      forall c | c in kids[q] ensures KidOk(pool', ns, q, c) {
        assert KidOk(pool, ns, q, c);
      }
    }
    forall q | q in ns ensures q != p ==> ns[q] != ns[p] {
      assert Same(ns, q, p);
    }
  }
}
