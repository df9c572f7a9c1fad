/**
  What a removal leaves behind whose leaf has one entry and whose neighbours can not lend: in which
  cases the index still is a tree that lost exactly the key, and in all others that it is not.
*/
module BTreeOutcome {
  import opened Seqs
  import opened BTreeSpec
  import opened BTreeInsert
  import opened BTreeHeap
  import opened BTreeStep
  import opened BTreeRemove
  import opened BTreeShrink
  import opened BTreeMerge

  // ---------------------------------------------------------------- the writes, all cases

  /** The left neighbour has two keys or more: the source then reads a child behind the last one and does not return. */
  ghost predicate Stuck<D>(h: Heap<D>, a: Addr, j: nat) {
    a in h && 0 < j < |h[a].kids| && h[a].kids[j - 1] in h && |h[h[a].kids[j - 1]].keys| >= 2
  }

  ghost predicate RightLends<D>(h: Heap<D>, a: Addr, j: nat) {
    a in h && j + 1 < |h[a].kids| && h[a].kids[j + 1] in h && |h[h[a].kids[j + 1]].keys| >= 2
  }

  ghost predicate Mergeable<D>(h: Heap<D>, a: Addr, j: nat) {
    if RightLends(h, a, j) then Borrows(h, a, j)
    else if j > 0 then JoinsHere(h, a, j) && |h[a].kids| >= 2 && h[a].kids[0] in h
    else JoinsRight(h, a)
  }

  ghost function JoinedNodes<D>(h: Heap<D>, a: Addr, j: nat): Heap<D>
    requires Mergeable(h, a, j) && !RightLends(h, a, j)
  {
    if j > 0 then JoinNodes(h, a, j) else JoinRightNodes(h, a)
  }

  /** The first child that is left when kid j is gone. */
  ghost function FirstLeft<D>(h: Heap<D>, a: Addr, j: nat): Addr
    requires a in h && |h[a].kids| >= 2
  {
    h[a].kids[if j > 0 then 0 else 1]
  }

  /** The node a without its drained kid j, and the new root if there is one. */
  ghost function Merged<D>(h: Heap<D>, a: Addr, j: nat): (Heap<D>, Addr)
    requires Mergeable(h, a, j)
  {
    if RightLends(h, a, j) then (BorrowNodes(h, a, j), NULL)
    else if |h[a].keys| == 1 then (Crowned(JoinedNodes(h, a, j), FirstLeft(h, a, j)), FirstLeft(h, a, j))
    else (JoinedNodes(h, a, j), NULL)
  }

  // ---------------------------------------------------------------- what they mean

  /** Joining kid j of g to its left neighbour is the way taken, and g keeps a key or is the root. */
  ghost predicate JoinsLeft<D>(g: Tree<D>, j: nat, top: Path) {
    && 0 < j < |g.kids| && |g.kids[j - 1].entries| == 1 && (j + 1 < |g.kids| ==> |g.kids[j + 1].entries| < 2)
    && (|g.entries| >= 2 || top == [])
  }

  /** The tree u, spelled at the root address, is t without k. */
  ghost predicate Loses<D>(h: Heap<D>, root: Addr, t: Tree<D>, k: Key, u: Tree<D>, height: nat) {
    && u.addr == root && Stored(h, u, NULL) && Distinct(u) && Cells(u) <= Cells(t)
    && WellFormed(u, height) && List(u) == RemoveEntry(List(t), k)
  }

  /** No tree spelled at the root address is t without k. */
  ghost predicate Spoilt<D(!new)>(h: Heap<D>, root: Addr, t: Tree<D>, k: Key) {
    forall u: Tree<D>, q | u.addr == root && Stored(h, u, q) :: List(u) != RemoveEntry(List(t), k)
  }

  /** The tree that is left, and its height. */
  ghost function Rejoined<D>(t: Tree<D>, top: Path, j: nat, i: nat): Tree<D>
    requires ValidPath(t, top)
    requires CanRejoin(Get(t, top), j, i)
  {
    var g := Get(t, top);
    var m := Collapse(g.kids[j], i);
    if |g.entries| >= 2 then Replace(t, top, JoinLeft(g, j, m)) else Joined(g, j, m)
  }

  ghost function RootOr(root: Addr, newRoot: Addr): Addr { if newRoot == NULL then root else newRoot }

  lemma RootOrIs(root: Addr, newRoot: Addr)
    ensures RootOr(root, newRoot) == if newRoot == NULL then root else newRoot
  {
  }

  /** What the scene says about the records that decide. */
  lemma SceneRecords<D>(h: Heap<D>, h': Heap<D>, t: Tree<D>, height: nat, top: Path, j: nat, i: nat, k: Key)
    requires Scene(h, t, height, top, j, i, k) && DrainedAt(h, h', t, top, j, i)
    ensures var g := Get(t, top);
            && g.addr in h' && h'[g.addr].kids == Addrs(g.kids) && |h'[g.addr].keys| == |g.entries| && |g.kids| == |g.entries| + 1
            && (Stuck(h', g.addr, j) <==> j > 0 && |g.kids[j - 1].entries| >= 2)
            && (RightLends(h', g.addr, j) <==> j + 1 < |g.kids| && |g.kids[j + 1].entries| >= 2)
            && (forall x | 0 <= x < |g.kids| :: g.kids[x].addr in h' && g.kids[x].addr in Cells(t))
            && (j > 0 ==> |g.kids[j - 1].entries| >= 1)
  {
    var g := Get(t, top);
    CellsGet(t, top);
    forall x | 0 <= x < |g.kids| ensures g.kids[x].addr in h' && g.kids[x].addr in Cells(t) {
      assert g.kids[x].addr in Cells(g.kids[x]) && g.kids[x].addr in KidCells(g.kids);
      if x != j { assert Stored(h', g.kids[x], g.addr); }
    }
    if j > 0 { KidOf(g, j - 1); assert Stored(h', g.kids[j - 1], g.addr); }
    if j + 1 < |g.kids| { assert Stored(h', g.kids[j + 1], g.addr); }
  }

  /** The writes can be done. */
  lemma SceneMergeable<D>(h: Heap<D>, h': Heap<D>, t: Tree<D>, height: nat, top: Path, j: nat, i: nat, k: Key)
    requires Scene(h, t, height, top, j, i, k) && DrainedAt(h, h', t, top, j, i) && !Stuck(h', Get(t, top).addr, j)
    ensures Mergeable(h', Get(t, top).addr, j)
  {
    var g := Get(t, top);
    SceneRecords(h, h', t, height, top, j, i, k);
    if RightLends(h', g.addr, j) {
      BorrowBreaks(h, h', t, height, top, j, i, k, t, NULL);
    } else if j == 0 {
      JoinRightBreaks(h, h', t, height, top, i, k, t, NULL);
    } else {
      LeafLeft(g, j, i, k);
      JoinStored(h', g, ParentAddr(t, top, NULL), j, Collapse(g.kids[j], i));
    }
  }

  lemma MergeMends<D>(h: Heap<D>, h': Heap<D>, t: Tree<D>, height: nat, top: Path, j: nat, i: nat, k: Key)
    requires Scene(h, t, height, top, j, i, k) && DrainedAt(h, h', t, top, j, i) && JoinsLeft(Get(t, top), j, top) && NULL !in Cells(t)
    ensures !Stuck(h', Get(t, top).addr, j) && Mergeable(h', Get(t, top).addr, j)
    ensures var (h2, newRoot) := Merged(h', Get(t, top).addr, j);
            Loses(h2, RootOr(t.addr, newRoot), t, k, Rejoined(t, top, j, i), if |Get(t, top).entries| >= 2 then height else 1)
  {
    var g := Get(t, top);
    SceneRecords(h, h', t, height, top, j, i, k);
    SceneMergeable(h, h', t, height, top, j, i, k);
    if |g.entries| >= 2 {
      JoinKeeps(h, h', t, height, top, j, i, k);
    } else {
      JoinCrowns(h, h', t, height, j, i, k);
      assert Addrs(g.kids)[0] == g.kids[0].addr;
    }
  }

  lemma MergeSpoils<D(!new)>(h: Heap<D>, h': Heap<D>, t: Tree<D>, height: nat, top: Path, j: nat, i: nat, k: Key)
    requires Scene(h, t, height, top, j, i, k) && DrainedAt(h, h', t, top, j, i) && !JoinsLeft(Get(t, top), j, top) && NULL !in Cells(t)
    requires !Stuck(h', Get(t, top).addr, j)
    ensures Mergeable(h', Get(t, top).addr, j)
    ensures var (h2, newRoot) := Merged(h', Get(t, top).addr, j); Spoilt(h2, RootOr(t.addr, newRoot), t, k)
  {
    var g := Get(t, top);
    SceneRecords(h, h', t, height, top, j, i, k);
    SceneMergeable(h, h', t, height, top, j, i, k);
    var (h2, newRoot) := Merged(h', g.addr, j);
    assert Addrs(g.kids)[0] == g.kids[0].addr && Addrs(g.kids)[1] == g.kids[1].addr;
    forall u: Tree<D>, q | u.addr == RootOr(t.addr, newRoot) && Stored(h2, u, q) ensures List(u) != RemoveEntry(List(t), k) {
      if RightLends(h', g.addr, j) { BorrowBreaks(h, h', t, height, top, j, i, k, u, q); }
      else if j == 0 { JoinRightBreaks(h, h', t, height, top, i, k, u, q); }
      else { JoinLoses(h, h', t, height, top, j, i, k, u, q); }
    }
  }

  // ---------------------------------------------------------------- seen from the leaf

  /** The node over the parent of the leaf at the end of the path gets along without that parent. */
  ghost predicate MergesUp<D>(t: Tree<D>, path: Path)
    requires ValidPath(t, path)
  {
    && |path| >= 2 && ValidPath(t, Up(path)) && ValidPath(t, Up(Up(path)))
    && |Get(t, Up(path)).entries| == 1 && JoinsLeft(Get(t, Up(Up(path))), path[|path| - 2], Up(Up(path)))
  }

  /** Exactly when the index is a tree without the key after the removal, see IndexTree.OBtree.RemoveAtLeaf. */
  ghost predicate Removable<D>(t: Tree<D>, path: Path)
    requires ValidPath(t, path)
  {
    Completes(t, path) || MergesUp(t, path)
  }

  /** The source runs into a child behind the last one: a drained node has a left neighbour with two keys or more. */
  ghost predicate GetsStuck<D>(t: Tree<D>, path: Path)
    requires ValidPath(t, path)
  {
    && |path| >= 2 && ValidPath(t, Up(path)) && ValidPath(t, Up(Up(path))) && |Get(t, path).entries| == 1
    && |Get(t, Up(path)).entries| == 1 && !HasLender(Get(t, Up(path)), path[|path| - 1])
    && 0 < path[|path| - 2] <= |Get(t, Up(Up(path))).kids| && |Get(t, Up(Up(path))).kids[path[|path| - 2] - 1].entries| >= 2
  }

  /** The removal drains an inner node. */
  ghost predicate Deep<D>(t: Tree<D>, height: nat, path: Path, k: Key) {
    && LastEntry(t, height, path, k) && !Completes(t, path)
    && |path| >= 2 && ValidPath(t, Up(path)) && |Get(t, Up(path)).entries| == 1
  }

  lemma DeepScene<D>(h: Heap<D>, t: Tree<D>, height: nat, path: Path, k: Key)
    requires Deep(t, height, path, k) && Stored(h, t, NULL)
    ensures ValidPath(t, Up(Up(path)))
    ensures var top, j := Up(Up(path)), path[|path| - 2];
            && Scene(h, t, height, top, j, path[|path| - 1], k)
            && Get(t, Up(path)) == Get(t, top).kids[j] && ParentAddr(t, Up(path), NULL) == Get(t, top).addr
  {
    AboveLeaf(t, height, path, k);
    GetUp(t, Up(path));
    var top, j, i := Up(Up(path)), path[|path| - 2], path[|path| - 1];
    assert Up(path)[|Up(path)| - 1] == j;
    BalancedGet(t, height, top);
    SubtreeSorted(t, height, top);
    CellsGet(t, top);
    RootHasEntry(t, height, top);
    assert |Get(t, Up(path)).kids| == 2;
  }

  lemma RootHasEntry<D>(t: Tree<D>, height: nat, path: Path)
    requires WellFormed(t, height) && ValidPath(t, path) && height > 0
    ensures 1 <= |Get(t, path).entries| <= MAX_KEYS
  {
    SubtreeSorted(t, height, path);
  }

  /** The node a, drained of its leaf i, is child j of its parent, which can do without it or gets stuck. */
  ghost predicate Climbs<D>(h: Heap<D>, a: Addr, i: nat, j: nat) {
    && Drains(h, a, i) && h[a].parent != NULL
    && var g, h' := h[a].parent, DrainNodes(h, a, i);
       && g in h' && j < |h'[g].kids| && h'[g].kids[j] == a && (forall x | 0 <= x < j :: h'[g].kids[x] != a)
       && |h'[g].keys| >= 1 && (forall x | x in h'[g].kids :: x in h') && (Stuck(h', g, j) || Mergeable(h', g, j))
  }

  lemma DeepClimbs<D>(h: Heap<D>, t: Tree<D>, height: nat, path: Path, k: Key)
    requires Deep(t, height, path, k) && Stored(h, t, NULL) && NULL !in Cells(t)
    ensures ValidPath(t, Up(Up(path)))
    ensures var a, g, i, j := Get(t, Up(path)).addr, Get(t, Up(Up(path))), path[|path| - 1], path[|path| - 2];
            Climbs(h, a, i, j) && h[a].parent == g.addr && DrainedAt(h, DrainNodes(h, a, i), t, Up(Up(path)), j, i)
  {
    DeepScene(h, t, height, path, k);
    var top, i, j := Up(Up(path)), path[|path| - 1], path[|path| - 2];
    var g := Get(t, top);
    SceneDrains(h, t, height, top, j, i, k);
    var h' := DrainNodes(h, g.kids[j].addr, i);
    SceneRecords(h, h', t, height, top, j, i, k);
    if !Stuck(h', g.addr, j) { SceneMergeable(h, h', t, height, top, j, i, k); }
    CellsGet(t, top);
    assert h[g.kids[j].addr].parent == g.addr && g.addr in Cells(g);
    hide DrainNodes, DrainedAt, Mergeable, Stuck, Balanced, Scene, Stored, Cells, Distinct;
    AddrsApart(h', g, j);
  }

  lemma AddrsApart<D>(h: Heap<D>, g: Tree<D>, j: nat)
    requires Distinct(g) && j < |g.kids| && forall x | 0 <= x < |g.kids| :: g.kids[x].addr in h
    ensures Addrs(g.kids)[j] == g.kids[j].addr && (forall x | 0 <= x < j :: Addrs(g.kids)[x] != g.kids[j].addr)
    ensures forall x | x in Addrs(g.kids) :: x in h
  {
    forall x | 0 <= x < j ensures Addrs(g.kids)[x] != g.kids[j].addr { KidApartAddr(g, x, j); }
  }

  lemma KidApartAddr<D>(g: Tree<D>, x: nat, y: nat)
    requires Distinct(g) && x < |g.kids| && y < |g.kids| && x != y
    ensures g.kids[x].addr != g.kids[y].addr
  {
    KidsApart(g, x, y);
    assert g.kids[x].addr in Cells(g.kids[x]) && g.kids[y].addr in Cells(g.kids[y]);
  }

  // ---------------------------------------------------------------- merging without a lender, in all cases

  /** Leaf i below a can be merged away; if a drains, it is child j of its parent. */
  ghost predicate CanMerge<D>(h: Heap<D>, a: Addr, i: nat, j: nat) {
    && a in h
    && (|h[a].keys| >= 2 ==> WideReady(h, a, i) && a !in h[a].kids)
    && (|h[a].keys| < 2 ==> Drains(h, a, i) && h[a].kids[1 - i] != a && (h[a].parent == NULL || Climbs(h, a, i, j)))
  }

  /** The store and the new root after the merge, unless it gets stuck. */
  ghost predicate MergeResult<D>(h: Heap<D>, a: Addr, i: nat, j: nat, h': Heap<D>, stuck: bool, newRoot: Addr)
    requires CanMerge(h, a, i, j)
  {
    if |h[a].keys| >= 2 then !stuck && newRoot == NULL && h' == WideMergeNodes(h, a, i)
    else if h[a].parent == NULL then !stuck && newRoot == h[a].kids[1 - i] && h' == Crowned(DrainNodes(h, a, i), newRoot)
    else
      var g, h1 := h[a].parent, DrainNodes(h, a, i);
      (stuck <==> Stuck(h1, g, j)) && (!stuck ==> (h', newRoot) == Merged(h1, g, j))
  }

  lemma MergeKeys<D>(h: Heap<D>, a: Addr, i: nat, j: nat, h': Heap<D>, newRoot: Addr)
    requires CanMerge(h, a, i, j) && MergeResult(h, a, i, j, h', false, newRoot)
    ensures h'.Keys == h.Keys
  {
    if |h[a].keys| < 2 && h[a].parent != NULL {
      var h1 := DrainNodes(h, a, i);
      assert h1.Keys == h.Keys;
      MergedKeys(h1, h[a].parent, j);
    }
  }

  lemma MergedKeys<D>(h: Heap<D>, a: Addr, j: nat)
    requires Mergeable(h, a, j)
    ensures Merged(h, a, j).0.Keys == h.Keys
  {
  }

  /** The place of the leaf's parent among the children of the node above it. */
  ghost function KidIndex(path: Path): nat { if |path| >= 2 then path[|path| - 2] else 0 }

  lemma CanMergeHere<D>(h: Heap<D>, t: Tree<D>, height: nat, path: Path, k: Key)
    requires LastEntry(t, height, path, k) && Stored(h, t, NULL) && NULL !in Cells(t)
    requires ValidPath(t, Up(path)) && !HasLender(Get(t, Up(path)), path[|path| - 1])
    ensures CanMerge(h, Get(t, Up(path)).addr, path[|path| - 1], KidIndex(path))
  {
    var p, i := Get(t, Up(path)), path[|path| - 1];
    AboveLeaf(t, height, path, k);
    StoredGet(h, t, NULL, Up(path));
    LeafRecords(h, p, ParentAddr(t, Up(path), NULL), i);
    assert forall x | 0 <= x < |p.kids| :: Addrs(p.kids)[x] == p.kids[x].addr;
    if |path| >= 2 {
      if |p.entries| == 1 { DeepClimbs(h, t, height, path, k); }
    } else {
      assert Up(path) == [];
    }
  }

  /** The nodes that TreeLeft is made of are there. */
  ghost predicate HasLeft<D>(t: Tree<D>, path: Path) {
    && ValidPath(t, path) && path != []
    && (|path| == 1 ==> LeafKids(t, path[0]) && |t.kids| == 2)
    && (|path| >= 2 ==> ValidPath(t, Up(Up(path))) && CanRejoin(Get(t, Up(Up(path))), KidIndex(path), path[|path| - 1]))
  }

  ghost predicate CanRejoin<D>(g: Tree<D>, j: nat, i: nat) {
    0 < j < |g.kids| == |g.entries| + 1 && LeafKids(g.kids[j], i) && |g.kids[j].kids| == 2
  }

  /** The tree that is left without a lender, and its height. */
  ghost function TreeLeft<D>(t: Tree<D>, height: nat, path: Path): (Tree<D>, nat)
    requires HasLeft(t, path)
  {
    if |path| == 1 then (Collapse(t, path[0]), 0)
    else (Rejoined(t, Up(Up(path)), KidIndex(path), path[|path| - 1]), if |Get(t, Up(Up(path))).entries| >= 2 then height else 1)
  }

  /** A one-key root over two one-key leaves. */
  lemma RootMends<D>(h: Heap<D>, t: Tree<D>, path: Path, k: Key)
    requires LastEntry(t, 1, path, k) && Stored(h, t, NULL) && |path| == 1 && |t.entries| == 1
    requires !HasLender(t, path[0])
    ensures LeafKids(t, path[0]) && |t.kids| == 2 && Drains(h, t.addr, path[0])
    ensures var a := h[t.addr].kids[1 - path[0]];
            a in DrainNodes(h, t.addr, path[0]) && Loses(Crowned(DrainNodes(h, t.addr, path[0]), a), a, t, k, Collapse(t, path[0]), 0)
  {
    AboveLeaf(t, 1, path, k);
    assert Up(path) == [] && Get(t, Up(path)) == t;
    var i := path[0];
    assert Get(t, path) == t.kids[i];
    DrainRecords(h, t, NULL, i);
    LeafRecords(h, t, NULL, i);
    CollapseDone(t, i, k);
    assert Addrs(t.kids)[1 - i] == t.kids[1 - i].addr == Collapse(t, i).addr;
    var h2 := Crowned(DrainNodes(h, t.addr, i), Collapse(t, i).addr);
    hide DrainNodes, WellFormed, List;
    StoredCollapse(h2, t, i);
  }

  /** Without a lender: exactly in the removable cases a tree is left that lost k and nothing else. */
  lemma Outcome<D(!new)>(h: Heap<D>, t: Tree<D>, height: nat, path: Path, k: Key, h': Heap<D>, stuck: bool, newRoot: Addr)
    requires LastEntry(t, height, path, k) && Stored(h, t, NULL) && NULL !in Cells(t)
    requires ValidPath(t, Up(path)) && !HasLender(Get(t, Up(path)), path[|path| - 1])
    requires CanMerge(h, Get(t, Up(path)).addr, path[|path| - 1], KidIndex(path))
    requires MergeResult(h, Get(t, Up(path)).addr, path[|path| - 1], KidIndex(path), h', stuck, newRoot)
    ensures Removable(t, path) ==>
              !stuck && HasLeft(t, path)
              && Loses(h', RootOr(t.addr, newRoot), t, k, TreeLeft(t, height, path).0, TreeLeft(t, height, path).1)
    ensures stuck <==> GetsStuck(t, path)
    ensures !Removable(t, path) ==> stuck || Spoilt(h', RootOr(t.addr, newRoot), t, k)
  {
    AboveLeaf(t, height, path, k);
    var p := Get(t, Up(path));
    StoredGet(h, t, NULL, Up(path));
    assert |h[p.addr].keys| == |Keys(p.entries)| == |p.entries|;
    if |p.entries| >= 2 {
      WideOutcome(h, t, height, path, k, h');
    } else if |path| == 1 {
      RootOutcome(h, t, height, path, k);
    } else {
      DeepOutcome(h, t, height, path, k, h', stuck, newRoot);
    }
  }

  lemma WideOutcome<D(!new)>(h: Heap<D>, t: Tree<D>, height: nat, path: Path, k: Key, h': Heap<D>)
    requires LastEntry(t, height, path, k) && Stored(h, t, NULL)
    requires ValidPath(t, Up(path)) && !HasLender(Get(t, Up(path)), path[|path| - 1]) && |Get(t, Up(path)).entries| >= 2
    requires WideReady(h, Get(t, Up(path)).addr, path[|path| - 1]) && h' == WideMergeNodes(h, Get(t, Up(path)).addr, path[|path| - 1])
    ensures !Removable(t, path) && Spoilt(h', t.addr, t, k)
  {
    AboveLeaf(t, height, path, k);
    if |path| == 1 { assert Up(path) == []; }
    forall u: Tree<D>, q | u.addr == t.addr ensures !Stored(h', u, q) { WideMergeBreaks(h, t, Up(path), path[|path| - 1], u, q); }
  }

  lemma RootOutcome<D>(h: Heap<D>, t: Tree<D>, height: nat, path: Path, k: Key)
    requires LastEntry(t, height, path, k) && Stored(h, t, NULL) && |path| == 1 && |t.entries| == 1 && !HasLender(t, path[0])
    ensures Removable(t, path) && HasLeft(t, path) && Drains(h, t.addr, path[0])
    ensures var a := h[t.addr].kids[1 - path[0]];
            a in DrainNodes(h, t.addr, path[0])
            && Loses(Crowned(DrainNodes(h, t.addr, path[0]), a), a, t, k, TreeLeft(t, height, path).0, TreeLeft(t, height, path).1)
  {
    AboveLeaf(t, height, path, k);
    RootMends(h, t, path, k);
  }

  lemma DeepOutcome<D(!new)>(h: Heap<D>, t: Tree<D>, height: nat, path: Path, k: Key, h': Heap<D>, stuck: bool, newRoot: Addr)
    requires Deep(t, height, path, k) && Stored(h, t, NULL) && NULL !in Cells(t)
    requires CanMerge(h, Get(t, Up(path)).addr, path[|path| - 1], KidIndex(path))
    requires MergeResult(h, Get(t, Up(path)).addr, path[|path| - 1], KidIndex(path), h', stuck, newRoot)
    requires |h[Get(t, Up(path)).addr].keys| < 2
    ensures Removable(t, path) ==>
              !stuck && HasLeft(t, path)
              && Loses(h', RootOr(t.addr, newRoot), t, k, TreeLeft(t, height, path).0, TreeLeft(t, height, path).1)
    ensures stuck <==> GetsStuck(t, path)
    ensures !Removable(t, path) ==> stuck || Spoilt(h', RootOr(t.addr, newRoot), t, k)
  {
    DeepScene(h, t, height, path, k);
    DeepClimbs(h, t, height, path, k);
    var top, j, i := Up(Up(path)), path[|path| - 2], path[|path| - 1];
    var h1 := DrainNodes(h, Get(t, Up(path)).addr, i);
    assert CanRejoin(Get(t, top), j, i) || j == 0;
    assert Removable(t, path) <==> JoinsLeft(Get(t, top), j, top);
    SceneRecords(h, h1, t, height, top, j, i, k);
    assert stuck <==> GetsStuck(t, path);
    hide GetsStuck, DrainNodes, DrainedAt, Climbs, Scene, Deep, Stored, Cells, Removable, Stuck, Mergeable, Merged, JoinsLeft, Loses, Spoilt, CanMerge, Drains;
    if Removable(t, path) {
      MergeMends(h, h1, t, height, top, j, i, k);
      assert j > 0;
    } else if !stuck {
      MergeSpoils(h, h1, t, height, top, j, i, k);
    }
  }

  // ---------------------------------------------------------------- with or without a lender

  ghost predicate UnderflowReady<D>(h: Heap<D>, p: Tree<D>, i: nat, parent: Addr, j: nat) {
    && Stored(h, p, parent) && Distinct(p) && LeafKids(p, i) && |p.kids| >= 2
    && (!HasLender(p, i) ==> CanMerge(h, p.addr, i, j))
  }

  ghost predicate UnderflowDone<D>(h: Heap<D>, p: Tree<D>, i: nat, parent: Addr, j: nat, h': Heap<D>, stuck: bool, newRoot: Addr)
    requires LeafKids(p, i)
  {
    if HasLender(p, i) then
      !stuck && newRoot == NULL && Stored(h', Underflowed(p, i), parent) && Untouched(h, h', Cells(p)) && h'.Keys == h.Keys
    else CanMerge(h, p.addr, i, j) && MergeResult(h, p.addr, i, j, h', stuck, newRoot)
  }

  /** What the source finds out, and what the ways it takes come to. */
  lemma UnderflowWays<D>(h: Heap<D>, p: Tree<D>, i: nat, parent: Addr, j: nat)
    requires UnderflowReady(h, p, i, parent, j) && LeafKids(p, i)
    ensures p.addr in h && i < |p.kids| == |h[p.addr].kids| && h[p.addr].kids[i] == p.kids[i].addr
    ensures forall x | 0 <= x < |p.kids| :: h[p.addr].kids[x] in h
    ensures forall x | 0 <= x < i :: h[p.addr].kids[x] != p.kids[i].addr
    ensures i > 0 && |h[h[p.addr].kids[i - 1]].keys| >= 2 ==>
              LeftReady(h, p.addr, i) && UnderflowDone(h, p, i, parent, j, LendLeftNodes(h, p.addr, i), false, NULL)
    ensures (i == 0 || |h[h[p.addr].kids[i - 1]].keys| < 2) && i + 1 < |p.kids| && |h[h[p.addr].kids[i + 1]].keys| >= 2 ==>
              RightReady(h, p.addr, i) && UnderflowDone(h, p, i, parent, j, LendRightNodes(h, p.addr, i), false, NULL)
    ensures (i == 0 || |h[h[p.addr].kids[i - 1]].keys| < 2) && (i + 1 >= |p.kids| || |h[h[p.addr].kids[i + 1]].keys| < 2) ==>
              !HasLender(p, i) && CanMerge(h, p.addr, i, j)
  {
    LeafRecords(h, p, parent, i);
    assert forall x | 0 <= x < |p.kids| :: Addrs(p.kids)[x] == p.kids[x].addr;
    if i > 0 && |p.kids[i - 1].entries| >= 2 { StoredLendLeft(h, p, parent, i); }
    if i + 1 < |p.kids| && |p.kids[i + 1].entries| >= 2 { StoredLendRight(h, p, parent, i); }
    hide LendLeft, LendRight, Stored, Distinct, CanMerge, Cells;
  }

  lemma NoLenderDone<D>(h: Heap<D>, p: Tree<D>, i: nat, parent: Addr, j: nat, h': Heap<D>, stuck: bool, newRoot: Addr)
    requires LeafKids(p, i) && !HasLender(p, i) && CanMerge(h, p.addr, i, j) && MergeResult(h, p.addr, i, j, h', stuck, newRoot)
    ensures UnderflowDone(h, p, i, parent, j, h', stuck, newRoot)
  {
  }

  lemma LastReady<D>(h: Heap<D>, t: Tree<D>, height: nat, path: Path, k: Key)
    requires LastEntry(t, height, path, k) && Stored(h, t, NULL) && NULL !in Cells(t)
    ensures ValidPath(t, Up(path)) && path[|path| - 1] < |Get(t, Up(path)).kids| && LeafKids(Get(t, Up(path)), path[|path| - 1])
    ensures Get(t, path) == Get(t, Up(path)).kids[path[|path| - 1]] && ParentAddr(t, path, NULL) == Get(t, Up(path)).addr
    ensures UnderflowReady(h, Get(t, Up(path)), path[|path| - 1], ParentAddr(t, Up(path), NULL), KidIndex(path))
  {
    AboveLeaf(t, height, path, k);
    StoredGet(h, t, NULL, Up(path));
    if !HasLender(Get(t, Up(path)), path[|path| - 1]) { CanMergeHere(h, t, height, path, k); }
  }

  /** The removal of a last entry, seen from the whole tree: the tree that is left, if there is one. */
  lemma LastDone<D(!new)>(h: Heap<D>, t: Tree<D>, height: nat, path: Path, k: Key, h': Heap<D>, stuck: bool, newRoot: Addr)
    returns (u: Tree<D>, uHeight: nat)
    requires LastEntry(t, height, path, k) && Stored(h, t, NULL) && NULL !in Cells(t)
    requires ValidPath(t, Up(path)) && LeafKids(Get(t, Up(path)), path[|path| - 1])
    requires UnderflowDone(h, Get(t, Up(path)), path[|path| - 1], ParentAddr(t, Up(path), NULL), KidIndex(path), h', stuck, newRoot)
    ensures Removable(t, path) ==> !stuck && Loses(h', RootOr(t.addr, newRoot), t, k, u, uHeight) && h'.Keys == h.Keys
    ensures stuck <==> GetsStuck(t, path)
    ensures !Removable(t, path) ==> stuck || Spoilt(h', RootOr(t.addr, newRoot), t, k)
  {
    u, uHeight := t, height;
    var p, i := Get(t, Up(path)), path[|path| - 1];
    if HasLender(p, i) {
      LendingDone(h, h', t, height, path, k);
      u := Replace(t, Up(path), Underflowed(p, i));
    } else {
      Outcome(h, t, height, path, k, h', stuck, newRoot);
      if Removable(t, path) {
        MergeKeys(h, p.addr, i, KidIndex(path), h', newRoot);
        u, uHeight := TreeLeft(t, height, path).0, TreeLeft(t, height, path).1;
      }
    }
  }
}
