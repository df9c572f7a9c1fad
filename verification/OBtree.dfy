/**
  The index tree of the normal mode, on a file of node records: descent to a leaf, bottom-up
  addition with splits that climb the parent addresses, and growth of a new root.
*/
module IndexTree {
  import opened Seqs
  import opened BTreeSpec
  import opened BTreeInsert
  import opened BTreeHeap
  import opened BTreeOrder
  import opened BTreeFind
  import opened BTreeStep
  import opened BTreeRemove
  import opened BTreeShrink
  import opened BTreeMerge
  import opened BTreeOutcome
  import opened KeySort

  type Ptr = Addr

  /** An index file: node records by address, and the address that the next allocation returns. */
  class NodeFile {
    var mem: Heap<Ptr>
    var next: Addr

    constructor (first: Addr)
      ensures mem == map[] && next == first
    {
      mem, next := map[], first;
    }

    /** Room for one more node, zeroed. */
    method Allocate() returns (a: Addr)
      modifies this
      ensures a == old(next) && next == old(next) + NODE_SIZE
      ensures mem == old(mem)[a := Node(NULL, [], [], [])]
    {
      a := next;
      next := next + NODE_SIZE;
      mem := mem[a := Node(NULL, [], [], [])];
    }

    /** A copy of a record in a new place. */
    method Duplicate(n: Node<Ptr>) returns (a: Addr)
      modifies this
      ensures a == old(next) && next == old(next) + NODE_SIZE && mem == old(mem)[a := n]
    {
      a := Allocate();
      mem := mem[a := n];
    }
  }

  /** The first node of an index file lies behind 100 bytes of meta data. */
  const FIRST_NODE: Addr := 100

  /** Records lie side by side from the first node on; the next address has not been used. */
  ghost predicate Allotted<D>(h: Heap<D>, next: Addr) {
    next % NODE_SIZE == FIRST_NODE && forall x | x in h :: x < next && x % NODE_SIZE == FIRST_NODE
  }

  /**
    The child to follow for k.  The loop of the source also compares the key slot behind the last key,
    whose bytes are whatever the node holds there: either outcome picks the last child.
  */
  method ChildFor<D>(n: Node<D>, k: Key, ghost t: Tree<D>) returns (i: nat)
    requires n.keys == Keys(t.entries) && |n.kids| == |t.entries| + 1
    ensures i == Rank(t.entries, k)
  {
    i := 0;
    while i < |n.kids| - 1
      invariant 0 <= i <= |n.keys|
      invariant Rank(t.entries, k) >= i
      decreases |n.keys| - i
    {
      RankSplits(t.entries, k);
      if k < n.keys[i] { break; }
      RankBeyond(t.entries, k, i);
      i := i + 1;
    }
    if i == |n.kids| - 1 {
      var slot: nat := *;
      if slot <= k { i := |n.kids| - 1; }
    }
    RankSplits(t.entries, k);
  }

  lemma SameKeys<D>(h: Heap<D>, h': Heap<D>, next: Addr)
    requires Allotted(h, next) && h.Keys == h'.Keys
    ensures Allotted(h', next)
  {
    assert forall x :: x in h <==> x in h.Keys;
  }

  class OBtree {
    const file: NodeFile
    var root: Addr
    ghost var tree: Tree<Ptr>
    ghost var height: nat

    ghost predicate Valid()
      reads this, file
    {
      && WellFormed(tree, height) && Stored(file.mem, tree, NULL) && Distinct(tree)
      && tree.addr == root && InUse(Cells(tree), file.next) && Allotted(file.mem, file.next)
    }

    /** A formatted file holds one empty leaf. */
    constructor ()
      ensures Valid() && fresh(file) && List(tree) == [] && root == FIRST_NODE
    {
      file := new NodeFile(FIRST_NODE);
      new;
      var a := file.Allocate();
      root := a;
      tree, height := Tree(a, [], []), 0;
    }

    /** Adds an absent key: the in-order list gains exactly its entry. */
    method Add(k: Key, d: Ptr)
      requires Valid() && Absent(List(tree), k)
      modifies this, file
      ensures Valid() && List(tree) == InsertEntry(old(List(tree)), Entry(k, d))
      ensures (tree, file.next) == AddTree(old(tree), Entry(k, d), old(file.next))
    {
      ghost var t0, e, n0 := tree, Entry(k, d), file.next;
      ghost var goal := InsertPath(t0, SearchPath(t0, k), e, None, n0);
      var current := Descend(k);
      StartAdd(file.mem, n0, t0, height, k);
      AddTreeCorrect(t0, height, e, n0);
      RootOfAdd(t0, SearchPath(t0, k), e, n0);
      hide Ready, WellFormed, Stored, Distinct, InsertPath, List, RootAfter, Cells;
      var newRoot := RecursiveAdd(current, k, d, NULL, t0, height, SearchPath(t0, k), None, goal);
      if newRoot != NULL { root := newRoot; }
      height := NewHeight(t0, height, e, n0);
      tree := AddTree(t0, e, n0).0;
    }

    /** Walks to the leaf where k belongs. */
    method Descend(k: Key) returns (current: Addr)
      requires Valid() && Absent(List(tree), k)
      ensures ValidPath(tree, SearchPath(tree, k)) && current == Get(tree, SearchPath(tree, k)).addr
      ensures Get(tree, SearchPath(tree, k)).kids == []
    {
      SearchPathValid(tree, k, height);
      current := root;
      ghost var sub, path, parent, h := tree, SearchPath(tree, k), NULL, height;
      while |file.mem[current].kids| >= 1
        invariant Stored(file.mem, sub, parent) && sub.addr == current && Balanced(sub, h)
        invariant path == SearchPath(sub, k) && ValidPath(sub, path)
        invariant Get(sub, path) == Get(tree, SearchPath(tree, k))
        decreases h
      {
        var n := file.mem[current];
        assert Addrs(sub.kids) == n.kids && Siblings(sub.kids, h - 1);
        var i := ChildFor(n, k, sub);
        parent := current;
        sub, h := sub.kids[i], h - 1;
        path := path[1..];
        current := n.kids[i];
      }
    }

    /** The pointer of a key that shares its first five bytes with k. */
    method Find(k: Key) returns (d: Option<Ptr>)
      requires Valid()
      ensures d == Pointer(Found(tree, k, Prefix))
      ensures d.None? <==> forall e | e in List(tree) :: !SharePrefix(e.key, k)
      ensures d.Some? ==> exists e :: e in List(tree) && SharePrefix(e.key, k) && d.value == e.data
    {
      d := SubtreeFind(root, k, tree, height, NULL);
      PrefixFound(tree, height, k);
    }

    method SubtreeFind(a: Addr, k: Key, ghost t: Tree<Ptr>, ghost h: nat, ghost parent: Addr) returns (d: Option<Ptr>)
      requires Stored(file.mem, t, parent) && t.addr == a && Balanced(t, h)
      ensures d == Pointer(Found(t, k, Prefix))
      decreases h
    {
      var n := file.mem[a];
      var i := 0;
      while i < |n.keys| && Seen(n.keys[i], Prefix) < Seen(k, Prefix)
        invariant 0 <= i <= |n.keys|
        invariant forall j | 0 <= j < i :: Seen(t.entries[j].key, Prefix) < Seen(k, Prefix)
      {
        i := i + 1;
      }
      StopIs(t.entries, k, Prefix, i);
      if i < |n.keys| && Seen(n.keys[i], Prefix) == Seen(k, Prefix) { return Some(n.data[i]); }
      if i >= |n.kids| { return None; }
      assert Siblings(t.kids, h - 1);
      d := SubtreeFind(n.kids[i], k, t.kids[i], h - 1, a);
    }

    /** The node that holds k itself. */
    method SubtreeONodeFind(a: Addr, k: Key, ghost t: Tree<Ptr>, ghost h: nat, ghost parent: Addr) returns (node: Option<Addr>)
      requires Stored(file.mem, t, parent) && t.addr == a && Balanced(t, h)
      ensures node.Some? <==> Locate(t, k, Whole).Some?
      ensures node.Some? ==> node.value == Locate(t, k, Whole).value.node.addr
      decreases h
    {
      var n := file.mem[a];
      var i := 0;
      while i < |n.keys| && n.keys[i] < k
        invariant 0 <= i <= |n.keys|
        invariant forall j | 0 <= j < i :: t.entries[j].key < k
      {
        i := i + 1;
      }
      StopIs(t.entries, k, Whole, i);
      if i < |n.keys| && n.keys[i] == k { return Some(a); }
      if i >= |n.kids| { return None; }
      assert Siblings(t.kids, h - 1);
      node := SubtreeONodeFind(n.kids[i], k, t.kids[i], h - 1, a);
    }

    /**
      Removal of k, asked of the leaf a that holds it.  In the removable cases exactly the entry of k
      goes; in all others the source does not return, or no tree at the root is the old one without k.
    */
    method RemoveAtLeaf(a: Addr, k: Key, ghost path: Path) returns (stuck: bool)
      requires Valid() && ValidPath(tree, path) && a == Get(tree, path).addr && Get(tree, path).kids == []
      modifies this, file
      ensures Absent(old(Get(tree, path).entries), k) ==> !stuck && Valid() && tree == old(tree) && file.mem == old(file.mem)
      ensures !Absent(old(Get(tree, path).entries), k) && Removable(old(tree), path) ==>
                !stuck && Valid() && List(tree) == RemoveEntry(old(List(tree)), k)
      ensures stuck <==> !Absent(old(Get(tree, path).entries), k) && GetsStuck(old(tree), path)
      ensures !Absent(old(Get(tree, path).entries), k) && !Removable(old(tree), path) ==> stuck || Spoilt(file.mem, root, old(tree), k)
      ensures file.next == old(file.next)
    {
      ghost var leaf := Get(tree, path);
      StoredGet(file.mem, tree, NULL, path);
      stuck := false;
      var n := file.mem[a];
      var index := FindIndex(n.keys, k);
      assert forall j | 0 <= j < |leaf.entries| :: n.keys[j] == leaf.entries[j].key;
      if index.None? { return; }
      assert leaf.entries[index.value].key == k;
      LeafOnPath(tree, height, path);
      if |n.keys| > 1 || n.parent == NULL {
        RemoveAtIndex(a, k, index.value, path);
      } else {
        stuck := RemoveLast(a, n.parent, k, path);
      }
    }

    /** The leaf a keeps a key, or is the root: its slots close the gap. */
    method RemoveAtIndex(a: Addr, k: Key, index: nat, ghost path: Path)
      requires Valid() && ValidPath(tree, path) && a == Get(tree, path).addr && Get(tree, path).kids == []
      requires index < |Get(tree, path).entries| && Get(tree, path).entries[index].key == k
      requires |Get(tree, path).entries| > 1 || path == []
      modifies this, file
      ensures Valid() && List(tree) == RemoveEntry(old(List(tree)), k) && file.next == old(file.next)
    {
      ghost var leaf, p, h0 := Get(tree, path), ParentAddr(tree, path, NULL), file.mem;
      StoredGet(file.mem, tree, NULL, path);
      WithoutStored(h0, leaf, p, index);
      WithoutDone(h0, tree, height, path, index, k);
      var n := file.mem[a];
      hide WellFormed, Stored, Distinct, List, Cells, Without, Replace, Untouched;
      var keys := MoveDelete(n.keys, index);
      var data := MoveDelete(n.data, index);
      file.mem := file.mem[a := n.(keys := keys, data := data)];
      tree := Replace(tree, path, Without(leaf, index));
    }

    /** The removal of the only entry of the leaf a, left to its parent. */
    method RemoveLast(a: Addr, parent: Addr, k: Key, ghost path: Path) returns (stuck: bool)
      requires Valid() && LastEntry(tree, height, path, k) && a == Get(tree, path).addr
      requires parent == ParentAddr(tree, path, NULL)
      modifies this, file
      ensures Removable(old(tree), path) ==> !stuck && Valid() && List(tree) == RemoveEntry(old(List(tree)), k)
      ensures stuck <==> GetsStuck(old(tree), path)
      ensures !Removable(old(tree), path) ==> stuck || Spoilt(file.mem, root, old(tree), k)
      ensures file.next == old(file.next)
    {
      hide *;
      CanRemoveLast(a, k, path);
      ghost var up, i, t0, height0, h0 := Up(path), path[|path| - 1], tree, height, file.mem;
      var newRoot;
      stuck, newRoot := Underflow(parent, a, Get(tree, up), i, ParentAddr(tree, up, NULL), KidIndex(path));
      ghost var u, uHeight := LastDone(h0, t0, height0, path, k, file.mem, stuck, newRoot);
      if newRoot != NULL { root := newRoot; }
      RootOrIs(t0.addr, newRoot);
      if Removable(t0, path) {
        tree, height := u, uHeight;
        ValidAgain(t0, k, h0);
      }
    }

    lemma CanRemoveLast(a: Addr, k: Key, path: Path)
      requires Valid() && LastEntry(tree, height, path, k) && a == Get(tree, path).addr
      ensures ValidPath(tree, path) && path != [] && ValidPath(tree, Up(path))
      ensures var p, i := Get(tree, Up(path)), path[|path| - 1];
              && LeafKids(p, i) && i < |p.kids| && a == p.kids[i].addr && ParentAddr(tree, path, NULL) == p.addr
              && UnderflowReady(file.mem, p, i, ParentAddr(tree, Up(path), NULL), KidIndex(path))
      ensures Stored(file.mem, tree, NULL) && NULL !in Cells(tree) && tree.addr == root
      ensures InUse(Cells(tree), file.next) && Allotted(file.mem, file.next)
    {
      LastReady(file.mem, tree, height, path, k);
    }

    /** The tree that lost k is the index again. */
    lemma ValidAgain(t0: Tree<Ptr>, k: Key, h0: Heap<Ptr>)
      requires Loses(file.mem, root, t0, k, tree, height) && InUse(Cells(t0), file.next)
      requires Allotted(h0, file.next) && file.mem.Keys == h0.Keys
      ensures Valid() && List(tree) == RemoveEntry(List(t0), k)
    {
      SameKeys(h0, file.mem, file.next);
    }

    /**
      Leaf a, a child of the node pa, loses its last entry: a neighbour with two keys or more lends one
      through pa, the left one first; failing that, the leaf is merged away.
    */
    method Underflow(pa: Addr, a: Addr, ghost p: Tree<Ptr>, ghost i: nat, ghost parent: Addr, ghost j: nat) returns (stuck: bool, newRoot: Addr)
      requires UnderflowReady(file.mem, p, i, parent, j) && LeafKids(p, i) && pa == p.addr && a == p.kids[i].addr
      modifies file`mem
      ensures UnderflowDone(old(file.mem), p, i, parent, j, file.mem, stuck, newRoot)
    {
      ghost var h0 := file.mem;
      hide *;
      UnderflowWays(file.mem, p, i, parent, j);
      var n := file.mem[pa];
      var index := 0;
      while n.kids[index] != a
        invariant 0 <= index <= i
        decreases i - index
      {
        index := index + 1;
      }
      if index > 0 && |file.mem[n.kids[index - 1]].keys| >= 2 {
        BorrowLeft(pa, index);
        return false, NULL;
      }
      if index + 1 < |n.kids| && |file.mem[n.kids[index + 1]].keys| >= 2 {
        BorrowRight(pa, index);
        return false, NULL;
      }
      stuck, newRoot := Merge(pa, index, j);
      NoLenderDone(h0, p, i, parent, j, file.mem, stuck, newRoot);
    }

    /** Leaf i of the node pa is merged into a neighbour; a one-key node goes with it, unless it is the root. */
    method Merge(pa: Addr, i: nat, ghost j: nat) returns (stuck: bool, newRoot: Addr)
      requires CanMerge(file.mem, pa, i, j)
      modifies file`mem
      ensures MergeResult(old(file.mem), pa, i, j, file.mem, stuck, newRoot)
    {
      var n := file.mem[pa];
      if |n.keys| >= 2 {
        MergeBelowWide(pa, i);
        return false, NULL;
      }
      Drain(pa, i);
      if n.parent == NULL {
        newRoot := file.mem[pa].kids[0];
        file.mem := file.mem[newRoot := file.mem[newRoot].(parent := NULL)];
        return false, newRoot;
      }
      stuck, newRoot := RecursiveMerge(n.parent, pa, j);
    }

    method BorrowLeft(pa: Addr, i: nat)
      requires LeftReady(file.mem, pa, i)
      modifies file`mem
      ensures file.mem == LendLeftNodes(old(file.mem), pa, i)
    {
      var c, l := file.mem[pa].kids[i], file.mem[pa].kids[i - 1];
      file.mem := file.mem[c := file.mem[c].(keys := [file.mem[pa].keys[i - 1]], data := [file.mem[pa].data[i - 1]])];
      file.mem := file.mem[pa := file.mem[pa].(keys := file.mem[pa].keys[i - 1 := file.mem[l].keys[|file.mem[l].keys| - 1]])];
      var keys := MoveDelete(file.mem[l].keys, |file.mem[l].keys| - 1);
      assert keys == file.mem[l].keys[..|file.mem[l].keys| - 1];
      file.mem := file.mem[l := file.mem[l].(keys := keys)];
      file.mem := file.mem[pa := file.mem[pa].(data := file.mem[pa].data[i - 1 := file.mem[l].data[|file.mem[l].data| - 1]])];
      var data := MoveDelete(file.mem[l].data, |file.mem[l].data| - 1);
      assert data == file.mem[l].data[..|file.mem[l].data| - 1];
      file.mem := file.mem[l := file.mem[l].(data := data)];
    }

    method BorrowRight(pa: Addr, i: nat)
      requires RightReady(file.mem, pa, i)
      modifies file`mem
      ensures file.mem == LendRightNodes(old(file.mem), pa, i)
    {
      var c, r := file.mem[pa].kids[i], file.mem[pa].kids[i + 1];
      file.mem := file.mem[c := file.mem[c].(keys := [file.mem[pa].keys[i]], data := [file.mem[pa].data[i]])];
      file.mem := file.mem[pa := file.mem[pa].(keys := file.mem[pa].keys[i := file.mem[r].keys[0]])];
      var keys := MoveDelete(file.mem[r].keys, 0);
      assert keys == file.mem[r].keys[1..];
      file.mem := file.mem[r := file.mem[r].(keys := keys)];
      file.mem := file.mem[pa := file.mem[pa].(data := file.mem[pa].data[i := file.mem[r].data[0]])];
      var data := MoveDelete(file.mem[r].data, 0);
      assert data == file.mem[r].data[1..];
      file.mem := file.mem[r := file.mem[r].(data := data)];
    }

    /** The one key of pa goes to the leaf next to leaf i, which stays as the only child. */
    method Drain(pa: Addr, i: nat)
      requires Drains(file.mem, pa, i) && file.mem[pa].kids[1 - i] != pa
      modifies file`mem
      ensures file.mem == DrainNodes(old(file.mem), pa, i)
    {
      var n := file.mem[pa];
      if i > 0 {
        var l := n.kids[i - 1];
        file.mem := file.mem[l := file.mem[l].(keys := file.mem[l].keys + [n.keys[i - 1]], data := file.mem[l].data + [n.data[i - 1]])];
        assert file.mem[l].keys == old(file.mem)[l].keys + n.keys && file.mem[l].data == old(file.mem)[l].data + n.data;
      } else {
        var r := n.kids[i + 1];
        var keys := MoveInsert(file.mem[r].keys, 0, n.keys[i]);
        var data := MoveInsert(file.mem[r].data, 0, n.data[i]);
        assert keys == n.keys + file.mem[r].keys && data == n.data + file.mem[r].data;
        file.mem := file.mem[r := file.mem[r].(keys := keys, data := data)];
      }
      var kids := MoveDelete(n.kids, i);
      file.mem := file.mem[pa := n.(keys := [], data := [], kids := kids)];
    }

    /** The drained child pa of the node ga goes: a neighbour lends to it or takes its child. */
    method RecursiveMerge(ga: Addr, pa: Addr, ghost j: nat) returns (stuck: bool, newRoot: Addr)
      requires ga in file.mem && j < |file.mem[ga].kids| && file.mem[ga].kids[j] == pa && forall x | 0 <= x < j :: file.mem[ga].kids[x] != pa
      requires |file.mem[ga].keys| >= 1 && forall x | x in file.mem[ga].kids :: x in file.mem
      requires Stuck(file.mem, ga, j) || Mergeable(file.mem, ga, j)
      modifies file`mem
      ensures stuck <==> Stuck(old(file.mem), ga, j)
      ensures !stuck ==> Mergeable(old(file.mem), ga, j) && (file.mem, newRoot) == Merged(old(file.mem), ga, j)
    {
      var g := file.mem[ga];
      var index := 0;
      while g.kids[index] != pa
        invariant 0 <= index <= j
        decreases j - index
      {
        index := index + 1;
      }
      newRoot := NULL;
      if index > 0 && |file.mem[g.kids[index - 1]].keys| >= 2 { return true, NULL; }
      stuck := false;
      if index + 1 < |g.kids| && |file.mem[g.kids[index + 1]].keys| >= 2 {
        BorrowUp(ga, index);
        return;
      }
      if index > 0 { JoinToLeft(ga, index); } else { JoinToRight(ga); }
      if |file.mem[ga].keys| == 0 {
        newRoot := file.mem[ga].kids[0];
        file.mem := file.mem[newRoot := file.mem[newRoot].(parent := NULL)];
      }
    }

    /** The first key above goes down to child j, the right neighbour's first key and first child move over. */
    method BorrowUp(ga: Addr, j: nat)
      requires Borrows(file.mem, ga, j)
      modifies file`mem
      ensures file.mem == BorrowNodes(old(file.mem), ga, j)
    {
      var p, r := file.mem[ga].kids[j], file.mem[ga].kids[j + 1];
      var c := file.mem[r].kids[0];
      BorrowKey(ga, p, r);
      file.mem := file.mem[p := file.mem[p].(kids := file.mem[p].kids + [c])];
      file.mem := file.mem[c := file.mem[c].(parent := p)];
      var kids := MoveDelete(file.mem[r].kids, 0);
      assert kids == file.mem[r].kids[1..];
      file.mem := file.mem[r := file.mem[r].(kids := kids)];
    }

    /** The node p gets the key of ga, whose place the first key of r takes; the count of data pointers of p stays. */
    method BorrowKey(ga: Addr, p: Addr, r: Addr)
      requires {ga, p, r} <= file.mem.Keys && ga != p && r != p && r != ga
      requires |file.mem[ga].keys| >= 1 && |file.mem[r].keys| >= 1 && |file.mem[r].data| >= 1
      modifies file`mem
      ensures var h := old(file.mem);
              file.mem == h[p := h[p].(keys := [h[ga].keys[0]])]
                           [ga := h[ga].(keys := [h[r].keys[0]], data := [h[r].data[0]])]
                           [r := h[r].(keys := h[r].keys[1..], data := h[r].data[1..])]
    {
      file.mem := file.mem[p := file.mem[p].(keys := [file.mem[ga].keys[0]])];
      file.mem := file.mem[ga := file.mem[ga].(keys := [file.mem[r].keys[0]])];
      var keys := MoveDelete(file.mem[r].keys, 0);
      assert keys == file.mem[r].keys[1..];
      file.mem := file.mem[r := file.mem[r].(keys := keys)];
      file.mem := file.mem[ga := file.mem[ga].(data := [file.mem[r].data[0]])];
      var data := MoveDelete(file.mem[r].data, 0);
      assert data == file.mem[r].data[1..];
      file.mem := file.mem[r := file.mem[r].(data := data)];
    }

    method JoinToLeft(ga: Addr, j: nat)
      requires JoinsHere(file.mem, ga, j)
      modifies file`mem
      ensures file.mem == JoinNodes(old(file.mem), ga, j)
    {
      var l := file.mem[ga].kids[j - 1];
      file.mem := file.mem[l := file.mem[l].(keys := file.mem[l].keys + [file.mem[ga].keys[j - 1]])];
      var keys := MoveDelete(file.mem[ga].keys, j - 1);
      file.mem := file.mem[ga := file.mem[ga].(keys := keys)];
      file.mem := file.mem[l := file.mem[l].(data := file.mem[l].data + [file.mem[ga].data[j - 1]])];
      var data := MoveDelete(file.mem[ga].data, j - 1);
      file.mem := file.mem[ga := file.mem[ga].(data := data)];
      var c := file.mem[file.mem[ga].kids[j]].kids[0];
      file.mem := file.mem[l := file.mem[l].(kids := file.mem[l].kids + [c])];
      file.mem := file.mem[c := file.mem[c].(parent := l)];
      var kids := MoveDelete(file.mem[ga].kids, j);
      file.mem := file.mem[ga := file.mem[ga].(kids := kids)];
    }

    /** The parent address is written into the neighbour's last child, not into the one that moved there. */
    method JoinToRight(ga: Addr)
      requires JoinsRight(file.mem, ga)
      modifies file`mem
      ensures file.mem == JoinRightNodes(old(file.mem), ga)
    {
      var r := file.mem[ga].kids[1];
      var more := MoveInsert(file.mem[r].keys, 0, file.mem[ga].keys[0]);
      assert more == [file.mem[ga].keys[0]] + file.mem[r].keys;
      file.mem := file.mem[r := file.mem[r].(keys := more)];
      var keys := MoveDelete(file.mem[ga].keys, 0);
      assert keys == file.mem[ga].keys[1..];
      file.mem := file.mem[ga := file.mem[ga].(keys := keys)];
      var moreData := MoveInsert(file.mem[r].data, 0, file.mem[ga].data[0]);
      assert moreData == [file.mem[ga].data[0]] + file.mem[r].data;
      file.mem := file.mem[r := file.mem[r].(data := moreData)];
      var data := MoveDelete(file.mem[ga].data, 0);
      assert data == file.mem[ga].data[1..];
      file.mem := file.mem[ga := file.mem[ga].(data := data)];
      var c := file.mem[file.mem[ga].kids[0]].kids[0];
      var moreKids := MoveInsert(file.mem[r].kids, 0, c);
      assert moreKids == [c] + file.mem[r].kids;
      file.mem := file.mem[r := file.mem[r].(kids := moreKids)];
      var last := file.mem[r].kids[|file.mem[r].kids| - 1];
      file.mem := file.mem[last := file.mem[last].(parent := r)];
      var kids := MoveDelete(file.mem[ga].kids, 0);
      assert kids == file.mem[ga].kids[1..];
      file.mem := file.mem[ga := file.mem[ga].(kids := kids)];
    }

    /** Leaf i of a parent with two keys or more goes into a neighbour; the parent's data pointers stay. */
    method MergeBelowWide(pa: Addr, i: nat)
      requires WideReady(file.mem, pa, i) && pa !in file.mem[pa].kids
      modifies file`mem
      ensures file.mem == WideMergeNodes(old(file.mem), pa, i)
    {
      var n := file.mem[pa];
      var kids := MoveDelete(n.kids, i);
      file.mem := file.mem[pa := n.(kids := kids)];
      if i > 0 {
        var l := n.kids[i - 1];
        file.mem := file.mem[l := file.mem[l].(keys := file.mem[l].keys + [n.keys[i - 1]])];
        var keys := MoveDelete(n.keys, i - 1);
        file.mem := file.mem[pa := file.mem[pa].(keys := keys)];
        file.mem := file.mem[l := file.mem[l].(data := file.mem[l].data + [file.mem[pa].data[i - 1]])];
      } else {
        assert n.kids[1] in n.kids;
        var r := n.kids[1];
        var more := MoveInsert(file.mem[r].keys, 0, n.keys[i]);
        assert more == [n.keys[0]] + file.mem[r].keys;
        file.mem := file.mem[r := file.mem[r].(keys := more)];
        var keys := MoveDelete(n.keys, i);
        file.mem := file.mem[pa := file.mem[pa].(keys := keys)];
        var count := |file.mem[r].data|;
        var data := MoveInsert(file.mem[r].data, 0, file.mem[pa].data[i]);
        assert data == [n.data[0]] + file.mem[r].data;
        file.mem := file.mem[r := file.mem[r].(data := data[..count])];
      }
    }

    /** The index of k among the keys of a node. */
    method FindIndex(keys: seq<Key>, k: Key) returns (index: Option<nat>)
      ensures index.None? ==> forall j | 0 <= j < |keys| :: keys[j] != k
      ensures index.Some? ==> index.value < |keys| && keys[index.value] == k
    {
      var i := 0;
      while i < |keys|
        invariant 0 <= i <= |keys| && forall j | 0 <= j < i :: keys[j] != k
      {
        if keys[i] == k { return Some(i); }
        i := i + 1;
      }
      return None;
    }

    /**
      Splits the node a, over-full as w: the last two entries and the last three children move to a
      new node, whose children get its address as their parent.
    */
    method SplitONode(a: Addr, w: Node<Ptr>) returns (split: Addr)
      requires a in file.mem && Allotted(file.mem, file.next) && Splittable(file.mem, a, w)
      modifies file
      ensures Allotted(file.mem, file.next)
      ensures split == old(file.next) && file.next == old(file.next) + NODE_SIZE
      ensures file.mem == Halve(old(file.mem), a, w, split)
      ensures a in file.mem && file.mem[a].parent == old(file.mem)[a].parent
    {
      split := file.Allocate();
      ghost var h0 := file.mem;
      assert Allotted(h0, file.next);
      hide Allotted;
      file.mem := file.mem[split := Node(w.parent, w.keys[2..], w.data[2..], [])];
      file.mem := file.mem[a := Node(w.parent, w.keys[..1], w.data[..1], [])];
      if |w.kids| > 0 {
        file.mem := file.mem[a := file.mem[a].(kids := w.kids[..2])];
        assert forall x | x in w.kids[2..] :: x in w.kids;
        AdoptKids(split, w.kids[2..]);
      } else {
        RehomeNone(file.mem, split);
      }
      SameKeys(h0, file.mem, file.next);
    }

    /** Hangs the children below the node a, each with its new parent address. */
    method AdoptKids(a: Addr, kids: seq<Addr>)
      requires a in file.mem && file.mem[a].kids == [] && a !in kids
      requires forall x | x in kids :: x in file.mem
      modifies file`mem
      ensures file.mem == Rehome(old(file.mem)[a := old(file.mem)[a].(kids := kids)], kids, a)
      ensures file.mem.Keys == old(file.mem.Keys)
    {
      ghost var base, node := file.mem, file.mem[a];
      var i := 0;
      RehomeNone(base, a);
      while i < |kids|
        invariant 0 <= i <= |kids|
        invariant file.mem == Rehome(base, kids[..i], a)[a := node.(kids := kids[..i])]
      {
        file.mem := file.mem[a := file.mem[a].(kids := file.mem[a].kids + [kids[i]])];
        file.mem := file.mem[kids[i] := file.mem[kids[i]].(parent := a)];
        assert kids[..i + 1] == kids[..i] + [kids[i]];
        RehomeOne(base, kids[..i], kids[i], a);
        i := i + 1;
      }
      assert kids[..i] == kids;
      RehomeUpdate(base, kids, a, a, node.(kids := kids));
    }

    /** Adds k, d and the child right of it to the node a, which has room. */
    method SimpleAdd(a: Addr, k: Key, d: Ptr, right: Addr)
      requires a in file.mem && Ascending(file.mem[a].keys) && k !in file.mem[a].keys
      requires |file.mem[a].data| == |file.mem[a].keys|
      requires right != NULL ==> |file.mem[a].kids| == |file.mem[a].keys| + 1
      modifies file`mem
      ensures file.mem == old(file.mem)[a := WidenNode(old(file.mem)[a], k, d, right)]
    {
      var n := file.mem[a];
      var keys, at := PlaceKey(n.keys, k);
      var data := MoveInsert(n.data, at, d);
      file.mem := file.mem[a := n.(keys := keys, data := data)];
      if right != NULL {
        var kids := MoveInsert(n.kids, at + 1, right);
        file.mem := file.mem[a := file.mem[a].(kids := kids)];
      }
    }

    /** A new root above the halves a and split. */
    method GrowRoot(a: Addr, k: Key, d: Ptr, split: Addr) returns (newRoot: Addr)
      requires a in file.mem && split in file.mem && Allotted(file.mem, file.next)
      modifies file
      ensures newRoot == old(file.next) && file.next == old(file.next) + NODE_SIZE
      ensures file.mem == Crown(old(file.mem), a, k, d, split, newRoot)
      ensures Allotted(file.mem, file.next)
    {
      newRoot := file.Allocate();
      ghost var h0 := file.mem;
      assert Allotted(h0, file.next) && newRoot !in old(file.mem);
      hide Allotted;
      file.mem := file.mem[newRoot := Node(NULL, [k], [d], [a, split])];
      file.mem := file.mem[a := file.mem[a].(parent := newRoot)];
      file.mem := file.mem[split := file.mem[split].(parent := newRoot)];
      SameKeys(h0, file.mem, file.next);
    }

    /**
      Adds k, d and the child right of it to the node a.  A full node is split and the middle entry
      goes to its parent; a split root gets a new root above it, which is returned.
    */
    method RecursiveAdd(a: Addr, k: Key, d: Ptr, right: Addr,
                        ghost t: Tree<Ptr>, ghost h: nat, ghost path: Path, ghost r: Option<Tree<Ptr>>, ghost goal: Grown<Ptr>)
      returns (newRoot: Addr)
      requires Ready(file.mem, file.next, t, h, path, k, r) && Allotted(file.mem, file.next)
      requires a == Get(t, path).addr && right == RightAddr(r)
      requires goal == InsertPath(t, path, Entry(k, d), r, file.next)
      modifies file
      ensures Allotted(file.mem, file.next)
      ensures Done(old(file.mem), file.mem, file.next, t, r, Regrow(goal))
      ensures newRoot == RootAfter(goal)
      decreases |path|, 1
    {
      PathSplittable(file.mem, file.next, t, h, path, k, r);
      if |file.mem[a].keys| >= MAX_KEYS {
        newRoot := SplitAndClimb(a, k, d, right, t, h, path, r, goal);
      } else {
        FitStep(file.mem, file.next, t, h, path, Entry(k, d), r);
        SimpleAdd(a, k, d, right);
        newRoot := NULL;
      }
    }

    method SplitAndClimb(a: Addr, k: Key, d: Ptr, right: Addr,
                         ghost t: Tree<Ptr>, ghost h: nat, ghost path: Path, ghost r: Option<Tree<Ptr>>, ghost goal: Grown<Ptr>)
      returns (newRoot: Addr)
      requires Ready(file.mem, file.next, t, h, path, k, r) && Allotted(file.mem, file.next)
      requires a == Get(t, path).addr && right == RightAddr(r) && |Get(t, path).entries| == MAX_KEYS
      requires goal == InsertPath(t, path, Entry(k, d), r, file.next)
      modifies file
      ensures Allotted(file.mem, file.next)
      ensures Done(old(file.mem), file.mem, file.next, t, r, Regrow(goal))
      ensures newRoot == RootAfter(goal)
      decreases |path|, 0
    {
      hide Ready, Done, Halved, IsMid, Carried, Crown, ClimbsTo, InsertPath, Get, ValidPath, ParentAddr, Regrow, RightAddr, Allotted, Stored;
      ghost var e, h0, n0 := Entry(k, d), file.mem, file.next;
      var midKey, midData, split, parent := Split(a, k, d, right, t, h, path, r);
      ghost var h1, m := file.mem, Entry(midKey, midData);
      if parent == NULL {
        AfterRootSplit(h0, n0, t, h, e, r, h1, m);
        newRoot := GrowRoot(a, midKey, midData, split);
      } else {
        ghost var t', r' := AfterInnerSplit(h0, n0, t, h, path, e, r, h1, m);
        newRoot := RecursiveAdd(parent, midKey, midData, split, t', h, Up(path), r', goal);
        DoneThrough(h0, h1, file.mem, file.next, t, r, t', r', Regrow(goal));
      }
    }

    method Split(a: Addr, k: Key, d: Ptr, right: Addr,
                 ghost t: Tree<Ptr>, ghost h: nat, ghost path: Path, ghost r: Option<Tree<Ptr>>)
      returns (midKey: Key, midData: Ptr, split: Addr, parent: Addr)
      requires Ready(file.mem, file.next, t, h, path, k, r) && Allotted(file.mem, file.next)
      requires a == Get(t, path).addr && right == RightAddr(r) && |Get(t, path).entries| == MAX_KEYS
      modifies file
      ensures Allotted(file.mem, file.next)
      ensures split == old(file.next) && file.next == old(file.next) + NODE_SIZE
      ensures Halved(old(file.mem), old(file.next), t, path, Entry(k, d), r, file.mem)
      ensures IsMid(old(file.mem), t, path, Entry(k, d), r, Entry(midKey, midData))
      ensures parent == ParentAddr(t, path, NULL) && (parent == NULL <==> path == [])
    {
      PathSplittable(file.mem, file.next, t, h, path, k, r);
      var w := View(file.mem[a], k, d, right);
      split := SplitONode(a, w);
      midKey, midData := w.keys[1], w.data[1];
      parent := file.mem[a].parent;
    }
  }

  /** The record w can be halved between a and a new node. */
  ghost predicate Splittable<D>(h: Heap<D>, a: Addr, w: Node<D>)
    requires a in h
  {
    && w.parent == h[a].parent && |w.keys| == |w.data| == MAX_KEYS + 1 && (w.kids == [] || |w.kids| == MAX_KEYS + 2)
    && (forall x | x in w.kids :: x in h && x != a)
  }

  lemma WidenedKids<D>(n: Node<D>, k: Key, d: D, right: Addr)
    ensures forall x | x in WidenNode(n, k, d, right).kids :: x in n.kids || (right != NULL && x == right)
  {
  }

  /** A full node on the path can be split. */
  lemma PathSplittable<D(!new)>(h: Heap<D>, next: Addr, t: Tree<D>, height: nat, path: Path, k: Key, r: Option<Tree<D>>)
    requires Ready(h, next, t, height, path, k, r)
    ensures Get(t, path).addr in h
    ensures var n := h[Get(t, path).addr];
            && Ascending(n.keys) && k !in n.keys && |n.data| == |n.keys| == |Get(t, path).entries| <= MAX_KEYS
            && (r.Some? ==> |n.kids| == |n.keys| + 1)
            && n.parent == ParentAddr(t, path, NULL) && (n.parent == NULL <==> path == [])
    ensures |Get(t, path).entries| == MAX_KEYS ==>
              forall d :: Splittable(h, Get(t, path).addr, WidenNode(h[Get(t, path).addr], k, d, RightAddr(r)))
  {
    var u := Get(t, path);
    NodeOnPath(h, next, t, height, path, k, r);
    AddrsInCells(u.kids);
    RootHasNoParent(h, next, t, height, path, k, r);
    forall x | x in h[u.addr].kids ensures x in h {
      var i :| 0 <= i < |u.kids| && Addrs(u.kids)[i] == x;
      assert Stored(h, u.kids[i], u.addr);
    }
    if r.Some? { assert r.value.addr in Cells(r.value) && u.addr in Cells(u); }
    forall d | |u.entries| == MAX_KEYS
      ensures Splittable(h, u.addr, WidenNode(h[u.addr], k, d, RightAddr(r)))
    {
      WidenedKids(h[u.addr], k, d, RightAddr(r));
    }
  }

  lemma {:induction false} RankBeyond<D>(s: seq<Entry<D>>, k: Key, i: nat)
    requires i < |s| && s[i].key <= k && Rank(s, k) >= i
    ensures Rank(s, k) >= i + 1
  {
    RankSplits(s, k);
  }
}
