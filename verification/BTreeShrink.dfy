/** What the removals of BTreeRemove do to a node store, and why the store still spells a 2-3-4 tree. */
module BTreeShrink {
  import opened Seqs
  import opened BTreeSpec
  import opened BTreeInsert
  import opened BTreeHeap
  import opened BTreeStep
  import opened BTreeRemove

  /** A neighbour of leaf i can spare an entry. */
  ghost predicate HasLender<D>(p: Tree<D>, i: nat) {
    || (i > 0 && i - 1 < |p.kids| && |p.kids[i - 1].entries| >= 2)
    || (i + 1 < |p.kids| && |p.kids[i + 1].entries| >= 2)
  }

  /** What the parent p of the leaf i makes of the leaf's last entry going away. */
  ghost function Underflowed<D>(p: Tree<D>, i: nat): Tree<D>
    requires LeafKids(p, i) && (HasLender(p, i) || |p.kids| == 2)
  {
    if i > 0 && |p.kids[i - 1].entries| >= 2 then LendLeft(p, i)
    else if HasLender(p, i) then LendRight(p, i)
    else Collapse(p, i)
  }

  /** The removal of an entry of the leaf at the end of the path is completed there or next to it. */
  ghost predicate Completes<D>(t: Tree<D>, path: Path)
    requires ValidPath(t, path)
  {
    || |Get(t, path).entries| > 1
    || path == []
    || (ValidPath(t, Up(path)) && HasLender(Get(t, Up(path)), path[|path| - 1]))
    || (|path| == 1 && |t.entries| == 1)
  }

  lemma LeafCells<D>(p: Tree<D>, i: nat)
    requires LeafKids(p, i)
    ensures forall x :: x in KidCells(p.kids) <==> exists j :: 0 <= j < |p.kids| && p.kids[j].addr == x
    ensures DistinctKids(p.kids) <==> forall j, k | 0 <= j < k < |p.kids| :: p.kids[j].addr != p.kids[k].addr
  {
    forall j | 0 <= j < |p.kids| ensures Cells(p.kids[j]) == {p.kids[j].addr} && Distinct(p.kids[j]) {
      assert p.kids[j].kids == [];
      assert KidCells(p.kids[j].kids) == {};
    }
    if DistinctKids(p.kids) {
      forall j, k | 0 <= j < k < |p.kids| ensures p.kids[j].addr != p.kids[k].addr {
        assert Cells(p.kids[j]) == {p.kids[j].addr} && Cells(p.kids[k]) == {p.kids[k].addr};
        assert p.kids[j].addr in Cells(p.kids[j]) && Cells(p.kids[j]) !! Cells(p.kids[k]);
      }
    }
  }

  /** Leaves that keep their addresses keep the set of cells. */
  lemma SameShape<D>(p: Tree<D>, q: Tree<D>, i: nat)
    requires LeafKids(p, i) && LeafKids(q, i) && p.addr == q.addr && |p.kids| == |q.kids|
    requires forall j | 0 <= j < |p.kids| :: p.kids[j].addr == q.kids[j].addr
    ensures Cells(p) == Cells(q) && (Distinct(p) <==> Distinct(q))
  {
    LeafCells(p, i);
    LeafCells(q, i);
    hide Distinct, DistinctKids;
    assert KidCells(p.kids) == KidCells(q.kids);
    DistinctIs(p);
    DistinctIs(q);
  }

  lemma DistinctIs<D>(p: Tree<D>)
    ensures Distinct(p) <==> p.addr !in KidCells(p.kids) && DistinctKids(p.kids)
  {
  }

  // ---------------------------------------------------------------- the writes

  ghost predicate LeftReady<D>(h: Heap<D>, a: Addr, i: nat) {
    && a in h && 0 < i < |h[a].kids| && h[a].kids[i] in h && h[a].kids[i - 1] in h
    && i <= |h[a].keys| == |h[a].data|
    && 0 < |h[h[a].kids[i - 1]].keys| == |h[h[a].kids[i - 1]].data|
    && h[a].kids[i] !in {a, h[a].kids[i - 1]} && h[a].kids[i - 1] != a
  }

  ghost predicate RightReady<D>(h: Heap<D>, a: Addr, i: nat) {
    && a in h && i + 1 < |h[a].kids| && h[a].kids[i] in h && h[a].kids[i + 1] in h
    && i < |h[a].keys| == |h[a].data|
    && 0 < |h[h[a].kids[i + 1]].keys| == |h[h[a].kids[i + 1]].data|
    && h[a].kids[i] !in {a, h[a].kids[i + 1]} && h[a].kids[i + 1] != a
  }

  /** The records after LendLeft: the leaf c at index i of the node a, its left neighbour, a itself. */
  ghost function LendLeftNodes<D>(h: Heap<D>, a: Addr, i: nat): Heap<D>
    requires LeftReady(h, a, i)
  {
    var p := h[a];
    var l, n := h[p.kids[i - 1]], |h[p.kids[i - 1]].keys| - 1;
    h[p.kids[i] := h[p.kids[i]].(keys := [p.keys[i - 1]], data := [p.data[i - 1]])]
     [a := p.(keys := p.keys[i - 1 := l.keys[n]], data := p.data[i - 1 := l.data[n]])]
     [p.kids[i - 1] := l.(keys := l.keys[..n], data := l.data[..n])]
  }

  ghost function LendRightNodes<D>(h: Heap<D>, a: Addr, i: nat): Heap<D>
    requires RightReady(h, a, i)
  {
    var p := h[a];
    var r := h[p.kids[i + 1]];
    h[p.kids[i] := h[p.kids[i]].(keys := [p.keys[i]], data := [p.data[i]])]
     [a := p.(keys := p.keys[i := r.keys[0]], data := p.data[i := r.data[0]])]
     [p.kids[i + 1] := r.(keys := r.keys[1..], data := r.data[1..])]
  }

  /** What a stored parent of leaves looks like record by record. */
  lemma LeafRecords<D>(h: Heap<D>, p: Tree<D>, parent: Addr, i: nat)
    requires Stored(h, p, parent) && Distinct(p) && LeafKids(p, i)
    ensures p.addr in h && h[p.addr] == Record(p, parent)
    ensures forall j | 0 <= j < |p.kids| :: p.kids[j].addr in h && h[p.kids[j].addr] == Record(p.kids[j], p.addr)
    ensures forall j | 0 <= j < |p.kids| :: p.kids[j].addr != p.addr
    ensures forall j, k | 0 <= j < k < |p.kids| :: p.kids[j].addr != p.kids[k].addr
  {
    LeafCells(p, i);
    forall j | 0 <= j < |p.kids| ensures p.kids[j].addr in h && h[p.kids[j].addr] == Record(p.kids[j], p.addr) {
      assert Stored(h, p.kids[j], p.addr);
    }
  }

  /** Conversely, records at their places make a stored tree. */
  lemma LeavesStored<D>(h: Heap<D>, p: Tree<D>, parent: Addr, i: nat)
    requires LeafKids(p, i) && p.addr in h && h[p.addr] == Record(p, parent)
    requires forall j | 0 <= j < |p.kids| :: p.kids[j].addr in h && h[p.kids[j].addr] == Record(p.kids[j], p.addr)
    ensures Stored(h, p, parent)
  {
    forall j | 0 <= j < |p.kids| ensures Stored(h, p.kids[j], p.addr) {
      assert p.kids[j].kids == [];
    }
  }

  lemma StoredLendLeft<D>(h: Heap<D>, p: Tree<D>, parent: Addr, i: nat)
    requires Stored(h, p, parent) && Distinct(p) && LeafKids(p, i) && i > 0 && |p.kids[i - 1].entries| >= 1
    ensures LeftReady(h, p.addr, i)
    ensures Stored(LendLeftNodes(h, p.addr, i), LendLeft(p, i), parent)
    ensures Untouched(h, LendLeftNodes(h, p.addr, i), Cells(p))
  {
    LeafRecords(h, p, parent, i);
    var q, h' := LendLeft(p, i), LendLeftNodes(h, p.addr, i);
    var l, n := p.kids[i - 1].entries, |p.kids[i - 1].entries| - 1;
    assert Keys(q.entries) == Keys(p.entries)[i - 1 := l[n].key] && Data(q.entries) == Data(p.entries)[i - 1 := l[n].data];
    assert Keys(l[..n]) == Keys(l)[..n] && Data(l[..n]) == Data(l)[..n];
    assert Addrs(q.kids) == Addrs(p.kids);
    LeavesStored(h', q, parent, i);
    LeafCells(p, i);
  }

  lemma StoredLendRight<D>(h: Heap<D>, p: Tree<D>, parent: Addr, i: nat)
    requires Stored(h, p, parent) && Distinct(p) && LeafKids(p, i) && i + 1 < |p.kids| && |p.kids[i + 1].entries| >= 1
    ensures RightReady(h, p.addr, i)
    ensures Stored(LendRightNodes(h, p.addr, i), LendRight(p, i), parent)
    ensures Untouched(h, LendRightNodes(h, p.addr, i), Cells(p))
  {
    LeafRecords(h, p, parent, i);
    var q, h' := LendRight(p, i), LendRightNodes(h, p.addr, i);
    var r := p.kids[i + 1].entries;
    assert Keys(q.entries) == Keys(p.entries)[i := r[0].key] && Data(q.entries) == Data(p.entries)[i := r[0].data];
    assert Keys(r[1..]) == Keys(r)[1..] && Data(r[1..]) == Data(r)[1..];
    assert Addrs(q.kids) == Addrs(p.kids);
    LeavesStored(h', q, parent, i);
    LeafCells(p, i);
  }

  /** A subtree u that lost k, in place of the node at the end of the path. */
  lemma PutBack<D>(h: Heap<D>, h': Heap<D>, t: Tree<D>, height: nat, path: Path, u: Tree<D>, k: Key)
    requires WellFormed(t, height) && Stored(h, t, NULL) && Distinct(t) && ValidPath(t, path)
    requires Stored(h', u, ParentAddr(t, path, NULL)) && u.addr == Get(t, path).addr
    requires Distinct(u) && Cells(u) <= Cells(Get(t, path)) && Untouched(h, h', Cells(Get(t, path)))
    requires !Absent(List(Get(t, path)), k) && List(u) == RemoveEntry(List(Get(t, path)), k)
    requires |path| <= height ==> Balanced(u, height - |path|) && |u.entries| <= MAX_KEYS
    requires path != [] || height > 0 ==> |u.entries| >= 1
    ensures Stored(h', Replace(t, path, u), NULL) && Distinct(Replace(t, path, u)) && Replace(t, path, u).addr == t.addr
    ensures Cells(Replace(t, path, u)) <= Cells(t)
    ensures WellFormed(Replace(t, path, u), height) && List(Replace(t, path, u)) == RemoveEntry(List(t), k)
  {
    CellsGet(t, path);
    CellsReplace(t, path, u);
    StoredReplace(h, h', t, NULL, path, u);
    ReplaceRemoves(t, height, path, u, k);
    RemoveKeepsSorted(List(t), k);
    if path != [] { BalancedReplace(t, height, path, u); }
  }

  lemma {:induction false} GetUp<D>(t: Tree<D>, path: Path)
    requires ValidPath(t, path) && path != []
    ensures ValidPath(t, Up(path)) && path[|path| - 1] < |Get(t, Up(path)).kids|
    ensures Get(t, path) == Get(t, Up(path)).kids[path[|path| - 1]]
    ensures ParentAddr(t, path, NULL) == Get(t, Up(path)).addr
    decreases |path|
  {
    ParentOfPath(t, path, NULL);
    if |path| > 1 {
      GetUp(t.kids[path[0]], path[1..]);
      ParentOfPath(t.kids[path[0]], path[1..], t.addr);
      assert Up(path)[1..] == Up(path[1..]);
    }
  }

  /** A leaf hangs at the bottom, below a node all of whose children are leaves. */
  lemma LeafOnPath<D>(t: Tree<D>, height: nat, path: Path)
    requires Balanced(t, height) && ValidPath(t, path) && Get(t, path).kids == []
    ensures |path| == height
    ensures path != [] ==>
              && 1 <= |Get(t, path).entries| <= MAX_KEYS
              && ValidPath(t, Up(path)) && ParentAddr(t, path, NULL) == Get(t, Up(path)).addr
              && LeafKids(Get(t, Up(path)), path[|path| - 1])
              && Get(t, path) == Get(t, Up(path)).kids[path[|path| - 1]]
              && Balanced(Get(t, Up(path)), 1)
  {
    BalancedGet(t, height, path);
    if path != [] {
      GetUp(t, path);
      BalancedGet(t, height, Up(path));
      var p := Get(t, Up(path));
      assert Siblings(p.kids, 0);
      assert forall j | 0 <= j < |p.kids| :: Fit(p.kids[j], 0);
    }
  }

  lemma WithoutStored<D>(h: Heap<D>, leaf: Tree<D>, parent: Addr, j: nat)
    requires Stored(h, leaf, parent) && leaf.kids == [] && j < |leaf.entries|
    ensures var n := h[leaf.addr];
            j < |n.keys| && j < |n.data|
            && Stored(h[leaf.addr := n.(keys := RemoveAt(n.keys, j), data := RemoveAt(n.data, j))], Without(leaf, j), parent)
            && Untouched(h, h[leaf.addr := n.(keys := RemoveAt(n.keys, j), data := RemoveAt(n.data, j))], Cells(leaf))
    ensures Distinct(Without(leaf, j)) && Cells(Without(leaf, j)) == Cells(leaf)
  {
    var w := Without(leaf, j);
    assert Keys(w.entries) == RemoveAt(Keys(leaf.entries), j) && Data(w.entries) == RemoveAt(Data(leaf.entries), j);
  }

  /** Lending keeps shape, sizes and cells, and only k goes. */
  lemma LendingFits<D>(p: Tree<D>, i: nat, k: Key)
    requires LeafKids(p, i) && Balanced(p, 1) && Distinct(p) && Sorted(List(p)) && HasLender(p, i)
    requires |p.kids[i].entries| == 1 && p.kids[i].entries[0].key == k
    ensures var q := Underflowed(p, i);
            && Balanced(q, 1) && |q.entries| == |p.entries| && q.addr == p.addr && Distinct(q) && Cells(q) == Cells(p)
            && List(q) == RemoveEntry(List(p), k)
    ensures !Absent(List(p), k)
  {
    var q := Underflowed(p, i);
    HasKey(p, i, k);
    assert Siblings(p.kids, 0);
    assert forall j | 0 <= j < |p.kids| :: Fit(p.kids[j], 0);
    if i > 0 && |p.kids[i - 1].entries| >= 2 { LendLeftRemoves(p, i, k); } else { LendRightRemoves(p, i, k); }
    assert forall j | 0 <= j < |q.kids| :: Fit(q.kids[j], 0);
    SameShape(p, q, i);
  }

  lemma HasKey<D>(p: Tree<D>, i: nat, k: Key)
    requires LeafKids(p, i) && |p.kids[i].entries| == 1 && p.kids[i].entries[0].key == k
    ensures !Absent(List(p), k)
  {
    var n := ChildList(p, i);
    assert List(p.kids[i])[0].key == k;
    assert List(p)[n..n + |List(p.kids[i])|][0] == List(p)[n];
  }

  /** The two leaves below the root a became one, written at the address of the one that is kept. */
  lemma StoredCollapse<D>(h: Heap<D>, p: Tree<D>, i: nat)
    requires LeafKids(p, i) && |p.kids| == 2 && Collapse(p, i).addr in h
    requires h[Collapse(p, i).addr] == Record(Collapse(p, i), NULL)
    ensures Stored(h, Collapse(p, i), NULL) && Distinct(Collapse(p, i)) && Cells(Collapse(p, i)) <= Cells(p)
  {
    var q := Collapse(p, i);
    LeafCells(p, i);
    assert q.kids == [];
  }

  lemma CollapseRecord<D>(p: Tree<D>, i: nat)
    requires LeafKids(p, i) && |p.kids| == 2
    ensures i == 1 ==> Record(Collapse(p, i), NULL)
                       == Node(NULL, Keys(p.kids[0].entries) + [p.entries[0].key], Data(p.kids[0].entries) + [p.entries[0].data], [])
    ensures i == 0 ==> Record(Collapse(p, i), NULL)
                       == Node(NULL, [p.entries[0].key] + Keys(p.kids[1].entries), [p.entries[0].data] + Data(p.kids[1].entries), [])
  {
  }

  /** A subtree lists a sorted part. */
  lemma {:induction false} SubtreeSorted<D>(t: Tree<D>, height: nat, path: Path)
    requires WellFormed(t, height) && ValidPath(t, path)
    ensures Sorted(List(Get(t, path))) && |Get(t, path).entries| <= MAX_KEYS
    ensures path != [] ==> 1 <= |Get(t, path).entries|
    decreases |path|
  {
    if path != [] {
      ChildWellFormed(t, height, path[0]);
      SubtreeSorted(t.kids[path[0]], height - 1, path[1..]);
    }
  }

  /** The leaf at the end of the path holds k as its only entry and can have it replaced or removed. */
  ghost predicate LastEntry<D>(t: Tree<D>, height: nat, path: Path, k: Key) {
    && WellFormed(t, height) && Distinct(t) && ValidPath(t, path) && path != [] && Get(t, path).kids == []
    && |Get(t, path).entries| == 1 && Get(t, path).entries[0].key == k
  }

  lemma AboveLeaf<D>(t: Tree<D>, height: nat, path: Path, k: Key)
    requires LastEntry(t, height, path, k)
    ensures |path| == height && ValidPath(t, Up(path)) && ParentAddr(t, path, NULL) == Get(t, Up(path)).addr
    ensures var p, i := Get(t, Up(path)), path[|path| - 1];
            && LeafKids(p, i) && Get(t, path) == p.kids[i] && Balanced(p, 1) && Sorted(List(p)) && Distinct(p)
            && 1 <= |p.entries| <= MAX_KEYS
            && forall j | 0 <= j < |p.kids| :: 1 <= |p.kids[j].entries|
  {
    LeafOnPath(t, height, path);
    SubtreeSorted(t, height, Up(path));
    CellsGet(t, Up(path));
    var p := Get(t, Up(path));
    assert Siblings(p.kids, 0);
    assert forall j | 0 <= j < |p.kids| :: Fit(p.kids[j], 0);
  }

  lemma LendingDone<D>(h: Heap<D>, h': Heap<D>, t: Tree<D>, height: nat, path: Path, k: Key)
    requires LastEntry(t, height, path, k) && Stored(h, t, NULL)
    requires ValidPath(t, Up(path)) && LeafKids(Get(t, Up(path)), path[|path| - 1])
    requires HasLender(Get(t, Up(path)), path[|path| - 1])
    requires Stored(h', Underflowed(Get(t, Up(path)), path[|path| - 1]), ParentAddr(t, Up(path), NULL))
    requires Untouched(h, h', Cells(Get(t, Up(path))))
    ensures var t' := Replace(t, Up(path), Underflowed(Get(t, Up(path)), path[|path| - 1]));
            && Stored(h', t', NULL) && Distinct(t') && t'.addr == t.addr && Cells(t') <= Cells(t)
            && WellFormed(t', height) && List(t') == RemoveEntry(List(t), k)
  {
    var p, i := Get(t, Up(path)), path[|path| - 1];
    AboveLeaf(t, height, path, k);
    LendingFits(p, i, k);
    hide LeafKids, HasLender, Underflowed, LastEntry, Stored, Untouched;
    PutBack(h, h', t, height, Up(path), Underflowed(p, i), k);
  }

  lemma CollapseDone<D>(p: Tree<D>, i: nat, k: Key)
    requires LeafKids(p, i) && |p.kids| == 2 && Sorted(List(p)) && |p.kids[1 - i].entries| == 1
    requires |p.kids[i].entries| == 1 && p.kids[i].entries[0].key == k
    ensures WellFormed(Collapse(p, i), 0) && List(Collapse(p, i)) == RemoveEntry(List(p), k)
  {
    CollapseRemoves(p, i, k);
    RemoveKeepsSorted(List(p), k);
  }

  /** An entry taken out of a leaf that may spare it. */
  lemma WithoutDone<D>(h: Heap<D>, t: Tree<D>, height: nat, path: Path, j: nat, k: Key)
    requires WellFormed(t, height) && Stored(h, t, NULL) && Distinct(t) && ValidPath(t, path) && Get(t, path).kids == []
    requires j < |Get(t, path).entries| && Get(t, path).entries[j].key == k && (|Get(t, path).entries| > 1 || path == [])
    requires Get(t, path).addr in h && j < |h[Get(t, path).addr].keys| && j < |h[Get(t, path).addr].data|
    ensures var leaf := Get(t, path); var n := h[leaf.addr];
            var h' := h[leaf.addr := n.(keys := RemoveAt(n.keys, j), data := RemoveAt(n.data, j))];
            var t' := Replace(t, path, Without(leaf, j));
            && Stored(h', t', NULL) && Distinct(t') && t'.addr == t.addr && Cells(t') <= Cells(t)
            && WellFormed(t', height) && List(t') == RemoveEntry(List(t), k)
  {
    var leaf := Get(t, path);
    var n := h[leaf.addr];
    StoredGet(h, t, NULL, path);
    SubtreeSorted(t, height, path);
    RemoveAtIs(leaf.entries, j);
    LeafOnPath(t, height, path);
    WithoutStored(h, leaf, ParentAddr(t, path, NULL), j);
    PutBack(h, h[leaf.addr := n.(keys := RemoveAt(n.keys, j), data := RemoveAt(n.data, j))], t, height, path, Without(leaf, j), k);
  }

  // ---------------------------------------------------------------- no lender, a parent with two keys or more

  /** The parent after leaf i was merged away: a key and a child have gone, the key's data pointer has not. */
  function WideMerged<D>(p: Node<D>, i: nat): Node<D>
    requires |p.keys| >= 2 && i < |p.kids| == |p.keys| + 1
  {
    p.(keys := RemoveAt(p.keys, if i > 0 then i - 1 else 0), kids := RemoveAt(p.kids, i))
  }

  /** The store after leaf i below a was merged: its parent's separator goes to the left neighbour, failing one to the right. */
  ghost function WideMergeNodes<D>(h: Heap<D>, a: Addr, i: nat): Heap<D>
    requires WideReady(h, a, i)
  {
    var p := h[a];
    if i > 0 then
      var l := h[p.kids[i - 1]];
      h[p.kids[i - 1] := l.(keys := l.keys + [p.keys[i - 1]], data := l.data + [p.data[i - 1]])][a := WideMerged(p, i)]
    else
      var r := h[p.kids[1]];
      h[p.kids[1] := r.(keys := [p.keys[0]] + r.keys, data := ([p.data[0]] + r.data)[..|r.data|])][a := WideMerged(p, i)]
  }

  /** Where a store agrees with another one above a node, any tree it spells has a subtree at that address. */
  lemma {:induction false} SpelledAlong<D>(h: Heap<D>, t: Tree<D>, parent: Addr, h': Heap<D>, u: Tree<D>, q: Addr, path: Path)
    requires Stored(h, t, parent) && Distinct(t) && ValidPath(t, path) && Stored(h', u, q) && u.addr == t.addr
    requires forall x | x in Cells(t) && x !in Cells(Get(t, path)) :: x in h && x in h' && h'[x] == h[x]
    ensures ValidPath(u, path) && Get(u, path).addr == Get(t, path).addr
    ensures Stored(h', Get(u, path), ParentAddr(u, path, q))
    decreases |path|
  {
    if path != [] {
      StoredGet(h, t, parent, path);
      var i := path[0];
      assert h'[t.addr] == h[t.addr];
      assert Addrs(t.kids) == Addrs(u.kids);
      assert Addrs(t.kids)[i] == t.kids[i].addr && Addrs(u.kids)[i] == u.kids[i].addr;
      assert Cells(t.kids[i]) <= Cells(t);
      SpelledAlong(h, t.kids[i], t.addr, h', u.kids[i], u.addr, path[1..]);
    }
  }

  /** After such a merge the store spells no tree at all: the parent has a data pointer more than keys. */
  lemma WideMergeBreaks<D>(h: Heap<D>, t: Tree<D>, path: Path, i: nat, u: Tree<D>, q: Addr)
    requires Stored(h, t, NULL) && Distinct(t) && ValidPath(t, path) && LeafKids(Get(t, path), i) && |Get(t, path).entries| >= 2
    requires u.addr == t.addr
    ensures WideReady(h, Get(t, path).addr, i) && !Stored(WideMergeNodes(h, Get(t, path).addr, i), u, q)
  {
    var p := Get(t, path);
    StoredGet(h, t, NULL, path);
    LeafRecords(h, p, ParentAddr(t, path, NULL), i);
    var h' := WideMergeNodes(h, p.addr, i);
    var n := if i > 0 then i - 1 else 1;
    LeafCells(p, i);
    assert p.kids[n].addr in KidCells(p.kids) && p.addr in Cells(p);
    assert h[p.addr].kids[n] == p.kids[n].addr;
    assert h'[p.addr] == WideMerged(h[p.addr], i);
    assert |h'[p.addr].data| == |h'[p.addr].keys| + 1;
    if Stored(h', u, q) {
      StoredKeys(h, t, NULL);
      hide WideMergeNodes, WideMerged;
      SpelledAlong(h, t, NULL, h', u, q, path);
      assert false;
    }
  }

  ghost predicate WideReady<D>(h: Heap<D>, a: Addr, i: nat) {
    && a in h && |h[a].keys| == |h[a].data| >= 2 && i < |h[a].kids| == |h[a].keys| + 1
    && h[a].kids[if i > 0 then i - 1 else 1] in h
  }

  /** Every key of q stands beside the data pointer that it has in p. */
  ghost predicate Paired<D>(p: Node<D>, q: Node<D>) {
    forall j | 0 <= j < |q.keys| :: PairedAt(p, q, j)
  }

  ghost predicate PairedAt<D>(p: Node<D>, q: Node<D>, j: nat)
    requires j < |q.keys|
  {
    j < |q.data| && exists m :: 0 <= m < |p.keys| && m < |p.data| && p.keys[m] == q.keys[j] && p.data[m] == q.data[j]
  }

  /** The parent's keys keep their data pointers exactly when the leaf merged away was the last child. */
  lemma WideMergePairs<D>(p: Node<D>, i: nat)
    requires |p.keys| == |p.data| >= 2 && i < |p.kids| == |p.keys| + 1
    requires forall j, k | 0 <= j < k < |p.keys| :: p.keys[j] != p.keys[k] && p.data[j] != p.data[k]
    ensures Paired(p, WideMerged(p, i)) <==> i == |p.keys|
  {
    var q, d := WideMerged(p, i), if i > 0 then i - 1 else 0;
    WideKeys(p, i);
    hide WideMerged;
    if i < |p.keys| {
      assert q.keys[d] == p.keys[d + 1] && q.data[d] == p.data[d];
      forall m | 0 <= m < |p.keys| && p.keys[m] == q.keys[d] ensures p.data[m] != q.data[d] {
        assert m == d + 1;
      }
      assert !PairedAt(p, q, d);
    } else {
      forall j | 0 <= j < |q.keys| ensures PairedAt(p, q, j) {
        assert p.keys[j] == q.keys[j] && p.data[j] == q.data[j];
      }
    }
  }

  /** All cells of a stored tree are in the store. */
  lemma {:induction false} StoredKeys<D>(h: Heap<D>, t: Tree<D>, parent: Addr)
    requires Stored(h, t, parent)
    ensures forall x | x in Cells(t) :: x in h
  {
    forall i | 0 <= i < |t.kids| ensures forall x | x in Cells(t.kids[i]) :: x in h { StoredKeys(h, t.kids[i], t.addr); }
  }

  lemma WideKeys<D>(p: Node<D>, i: nat)
    requires |p.keys| >= 2 && i < |p.kids| == |p.keys| + 1
    ensures var q, d := WideMerged(p, i), if i > 0 then i - 1 else 0;
            && q.data == p.data && |q.keys| == |p.keys| - 1
            && forall j | 0 <= j < |q.keys| :: q.keys[j] == p.keys[if j < d then j else j + 1]
  {
  }
}
