/**
  One level of an addition, on a store that spells out a tree: the entry fits, or the node splits
  and the same addition is left one level up, or the root splits and the tree grows by a level.
*/
module BTreeStep {
  import opened Seqs
  import opened BTreeSpec
  import opened BTreeInsert
  import opened BTreeHeap
  import opened BTreeOrder

  ghost function RightAddr<D>(r: Option<Tree<D>>): Addr { if r.Some? then r.value.addr else NULL }

  ghost function RightCells<D>(r: Option<Tree<D>>): set<Addr> { if r.Some? then Cells(r.value) else {} }

  /** Outside the cells s the stores agree. */
  ghost predicate Untouched<D>(h: Heap<D>, h': Heap<D>, s: set<Addr>) {
    forall x | x in h && x !in s :: x in h' && h'[x] == h[x]
  }

  ghost predicate InUse(s: set<Addr>, next: Addr) { forall x | x in s :: NULL < x < next }

  /**
    The store h holds the tree t, and key k, with the subtree r on its right (none in a leaf), is to
    be added to the node at the end of the path.
  */
  ghost predicate Ready<D>(h: Heap<D>, next: Addr, t: Tree<D>, height: nat, path: Path, k: Key, r: Option<Tree<D>>) {
    && Stored(h, t, NULL) && Distinct(t) && Balanced(t, height) && |t.entries| <= MAX_KEYS
    && ValidPath(t, path) && Admits(t, path, k, -1, KEY_LIMIT)
    && (r.None? <==> Get(t, path).kids == [])
    && (r.Some? ==> |path| < height && Fit(r.value, height - |path| - 1))
    && (r.Some? ==> Stored(h, r.value, Get(t, path).addr) && Distinct(r.value) && Cells(r.value) !! Cells(t))
    && InUse(Cells(t) + RightCells(r), next)
  }

  /** The store afterwards holds the tree that the addition makes, and nothing else changed. */
  ghost predicate Done<D>(h: Heap<D>, h': Heap<D>, next': Addr, t: Tree<D>, r: Option<Tree<D>>, grown: (Tree<D>, Addr)) {
    && Stored(h', grown.0, NULL) && Distinct(grown.0) && InUse(Cells(grown.0), next') && next' == grown.1
    && Cells(t) + RightCells(r) <= Cells(grown.0)
    && Untouched(h, h', Cells(grown.0))
  }

  lemma NodeOnPath<D>(h: Heap<D>, next: Addr, t: Tree<D>, height: nat, path: Path, k: Key, r: Option<Tree<D>>)
    requires Ready(h, next, t, height, path, k, r)
    ensures var u := Get(t, path);
            && Stored(h, u, ParentAddr(t, path, NULL)) && Distinct(u) && Cells(u) <= Cells(t)
            && |u.entries| <= MAX_KEYS && Sorted(u.entries) && Absent(u.entries, k)
            && |path| <= height && Balanced(u, height - |path|)
    ensures r.Some? ==> r.value.addr != NULL && RightCells(r) !! Cells(Get(t, path))
  {
    StoredGet(h, t, NULL, path);
    AdmitsGet(t, path, k, -1, KEY_LIMIT);
    BalancedGet(t, height, path);
    if r.Some? { assert r.value.addr in Cells(r.value); }
  }

  lemma {:induction false} BalancedGet<D>(t: Tree<D>, height: nat, path: Path)
    requires Balanced(t, height) && ValidPath(t, path)
    ensures |path| <= height && Balanced(Get(t, path), height - |path|)
    ensures path != [] ==> Fit(Get(t, path), height - |path|)
    decreases |path|
  {
    if path != [] {
      assert Siblings(t.kids, height - 1);
      assert Fit(t.kids[path[0]], height - 1);
      BalancedGet(t.kids[path[0]], height - 1, path[1..]);
    }
  }

  ghost function Target<D>(t: Tree<D>, path: Path, e: Entry<D>, r: Option<Tree<D>>): Tree<D>
    requires ValidPath(t, path)
  {
    Widen(Get(t, path), e, r)
  }

  /** Room in the node: one record changes and the addition is done. */
  lemma FitStep<D>(h: Heap<D>, next: Addr, t: Tree<D>, height: nat, path: Path, e: Entry<D>, r: Option<Tree<D>>)
    requires Ready(h, next, t, height, path, e.key, r) && |Get(t, path).entries| < MAX_KEYS
    ensures var a := Get(t, path).addr;
            a in h && Done(h, h[a := WidenNode(h[a], e.key, e.data, RightAddr(r))], next, t, r,
                           Regrow(InsertPath(t, path, e, r, next)))
    ensures InsertPath(t, path, e, r, next).One? && InsertPath(t, path, e, r, next).tree.addr == t.addr
  {
    var u, w := Get(t, path), Target(t, path, e, r);
    NodeOnPath(h, next, t, height, path, e.key, r);
    var h' := h[u.addr := WidenNode(h[u.addr], e.key, e.data, RightAddr(r))];
    StoredWiden(h, u, ParentAddr(t, path, NULL), e, r);
    WidenKids(h, u, e, r);
    InsertPathOne(t, path, e, r, next);
    StoredReplace(h, h', t, NULL, path, w);
    CellsReplace(t, path, w);
  }

  /** No room: the node is halved, and the middle entry is left to be added one level up. */
  lemma SplitStep<D>(h: Heap<D>, next: Addr, t: Tree<D>, height: nat, path: Path, e: Entry<D>, r: Option<Tree<D>>)
    returns (g: Grown<D>, h': Heap<D>)
    requires Ready(h, next, t, height, path, e.key, r) && |Get(t, path).entries| == MAX_KEYS
    ensures Overfull(Target(t, path, e, r)) && g == Settle(Target(t, path, e, r), next)
    ensures h' == Halve(h, Get(t, path).addr, Record(Target(t, path, e, r), ParentAddr(t, path, NULL)), next)
    ensures Get(t, path).addr in h
         && Record(Target(t, path, e, r), ParentAddr(t, path, NULL)) == WidenNode(h[Get(t, path).addr], e.key, e.data, RightAddr(r))
    ensures Stored(h', g.right, ParentAddr(t, path, NULL)) && Stored(h', Replace(t, path, g.left), NULL)
    ensures Parted(t, path, r, g, next) && Replace(t, path, g.left).addr == t.addr
    ensures Untouched(h, h', Cells(t) + RightCells(r) + {next})
  {
    var u, w := Get(t, path), Target(t, path, e, r);
    var p := ParentAddr(t, path, NULL);
    NodeOnPath(h, next, t, height, path, e.key, r);
    RecordWiden(u, p, e, r);
    WidenKids(h, u, e, r);
    assert Overfull(w);
    SplitParted(h, next, t, height, path, e, r);
    g := Settle(w, next);
    h' := Halve(h, u.addr, Record(w, p), next);
    SplitStored(h, next, t, path, w);
  }

  /** The halves of the over-full w, written in place of the node at the end of the path. */
  lemma SplitStored<D>(h: Heap<D>, next: Addr, t: Tree<D>, path: Path, w: Tree<D>)
    requires Stored(h, t, NULL) && Distinct(t) && ValidPath(t, path) && w.addr == Get(t, path).addr
    requires Overfull(w) && Distinct(w) && StoredKids(h, w.kids, w.addr)
    requires next !in Cells(w) && next !in Cells(t) && Cells(w) * Cells(t) <= Cells(Get(t, path)) <= Cells(w)
    ensures var h' := Halve(h, w.addr, Record(w, ParentAddr(t, path, NULL)), next);
            && Stored(h', RightHalf(w, next), ParentAddr(t, path, NULL))
            && Stored(h', Replace(t, path, LeftHalf(w)), NULL) && Replace(t, path, LeftHalf(w)).addr == t.addr
            && Untouched(h, h', Cells(w) + {next})
  {
    var p := ParentAddr(t, path, NULL);
    var h' := Halve(h, w.addr, Record(w, p), next);
    StoredHalve(h, w, p, next);
    hide Halve;
    StoredReplace(h, h', t, NULL, path, LeftHalf(w));
  }

  /** The two halves share no address with each other and use one address more than before. */
  ghost predicate Parted<D>(t: Tree<D>, path: Path, r: Option<Tree<D>>, g: Grown<D>, next: Addr)
    requires g.Two? && ValidPath(t, path)
  {
    && Distinct(Replace(t, path, g.left)) && Distinct(g.right)
    && Cells(Replace(t, path, g.left)) !! Cells(g.right)
    && Cells(Replace(t, path, g.left)) + Cells(g.right) == Cells(t) + RightCells(r) + {next}
  }

  lemma SplitParted<D>(h: Heap<D>, next: Addr, t: Tree<D>, height: nat, path: Path, e: Entry<D>, r: Option<Tree<D>>)
    requires Ready(h, next, t, height, path, e.key, r) && Overfull(Target(t, path, e, r))
    ensures Parted(t, path, r, Settle(Target(t, path, e, r), next), next)
  {
    var u, w := Get(t, path), Target(t, path, e, r);
    NodeOnPath(h, next, t, height, path, e.key, r);
    WidenKids(h, u, e, r);
    HalvesDistinct(w, next);
    CellsReplace(t, path, LeftHalf(w));
  }

  /** After a split below the root the same addition stands one level up. */
  lemma ClimbStep<D>(h: Heap<D>, next: Addr, t: Tree<D>, height: nat, path: Path, e: Entry<D>, r: Option<Tree<D>>, g: Grown<D>, h': Heap<D>)
    requires Ready(h, next, t, height, path, e.key, r) && path != []
    requires g == Settle(Target(t, path, e, r), next) && g.Two? && Parted(t, path, r, g, next)
    requires Stored(h', Replace(t, path, g.left), NULL) && Stored(h', g.right, ParentAddr(t, path, NULL))
    ensures ClimbsTo(t, path, Replace(t, path, g.left), Up(path))
    ensures Ready(h', g.next, Replace(t, path, g.left), height, Up(path), g.mid.key, Some(g.right))
    ensures InsertPath(t, path, e, r, next)
         == InsertPath(Replace(t, path, g.left), Up(path), g.mid, Some(g.right), g.next)
  {
    UpIsParent(t, path, g.left);
    InsertPathClimb(t, path, e, r, next, g);
    AdmitsUp(t, path, e, r, -1, KEY_LIMIT, next, g);
    HalvesFit(t, height, path, e, r, next);
    assert g.next == next + NODE_SIZE;
    ReadyAgain(h', next, t, height, path, r, g);
  }

  /** The path up ends at the parent, in the tree as it became. */
  ghost predicate ClimbsTo<D>(t: Tree<D>, path: Path, t': Tree<D>, up: Path)
    requires ValidPath(t, path)
  {
    ValidPath(t', up) && Get(t', up).kids != [] && Get(t', up).addr == ParentAddr(t, path, NULL)
  }

  lemma UpIsParent<D>(t: Tree<D>, path: Path, u: Tree<D>)
    requires path != [] && ValidPath(t, path)
    ensures ClimbsTo(t, path, Replace(t, path, u), Up(path))
  {
    ParentOfPath(t, path, NULL);
    ReplaceUp(t, path, u);
  }

  lemma ReadyAgain<D>(h': Heap<D>, next: Addr, t: Tree<D>, height: nat, path: Path, r: Option<Tree<D>>, g: Grown<D>)
    requires Balanced(t, height) && |t.entries| <= MAX_KEYS && ValidPath(t, path) && path != []
    requires InUse(Cells(t) + RightCells(r), next) && next > NULL
    requires g.Two? && g.next == next + NODE_SIZE && Parted(t, path, r, g, next)
    requires Stored(h', Replace(t, path, g.left), NULL) && Stored(h', g.right, ParentAddr(t, path, NULL))
    requires |path| <= height && Fit(g.left, height - |path|) && Fit(g.right, height - |path|)
    requires ClimbsTo(t, path, Replace(t, path, g.left), Up(path))
    requires Admits(Replace(t, path, g.left), Up(path), g.mid.key, -1, KEY_LIMIT)
    ensures Ready(h', g.next, Replace(t, path, g.left), height, Up(path), g.mid.key, Some(g.right))
  {
    hide Stored, Distinct, Cells, Balanced, Fit, Admits, ValidPath, Get, Replace;
    BalancedReplace(t, height, path, g.left);
  }

  lemma HalvesFit<D>(t: Tree<D>, height: nat, path: Path, e: Entry<D>, r: Option<Tree<D>>, next: Addr)
    requires Balanced(t, height) && ValidPath(t, path) && |t.entries| <= MAX_KEYS
    requires r.None? <==> Get(t, path).kids == []
    requires r.Some? ==> |path| < height && Fit(r.value, height - |path| - 1)
    requires Settle(Target(t, path, e, r), next).Two?
    ensures |path| <= height
    ensures Fit(Settle(Target(t, path, e, r), next).left, height - |path|)
    ensures Fit(Settle(Target(t, path, e, r), next).right, height - |path|)
  {
    BalancedGet(t, height, path);
    WidenBalanced(Get(t, path), height - |path|, e, r);
    SettleSpells(Target(t, path, e, r), height - |path|, next);
  }

  lemma WidenBalanced<D>(u: Tree<D>, height: nat, e: Entry<D>, r: Option<Tree<D>>)
    requires Balanced(u, height) && (r.None? <==> u.kids == [])
    requires r.Some? ==> height > 0 && Fit(r.value, height - 1)
    ensures Balanced(Widen(u, e, r), height)
  {
    if r.Some? {
      var i := Rank(u.entries, e.key) + 1;
      SiblingsSplit(u.kids, height - 1, i);
      assert Siblings([r.value], height - 1);
      SiblingsJoin(u.kids[..i], [r.value], height - 1);
      SiblingsJoin(u.kids[..i] + [r.value], u.kids[i..], height - 1);
    }
  }

  /** After a split of the root a new root above the halves completes the addition. */
  lemma CrownStep<D>(h: Heap<D>, next: Addr, t: Tree<D>, height: nat, e: Entry<D>, r: Option<Tree<D>>, g: Grown<D>, h': Heap<D>)
    requires Ready(h, next, t, height, [], e.key, r)
    requires g == Settle(Target(t, [], e, r), next) && g.Two? && Parted(t, [], r, g, next)
    requires Stored(h', g.left, NULL) && Stored(h', g.right, NULL)
    requires Untouched(h, h', Cells(t) + RightCells(r) + {next})
    ensures g.left.addr in h' && g.right.addr in h'
    ensures InsertPath(t, [], e, r, next) == g
    ensures Done(h, Crown(h', g.left.addr, g.mid.key, g.mid.data, g.right.addr, g.next), g.next + NODE_SIZE, t, r, Regrow(g))
  {
    StoredCrown(h', g.left, g.mid, g.right, g.next);
  }

  /** Only the root has no parent address. */
  lemma RootHasNoParent<D>(h: Heap<D>, next: Addr, t: Tree<D>, height: nat, path: Path, k: Key, r: Option<Tree<D>>)
    requires Ready(h, next, t, height, path, k, r)
    ensures ParentAddr(t, path, NULL) == NULL <==> path == []
  {
    StoredGet(h, t, NULL, path);
  }

  /** h' is h with the full node at the end of the path widened and halved. */
  ghost predicate Halved<D>(h: Heap<D>, next: Addr, t: Tree<D>, path: Path, e: Entry<D>, r: Option<Tree<D>>, h': Heap<D>)
    requires ValidPath(t, path)
  {
    && Get(t, path).addr in h
    && var w := WidenNode(h[Get(t, path).addr], e.key, e.data, RightAddr(r));
       && |w.keys| == |w.data| == MAX_KEYS + 1 && (w.kids == [] || |w.kids| == MAX_KEYS + 2)
       && h' == Halve(h, Get(t, path).addr, w, next)
  }

  /** The middle entry of the full node at the end of the path, once widened. */
  ghost predicate IsMid<D>(h: Heap<D>, t: Tree<D>, path: Path, e: Entry<D>, r: Option<Tree<D>>, m: Entry<D>)
    requires ValidPath(t, path)
  {
    && Get(t, path).addr in h
    && var w := WidenNode(h[Get(t, path).addr], e.key, e.data, RightAddr(r));
       1 < |w.keys| == |w.data| && m == Entry(w.keys[1], w.data[1])
  }

  lemma MidOfSplit<D>(h: Heap<D>, next: Addr, t: Tree<D>, height: nat, path: Path, e: Entry<D>, r: Option<Tree<D>>, m: Entry<D>)
    requires Ready(h, next, t, height, path, e.key, r) && |Get(t, path).entries| == MAX_KEYS && IsMid(h, t, path, e, r, m)
    ensures Overfull(Target(t, path, e, r)) && Target(t, path, e, r).entries[1] == m
  {
    NodeOnPath(h, next, t, height, path, e.key, r);
    RecordWiden(Get(t, path), ParentAddr(t, path, NULL), e, r);
  }

  /** A split root: what is left to do is the new root. */
  lemma AfterRootSplit<D>(h: Heap<D>, next: Addr, t: Tree<D>, height: nat, e: Entry<D>, r: Option<Tree<D>>, h': Heap<D>, m: Entry<D>)
    requires Ready(h, next, t, height, [], e.key, r) && |Get(t, []).entries| == MAX_KEYS
    requires Halved(h, next, t, [], e, r, h') && IsMid(h, t, [], e, r, m)
    ensures t.addr in h' && next in h' && Get(t, []) == t
    ensures var goal := InsertPath(t, [], e, r, next);
            && goal.Two? && goal.next == next + NODE_SIZE
            && Done(h, Crown(h', t.addr, m.key, m.data, next, next + NODE_SIZE), next + NODE_SIZE + NODE_SIZE, t, r, Regrow(goal))
  {
    MidOfSplit(h, next, t, height, [], e, r, m);
    var g, h2 := SplitStep(h, next, t, height, [], e, r);
    CrownStep(h, next, t, height, e, r, g, h');
  }

  /** A split below the root: the same addition is left one level up. */
  lemma AfterInnerSplit<D>(h: Heap<D>, next: Addr, t: Tree<D>, height: nat, path: Path, e: Entry<D>, r: Option<Tree<D>>, h': Heap<D>, m: Entry<D>)
    returns (t': Tree<D>, r': Option<Tree<D>>)
    requires Ready(h, next, t, height, path, e.key, r) && |Get(t, path).entries| == MAX_KEYS && path != []
    requires Halved(h, next, t, path, e, r, h') && IsMid(h, t, path, e, r, m)
    ensures Ready(h', next + NODE_SIZE, t', height, Up(path), m.key, r')
    ensures ValidPath(t', Up(path)) && Get(t', Up(path)).addr == ParentAddr(t, path, NULL) && RightAddr(r') == next
    ensures InsertPath(t, path, e, r, next) == InsertPath(t', Up(path), m, r', next + NODE_SIZE)
    ensures Carried(h, h', t, r, t', r')
  {
    MidOfSplit(h, next, t, height, path, e, r, m);
    var g, h2 := SplitStep(h, next, t, height, path, e, r);
    t', r' := Replace(t, path, g.left), Some(g.right);
    ClimbStep(h, next, t, height, path, e, r, g, h');
  }

  /** What an intermediate store changed lies inside the cells that the rest of the addition covers. */
  ghost predicate Carried<D>(h: Heap<D>, h': Heap<D>, t: Tree<D>, r: Option<Tree<D>>, t': Tree<D>, r': Option<Tree<D>>) {
    && Cells(t) + RightCells(r) <= Cells(t') + RightCells(r')
    && Untouched(h, h', Cells(t') + RightCells(r'))
  }

  lemma DoneThrough<D>(h: Heap<D>, h': Heap<D>, h2: Heap<D>, next: Addr, t: Tree<D>, r: Option<Tree<D>>, t': Tree<D>, r': Option<Tree<D>>, grown: (Tree<D>, Addr))
    requires Carried(h, h', t, r, t', r') && Done(h', h2, next, t', r', grown)
    ensures Done(h, h2, next, t, r, grown)
  {
  }

  /** An addition starts at the leaf at the end of the search path. */
  lemma StartAdd<D>(h: Heap<D>, next: Addr, t: Tree<D>, height: nat, k: Key)
    requires WellFormed(t, height) && Stored(h, t, NULL) && Distinct(t) && InUse(Cells(t), next) && Absent(List(t), k)
    ensures Ready(h, next, t, height, SearchPath(t, k), k, None)
  {
    AdmitsSearch(t, height, k, -1, KEY_LIMIT);
    SearchPathValid(t, k, height);
  }

  /** The root to install, or none when the old one stays. */
  ghost function RootAfter<D>(g: Grown<D>): Addr { if g.One? then NULL else g.next }

  lemma RootAfterOf<D>(g: Grown<D>)
    ensures RootAfter(g) == if g.One? then NULL else g.next
  {
  }

  /** The top of what an addition makes is the old top, or the new root. */
  lemma RootOfAdd<D>(t: Tree<D>, path: Path, e: Entry<D>, next: Addr)
    requires next > NULL
    ensures var g := InsertPath(t, path, e, None, next);
            Regrow(g).0.addr == if RootAfter(g) == NULL then t.addr else RootAfter(g)
  {
    InsertPathNext(t, path, e, next);
  }

  lemma {:induction false} InsertPathNext<D>(t: Tree<D>, path: Path, e: Entry<D>, next: Addr)
    ensures InsertPath(t, path, e, None, next).next >= next
    ensures InsertPath(t, path, e, None, next).One? ==> InsertPath(t, path, e, None, next).tree.addr == t.addr
    decreases |path|
  {
    if path != [] && path[0] < |t.kids| { InsertPathNext(t.kids[path[0]], path[1..], e, next); }
  }
}
