/**
  Committing a session: the tree seen through the table is written into the normal file, node by
  node, with new child and parent links.  The tree that results has the same shape and entries.
*/
module SafeCommit {
  import opened Seqs
  import opened BTreeSpec
  import opened BTreeInsert
  import opened BTreeHeap
  import opened BTreeShrink
  import opened BTreeStep
  import opened IndexTree
  import opened SafeTable
  import opened SafeStart
  import opened SafeSimulation

  /** The same shape and the same keys and pointers; addresses may differ. */
  ghost predicate Iso(t: Tree<Located>, u: Tree<Ptr>) {
    u.entries == EraseEntries(t.entries) && |u.kids| == |t.kids| && forall i | 0 <= i < |t.kids| :: Iso(t.kids[i], u.kids[i])
  }

  /** The addresses s lie in the normal part of t or were allocated in between. */
  ghost predicate Placed(v: Overlay, s: set<Addr>, cells: set<Addr>, lo: Addr, hi: Addr) {
    lo <= hi && forall y | y in s :: (y in cells && y in v.normal) || lo <= y < hi
  }

  /** No node of the session's base among the cells has been overwritten, unless it has a copy. */
  ghost predicate Intact(v: Overlay, h: Heap<Ptr>, cells: set<Addr>) {
    forall y | y in cells && y in v.normal && y !in v.table :: y in h && h[y] == v.normal[y]
  }

  /** The subtree t has been written below the given parent as u; of the rest, only the parent may have changed. */
  ghost predicate Merged(v: Overlay, t: Tree<Located>, parent: Addr, lo: Addr, hi: Addr, h: Heap<Ptr>, h': Heap<Ptr>, u: Tree<Ptr>) {
    && Iso(t, u) && Stored(h', u, parent) && Distinct(u) && Placed(v, Cells(u), Cells(t), lo, hi)
    && (forall y | y in h && y != parent && y !in Cells(u) :: y in h' && h'[y] == h[y])
    && Allotted(h', hi)
  }

  /** The first children of t have been written as us below the node at swap. */
  ghost predicate PartMerged(v: Overlay, t: Tree<Located>, swap: Addr, lo: Addr, hi: Addr, h: Heap<Ptr>, h': Heap<Ptr>, us: seq<Tree<Ptr>>) {
    PartTrees(v, t, swap, lo, hi, h', us) && PartFrame(swap, h, h', us) && Allotted(h', hi)
  }

  ghost predicate PartTrees(v: Overlay, t: Tree<Located>, swap: Addr, lo: Addr, hi: Addr, h': Heap<Ptr>, us: seq<Tree<Ptr>>) {
    && |us| <= |t.kids| && (forall j | 0 <= j < |us| :: Iso(t.kids[j], us[j]))
    && StoredKids(h', us, swap) && DistinctKids(us) && swap !in KidCells(us)
    && Placed(v, KidCells(us), KidCells(t.kids[..|us|]), lo, hi)
  }

  /** Outside of them only the child slots of the node at swap have changed. */
  ghost predicate PartFrame(swap: Addr, h: Heap<Ptr>, h': Heap<Ptr>, us: seq<Tree<Ptr>>) {
    && swap in h && swap in h' && |us| <= |h[swap].kids| && h'[swap] == h[swap].(kids := Addrs(us) + h[swap].kids[|us|..])
    && (forall y | y in h && y != swap && y !in KidCells(us) :: y in h' && h'[y] == h[y])
  }

  lemma PartStart(v: Overlay, t: Tree<Located>, swap: Addr, lo: Addr, h: Heap<Ptr>)
    requires swap in h && Allotted(h, lo)
    ensures PartMerged(v, t, swap, lo, lo, h, h, [])
  {
  }

  /** The addresses of two children written one after the other do not meet. */
  lemma Disjoint(v: Overlay, a: set<Addr>, b: set<Addr>, cells: set<Addr>, cells': set<Addr>, lo: Addr, hi: Addr, hi': Addr)
    requires Placed(v, a, cells, lo, hi) && Placed(v, b, cells', hi, hi') && cells !! cells'
    requires forall y | y in v.normal :: y < lo
    ensures a !! b && Placed(v, a + b, cells + cells', lo, hi')
  {
  }

  lemma PartKids(t: Tree<Located>, i: nat)
    requires Distinct(t) && i < |t.kids|
    ensures KidCells(t.kids[..i]) !! Cells(t.kids[i])
    ensures KidCells(t.kids[..i + 1]) == KidCells(t.kids[..i]) + Cells(t.kids[i])
    ensures Cells(t.kids[i]) <= KidCells(t.kids) && t.addr !in Cells(t.kids[i]) && Distinct(t.kids[i])
  {
    DistinctIs(t);
    KidIn(t.kids, i);
    DistinctKid(t.kids, i);
    hide Cells, KidCells, Distinct, DistinctKids;
    PartApart(t.kids, i);
    PartMore(t.kids, i);
  }

  lemma PartMore<D>(kids: seq<Tree<D>>, i: nat)
    requires i < |kids|
    ensures KidCells(kids[..i + 1]) == KidCells(kids[..i]) + Cells(kids[i])
  {
    KidCellsOne(kids[i]);
    hide Cells, KidCells;
    KidCellsJoin(kids[..i], [kids[i]]);
    assert kids[..i + 1] == kids[..i] + [kids[i]];
  }

  lemma PartApart<D>(kids: seq<Tree<D>>, i: nat)
    requires i < |kids| && DistinctKids(kids)
    ensures KidCells(kids[..i]) !! Cells(kids[i])
  {
    KidIn(kids[i..], 0);
    hide Cells, KidCells, Distinct;
    DistinctSplit(kids, i);
    assert kids[i..][0] == kids[i];
  }

  lemma KidIn<D>(kids: seq<Tree<D>>, i: nat)
    requires i < |kids|
    ensures Cells(kids[i]) <= KidCells(kids)
  {
  }

  lemma DistinctKid<D>(kids: seq<Tree<D>>, i: nat)
    requires i < |kids| && DistinctKids(kids)
    ensures Distinct(kids[i])
  {
  }

  lemma KidCellsOne<D>(u: Tree<D>)
    ensures KidCells([u]) == Cells(u) && (Distinct(u) ==> DistinctKids([u]))
  {
    assert [u][0] == u;
  }

  lemma PartJoin(us: seq<Tree<Ptr>>, u: Tree<Ptr>)
    requires DistinctKids(us) && Distinct(u) && KidCells(us) !! Cells(u)
    ensures DistinctKids(us + [u]) && KidCells(us + [u]) == KidCells(us) + Cells(u)
  {
    KidCellsOne(u);
    KidCellsJoin(us, [u]);
    DistinctJoin(us, [u]);
  }

  /** What has been written of the earlier children stays while the next one is written. */
  lemma PartStored(h': Heap<Ptr>, h2: Heap<Ptr>, swap: Addr, us: seq<Tree<Ptr>>, u: Tree<Ptr>)
    requires StoredKids(h', us, swap) && Stored(h2, u, swap) && KidCells(us) !! Cells(u) && swap !in KidCells(us)
    requires forall y | y in h' && y != swap && y !in Cells(u) :: y in h2 && h2[y] == h'[y]
    ensures StoredKids(h2, us + [u], swap)
  {
    StoredKidsFrame(h', h2, us, swap);
  }

  lemma PartStep(v: Overlay, t: Tree<Located>, swap: Addr, lo: Addr, hi: Addr, hi': Addr,
                 h: Heap<Ptr>, h': Heap<Ptr>, h2: Heap<Ptr>, us: seq<Tree<Ptr>>, u: Tree<Ptr>)
    requires PartMerged(v, t, swap, lo, hi, h, h', us) && |us| < |t.kids| && |h[swap].kids| == |t.kids|
    requires Merged(v, t.kids[|us|], swap, hi, hi', h', h2, u)
    requires swap in h2 && |us| < |h'[swap].kids| && h2[swap] == h'[swap].(kids := h'[swap].kids[|us| := u.addr])
    requires Distinct(t) && swap !in Cells(u) && forall y | y in v.normal :: y < lo
    ensures PartMerged(v, t, swap, lo, hi', h, h2, us + [u])
  {
    PartTreesStep(v, t, swap, lo, hi, hi', h', h2, us, u);
    PartFrameStep(swap, h, h', h2, us, u);
  }

  lemma PartTreesStep(v: Overlay, t: Tree<Located>, swap: Addr, lo: Addr, hi: Addr, hi': Addr,
                      h': Heap<Ptr>, h2: Heap<Ptr>, us: seq<Tree<Ptr>>, u: Tree<Ptr>)
    requires PartTrees(v, t, swap, lo, hi, h', us) && |us| < |t.kids|
    requires Merged(v, t.kids[|us|], swap, hi, hi', h', h2, u)
    requires Distinct(t) && swap !in Cells(u) && forall y | y in v.normal :: y < lo
    ensures PartTrees(v, t, swap, lo, hi', h2, us + [u])
    ensures KidCells(us + [u]) == KidCells(us) + Cells(u)
  {
    var i, us' := |us|, us + [u];
    hide Iso, Stored, StoredKids, Distinct, DistinctKids, KidCells, Cells, Placed, Allotted;
    PartKids(t, i);
    Disjoint(v, KidCells(us), Cells(u), KidCells(t.kids[..i]), Cells(t.kids[i]), lo, hi, hi');
    PartJoin(us, u);
    PartStored(h', h2, swap, us, u);
    assert forall j | 0 <= j < |us'| :: Iso(t.kids[j], us'[j]);
    assert |us'| == i + 1;
  }

  lemma PartFrameStep(swap: Addr, h: Heap<Ptr>, h': Heap<Ptr>, h2: Heap<Ptr>, us: seq<Tree<Ptr>>, u: Tree<Ptr>)
    requires PartFrame(swap, h, h', us) && |us| < |h[swap].kids| && KidCells(us + [u]) == KidCells(us) + Cells(u)
    requires swap in h2 && h2[swap] == h'[swap].(kids := h'[swap].kids[|us| := u.addr])
    requires forall y | y in h' && y != swap && y !in Cells(u) :: y in h2 && h2[y] == h'[y]
    ensures PartFrame(swap, h, h2, us + [u])
  {
    PartSlots(h[swap].kids, us, u);
    hide Cells, KidCells, Addrs;
  }

  lemma PartSlots(kids: seq<Addr>, us: seq<Tree<Ptr>>, u: Tree<Ptr>)
    requires |us| < |kids|
    ensures (Addrs(us) + kids[|us|..])[|us| := u.addr] == Addrs(us + [u]) + kids[|us| + 1..]
  {
  }

  /** All children written: so is the node itself. */
  lemma PartEnd(v: Overlay, t: Tree<Located>, swap: Addr, parent: Addr, lo0: Addr, lo: Addr, hi: Addr,
                h0: Heap<Ptr>, h: Heap<Ptr>, h': Heap<Ptr>, us: seq<Tree<Ptr>>)
    requires PartMerged(v, t, swap, lo, hi, h, h', us) && |us| == |t.kids| == |h[swap].kids|
    requires h[swap].parent == parent && h[swap].keys == Keys(t.entries) && h[swap].data == Data(EraseEntries(t.entries))
    requires lo0 <= lo && Placed(v, {swap}, Cells(t), lo0, lo)
    requires forall y | y in h0 && y != parent && y != swap :: y in h && h[y] == h0[y]
    requires swap != parent
    ensures Merged(v, t, parent, lo0, hi, h0, h', Tree(swap, EraseEntries(t.entries), us))
  {
    var u := Tree(swap, EraseEntries(t.entries), us);
    assert Keys(EraseEntries(t.entries)) == Keys(t.entries);
    assert t.kids[..|us|] == t.kids;
    assert Record(u, parent) == h'[swap];
  }

  /** The next child can be read: nothing it consists of has been touched. */
  lemma PartIntact(v: Overlay, t: Tree<Located>, swap: Addr, lo: Addr, hi: Addr, h: Heap<Ptr>, h': Heap<Ptr>, us: seq<Tree<Ptr>>)
    requires PartMerged(v, t, swap, lo, hi, h, h', us) && |us| < |t.kids| && Distinct(t)
    requires Intact(v, h, KidCells(t.kids)) && !(swap in KidCells(t.kids) && swap in v.normal)
    requires forall y | y in v.normal :: y < lo
    ensures Intact(v, h', Cells(t.kids[|us|]))
    ensures Distinct(t.kids[|us|]) && t.kids[|us|] in t.kids
  {
    PartKids(t, |us|);
  }

  // ---------------------------------------------------------------- the records being merged

  /** The bytes of the record that x leads to. */
  ghost function RawRecord(v: Overlay, x: Addr): Node<Ptr> {
    if x in v.table then
      if v.table[x].addr in v.safe then v.safe[v.table[x].addr] else Node(NULL, [], [], [])
    else if x in v.normal then v.normal[x] else Node(NULL, [], [], [])
  }

  lemma RawIs(v: Overlay, flat: Heap<Located>, x: Addr, t: Tree<Located>, parent: Addr)
    requires Mirrors(v, flat) && Leads(v, x, t.addr) && Stored(flat, t, parent)
    ensures RawRecord(v, x).keys == Keys(t.entries) && RawRecord(v, x).data == Data(EraseEntries(t.entries))
    ensures AllPoint(v, RawRecord(v, x).kids, Addrs(t.kids))
    ensures x !in v.table ==> x == t.addr && x in v.normal
    ensures x in v.table && v.table[x].addr != x ==> x == t.addr && x in v.normal
    ensures x in v.table ==> v.table[x].addr in v.safe
    ensures t.kids != [] ==> t.addr !in KidCells(t.kids) || !Distinct(t)
  {
    var raw := Item(v, x);
    SoundShows(v, flat, raw);
    assert flat[t.addr] == Lift(v.origin, raw) == Record(t, parent);
    assert Shows(v, raw, flat[t.addr]);
    var n := RawRecord(v, x);
    assert raw.kids == n.kids && raw.keys == n.keys && |raw.data| == |n.data|;
    assert Data(t.entries) == raw.data;
    forall i | 0 <= i < |n.data| ensures n.data[i] == Data(EraseEntries(t.entries))[i] {
      assert raw.data[i].ptr == n.data[i];
      assert Data(t.entries)[i] == t.entries[i].data;
    }
  }

  /** The session's base lies below the next address of the normal file. */
  ghost predicate Based(v: Overlay, next: Addr) {
    forall y | y in v.normal :: NULL < y < next && y % NODE_SIZE == FIRST_NODE
  }

  /** The node to hang t below is none of those that t will be written to. */
  ghost predicate Outside(v: Overlay, parent: Addr, cells: set<Addr>, h: Heap<Ptr>, next: Addr) {
    parent == NULL || (parent in h && parent < next && !(parent in cells && parent in v.normal))
  }

  /** All that a merge of the subtree t, read from x, relies on. */
  ghost predicate Mergeable(v: Overlay, flat: Heap<Located>, x: Addr, t: Tree<Located>, p: Addr, parent: Addr, h: Heap<Ptr>, next: Addr) {
    && Mirrors(v, flat) && Leads(v, x, t.addr) && Stored(flat, t, p) && Distinct(t)
    && Based(v, next) && Allotted(h, next) && Intact(v, h, Cells(t)) && Outside(v, parent, Cells(t), h, next)
  }

  /** The record that x leads to, written at the address swap. */
  ghost predicate Installed(v: Overlay, x: Addr, top: Addr, h: Heap<Ptr>, next: Addr, h': Heap<Ptr>, next': Addr, swap: Addr) {
    && swap in h' && h'[swap] == RawRecord(v, x) && swap != NULL
    && next <= next' && ((swap == top && top in v.normal) || next <= swap) && swap < next'
    && (forall y | y in h && y != swap :: y in h' && h'[y] == h[y]) && Allotted(h', next')
  }

  /** The parent's slot, and the parent field of the node at swap. */
  ghost function Linked(h: Heap<Ptr>, swap: Addr, parent: Addr, index: nat): Heap<Ptr>
    requires swap in h && (parent != NULL ==> parent in h && index < |h[parent].kids| && parent != swap)
  {
    var h' := if parent != NULL then h[parent := h[parent].(kids := h[parent].kids[index := swap])] else h;
    h'[swap := h'[swap].(parent := parent)]
  }

  lemma InstallCases(v: Overlay, flat: Heap<Located>, x: Addr, t: Tree<Located>, p: Addr, parent: Addr, h: Heap<Ptr>, next: Addr)
    requires Mergeable(v, flat, x, t, p, parent, h, next)
    ensures x !in v.table ==> Installed(v, x, t.addr, h, next, h, next, x)
    ensures x in v.table ==> v.table[x].addr in v.safe
    ensures x in v.table && v.table[x].addr == x ==>
              Installed(v, x, t.addr, h, next, h[next := v.safe[x]], next + NODE_SIZE, next)
    ensures x in v.table && v.table[x].addr != x ==>
              Installed(v, x, t.addr, h, next, h[x := v.safe[v.table[x].addr]], next, x)
  {
    RawIs(v, flat, x, t, p);
    assert t.addr in Cells(t);
    hide Stored, Distinct, Mirrors, Cells;
  }

  /** With the links set the children can be merged one by one. */
  lemma LinkedReady(v: Overlay, flat: Heap<Located>, x: Addr, t: Tree<Located>, p: Addr, parent: Addr, index: nat,
                    h: Heap<Ptr>, next: Addr, h': Heap<Ptr>, next': Addr, swap: Addr)
    requires Mergeable(v, flat, x, t, p, parent, h, next) && Installed(v, x, t.addr, h, next, h', next', swap)
    requires parent != NULL ==> index < |h[parent].kids|
    ensures parent != swap && (parent != NULL ==> parent in h' && h'[parent] == h[parent])
    ensures var h1 := Linked(h', swap, parent, index);
            && swap in h1 && h1[swap] == RawRecord(v, x).(parent := parent) && Allotted(h1, next') && Based(v, next')
            && PartMerged(v, t, swap, next', next', h1, h1, [])
            && Intact(v, h1, KidCells(t.kids)) && !(swap in KidCells(t.kids) && swap in v.normal)
            && (parent != NULL ==> parent in h1 && h1[parent] == h[parent].(kids := h[parent].kids[index := swap]))
            && (forall y | y in h && y != parent && y != swap :: y in h1 && h1[y] == h[y])
  {
    LinkedApart(v, flat, x, t, p, parent, h, next, h', next', swap);
    var h1 := Linked(h', swap, parent, index);
    assert Allotted(h1, next');
    PartStart(v, t, swap, next', h1);
    hide PartMerged, Stored, Distinct, Mirrors, Leads, Allotted, Placed;
  }

  lemma LinkedApart(v: Overlay, flat: Heap<Located>, x: Addr, t: Tree<Located>, p: Addr, parent: Addr,
                    h: Heap<Ptr>, next: Addr, h': Heap<Ptr>, next': Addr, swap: Addr)
    requires Mergeable(v, flat, x, t, p, parent, h, next) && Installed(v, x, t.addr, h, next, h', next', swap)
    ensures parent != swap && (parent != NULL ==> parent in h' && h'[parent] == h[parent])
    ensures !(swap in KidCells(t.kids) && swap in v.normal)
    ensures KidCells(t.kids) <= Cells(t) && Based(v, next')
  {
    DistinctIs(t);
    RawIs(v, flat, x, t, p);
  }

  /** The node read from x lies at swap, linked to its parent; its children are yet to be merged. */
  ghost predicate Merging(v: Overlay, flat: Heap<Located>, x: Addr, t: Tree<Located>, p: Addr, swap: Addr, parent: Addr, lo: Addr, h: Heap<Ptr>) {
    && Mirrors(v, flat) && Leads(v, x, t.addr) && Stored(flat, t, p) && Distinct(t)
    && swap in h && h[swap] == RawRecord(v, x).(parent := parent) && swap != NULL && swap < lo && (x !in v.table ==> swap == x)
    && Intact(v, h, KidCells(t.kids)) && !(swap in KidCells(t.kids) && swap in v.normal) && Based(v, lo)
  }

  /** The child slots, as the table shows them while earlier children have been merged. */
  ghost function SlotsOf(v: Overlay, x: Addr, h: Heap<Ptr>): seq<Addr> {
    if x in v.table then if v.table[x].addr in v.safe then v.safe[v.table[x].addr].kids else []
    else if x in h then h[x].kids else []
  }

  lemma SlotCount(v: Overlay, flat: Heap<Located>, x: Addr, t: Tree<Located>, p: Addr, swap: Addr, parent: Addr, lo: Addr, hi: Addr,
                  h: Heap<Ptr>, h': Heap<Ptr>, us: seq<Tree<Ptr>>)
    requires Merging(v, flat, x, t, p, swap, parent, lo, h) && PartMerged(v, t, swap, lo, hi, h, h', us)
    ensures |SlotsOf(v, x, h')| == |t.kids|
  {
    RawIs(v, flat, x, t, p);
  }

  /** The next child is ready to be merged. */
  lemma NextChild(v: Overlay, flat: Heap<Located>, x: Addr, t: Tree<Located>, p: Addr, swap: Addr, parent: Addr, lo: Addr, hi: Addr,
                  h: Heap<Ptr>, h': Heap<Ptr>, us: seq<Tree<Ptr>>)
    requires Merging(v, flat, x, t, p, swap, parent, lo, h) && |us| < |t.kids| && lo <= hi
    requires PartMerged(v, t, swap, lo, hi, h, h', us)
    ensures |SlotsOf(v, x, h')| == |t.kids| == |h[swap].kids| && swap in h' && |us| < |h'[swap].kids|
    ensures Mergeable(v, flat, SlotsOf(v, x, h')[|us|], t.kids[|us|], t.addr, swap, h', hi)
  {
    var i := |us|;
    RawIs(v, flat, x, t, p);
    NextSlot(v, x, t, swap, parent, lo, hi, h, h', us);
    PartIntact(v, t, swap, lo, hi, h, h', us);
    PartKids(t, i);
    assert Addrs(t.kids)[i] == t.kids[i].addr;
    StoredKid(flat, t, p, i);
    assert Leads(v, RawRecord(v, x).kids[i], t.kids[i].addr);
    assert Outside(v, swap, Cells(t.kids[i]), h', hi);
    assert Based(v, hi);
    hide Mirrors, Distinct, Cells, KidCells, Leads, RawRecord, SlotsOf, Outside, Based, Intact, Stored, PartTrees, Allotted;
  }

  lemma StoredKid<D>(h: Heap<D>, t: Tree<D>, parent: Addr, i: nat)
    requires Stored(h, t, parent) && i < |t.kids|
    ensures Stored(h, t.kids[i], t.addr)
  {
    assert StoredKids(h, t.kids, t.addr);
  }

  lemma NextSlot(v: Overlay, x: Addr, t: Tree<Located>, swap: Addr, parent: Addr, lo: Addr, hi: Addr, h: Heap<Ptr>, h': Heap<Ptr>, us: seq<Tree<Ptr>>)
    requires PartMerged(v, t, swap, lo, hi, h, h', us) && swap in h && h[swap] == RawRecord(v, x).(parent := parent)
    requires (x !in v.table ==> swap == x) && (x in v.table ==> v.table[x].addr in v.safe) && |us| < |RawRecord(v, x).kids|
    ensures |SlotsOf(v, x, h')| == |RawRecord(v, x).kids| == |h[swap].kids| == |h'[swap].kids|
    ensures SlotsOf(v, x, h')[|us|] == RawRecord(v, x).kids[|us|]
  {
    assert |Addrs(us)| == |us|;
    hide Addrs;
  }

  lemma MergingEnds(v: Overlay, flat: Heap<Located>, x: Addr, t: Tree<Located>, p: Addr, swap: Addr, parent: Addr, lo: Addr, h: Heap<Ptr>)
    requires Merging(v, flat, x, t, p, swap, parent, lo, h)
    ensures h[swap].parent == parent && h[swap].keys == Keys(t.entries) && h[swap].data == Data(EraseEntries(t.entries))
    ensures |h[swap].kids| == |t.kids| && (forall y | y in v.normal :: y < lo) && Distinct(t)
  {
    RawIs(v, flat, x, t, p);
  }

  lemma MergingStarts(v: Overlay, flat: Heap<Located>, x: Addr, t: Tree<Located>, p: Addr, parent: Addr, index: nat,
                      h: Heap<Ptr>, next: Addr, h': Heap<Ptr>, next': Addr, swap: Addr)
    requires Mergeable(v, flat, x, t, p, parent, h, next) && Installed(v, x, t.addr, h, next, h', next', swap)
    requires (x !in v.table ==> swap == x) && (parent != NULL ==> index < |h[parent].kids|)
    ensures parent != swap && swap in h' && (parent != NULL ==> parent in h' && h'[parent] == h[parent])
    ensures var h1 := Linked(h', swap, parent, index);
            && Merging(v, flat, x, t, p, swap, parent, next', h1) && PartMerged(v, t, swap, next', next', h1, h1, [])
            && (parent != NULL ==> parent in h1 && h1[parent] == h[parent].(kids := h[parent].kids[index := swap]))
            && (forall y | y in h && y != parent && y != swap :: y in h1 && h1[y] == h[y])
            && Placed(v, {swap}, Cells(t), next, next') && next <= next'
  {
    LinkedReady(v, flat, x, t, p, parent, index, h, next, h', next', swap);
    assert t.addr in Cells(t);
    hide Mirrors, Leads, Stored, Distinct, PartMerged, Intact, Based, Linked;
  }

  /** The parent is not written again after its slot has been set. */
  lemma ParentStays(v: Overlay, t: Tree<Located>, swap: Addr, parent: Addr, lo0: Addr, lo: Addr, hi: Addr, h0: Heap<Ptr>, h: Heap<Ptr>, h': Heap<Ptr>, us: seq<Tree<Ptr>>)
    requires PartMerged(v, t, swap, lo, hi, h, h', us) && Outside(v, parent, Cells(t), h0, lo0) && parent != NULL && parent != swap
    requires parent in h && lo0 <= lo && KidCells(t.kids[..|us|]) <= Cells(t)
    ensures parent in h' && h'[parent] == h[parent]
  {
  }

  lemma MergedApart(v: Overlay, t: Tree<Located>, swap: Addr, lo: Addr, hi: Addr, h: Heap<Ptr>, h': Heap<Ptr>, u: Tree<Ptr>)
    requires Merged(v, t, swap, lo, hi, h, h', u) && Outside(v, swap, Cells(t), h, lo) && swap != NULL
    ensures swap !in Cells(u) && lo <= hi
  {
  }

  lemma ShowsMergeable(v: Overlay, flat: Heap<Located>, x: Addr, t: Tree<Located>, p: Addr, parent: Addr, h: Heap<Ptr>, next: Addr)
    requires Mergeable(v, flat, x, t, p, parent, h, next)
    ensures Outside(v, parent, Cells(t), h, next)
  {
  }

  lemma MergingNode(v: Overlay, flat: Heap<Located>, x: Addr, t: Tree<Located>, p: Addr, swap: Addr, parent: Addr, lo: Addr, h: Heap<Ptr>)
    requires Merging(v, flat, x, t, p, swap, parent, lo, h)
    ensures swap != NULL
  {
  }

  lemma KidsWithin(t: Tree<Located>, i: nat)
    requires i <= |t.kids|
    ensures KidCells(t.kids[..i]) <= Cells(t)
  {
    KidCellsJoin(t.kids[..i], t.kids[i..]);
    assert t.kids[..i] + t.kids[i..] == t.kids;
  }

  // ---------------------------------------------------------------- the committed tree

  lemma {:induction false} EraseInterleave(runs: seq<seq<Entry<Located>>>, seps: seq<Entry<Located>>, erased: seq<seq<Entry<Ptr>>>)
    requires |erased| == |runs| && forall i | 0 <= i < |runs| :: erased[i] == EraseEntries(runs[i])
    ensures Interleave(erased, EraseEntries(seps)) == EraseEntries(Interleave(runs, seps))
    decreases |seps|
  {
    if runs != [] && seps != [] {
      EraseInterleave(runs[1..], seps[1..], erased[1..]);
      assert EraseEntries(seps)[1..] == EraseEntries(seps[1..]);
      EraseJoin(runs[0], seps[0], Interleave(runs[1..], seps[1..]));
    }
  }

  lemma EraseJoin(a: seq<Entry<Located>>, e: Entry<Located>, b: seq<Entry<Located>>)
    ensures EraseEntries(a + [e] + b) == EraseEntries(a) + [Erased(e)] + EraseEntries(b)
  {
  }

  lemma {:induction false} IsoList(t: Tree<Located>, u: Tree<Ptr>)
    requires Iso(t, u)
    ensures List(u) == EraseEntries(List(t))
  {
    if t.kids != [] {
      forall i | 0 <= i < |t.kids| ensures Lists(u.kids)[i] == EraseEntries(Lists(t.kids)[i]) { IsoList(t.kids[i], u.kids[i]); }
      EraseInterleave(Lists(t.kids), t.entries, Lists(u.kids));
    }
  }

  lemma {:induction false} IsoBalanced(t: Tree<Located>, u: Tree<Ptr>, height: nat)
    requires Iso(t, u) && Balanced(t, height)
    ensures Balanced(u, height)
    decreases height
  {
    if height > 0 {
      assert Siblings(t.kids, height - 1);
      forall i | 0 <= i < |u.kids| ensures Fit(u.kids[i], height - 1) {
        assert Fit(t.kids[i], height - 1);
        IsoBalanced(t.kids[i], u.kids[i], height - 1);
      }
    }
  }

  /** Isomorphic trees are well formed alike and list the same entries. */
  lemma IsoWellFormed(t: Tree<Located>, u: Tree<Ptr>, height: nat)
    requires Iso(t, u) && WellFormed(t, height)
    ensures WellFormed(u, height) && List(u) == EraseEntries(List(t))
  {
    IsoList(t, u);
    IsoBalanced(t, u, height);
  }

  /** A whole session is ready to be merged. */
  lemma CommitStarts(v: Overlay, flat: Heap<Located>, root: Addr, t: Tree<Located>, h: Heap<Ptr>, next: Addr, base: set<Addr>)
    requires Mirrors(v, flat) && Leads(v, root, t.addr) && Stored(flat, t, NULL) && Distinct(t)
    requires v.normal == Part(h, base) && Allotted(h, next)
    ensures Mergeable(v, flat, root, t, NULL, NULL, h, next)
  {
  }

  /** The merged tree lies wholly in the normal file. */
  lemma CommitEnds(v: Overlay, t: Tree<Located>, lo: Addr, hi: Addr, h: Heap<Ptr>, h': Heap<Ptr>, u: Tree<Ptr>)
    requires Merged(v, t, NULL, lo, hi, h, h', u) && Based(v, lo) && lo > NULL
    ensures Iso(t, u) && Stored(h', u, NULL) && Distinct(u) && InUse(Cells(u), hi) && Allotted(h', hi)
  {
  }

  lemma IsBased(v: Overlay, flat: Heap<Located>, x: Addr, t: Tree<Located>, p: Addr, parent: Addr, h: Heap<Ptr>, next: Addr)
    requires Mergeable(v, flat, x, t, p, parent, h, next)
    ensures Based(v, next) && next > NULL
  {
  }
}
