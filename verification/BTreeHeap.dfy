/**
  When a node store spells out a tree, and what the three writes of an addition (widen a node, halve
  an over-full one, put a root above two halves) do to the tree that is spelled out.
*/
module BTreeHeap {
  import opened Seqs
  import opened BTreeSpec
  import opened BTreeInsert

  function Keys<D>(s: seq<Entry<D>>): seq<Key> { seq(|s|, i requires 0 <= i < |s| => s[i].key) }
  function Data<D>(s: seq<Entry<D>>): seq<D> { seq(|s|, i requires 0 <= i < |s| => s[i].data) }
  function Addrs<D>(s: seq<Tree<D>>): seq<Addr> { seq(|s|, i requires 0 <= i < |s| => s[i].addr) }

  ghost function Cells<D>(t: Tree<D>): set<Addr> { {t.addr} + KidCells(t.kids) }

  ghost function KidCells<D>(kids: seq<Tree<D>>): set<Addr> {
    set i, x | 0 <= i < |kids| && x in Cells(kids[i]) :: x
  }

  /** No address occurs twice. */
  ghost predicate Distinct<D>(t: Tree<D>) {
    && t.addr !in KidCells(t.kids)
    && DistinctKids(t.kids)
  }

  ghost predicate DistinctKids<D>(kids: seq<Tree<D>>) {
    && (forall i | 0 <= i < |kids| :: Distinct(kids[i]))
    && (forall i, j | 0 <= i < j < |kids| :: Cells(kids[i]) !! Cells(kids[j]))
  }

  ghost function Record<D>(t: Tree<D>, parent: Addr): Node<D> {
    Node(parent, Keys(t.entries), Data(t.entries), Addrs(t.kids))
  }

  /** The store holds the tree: every node's record, with the right parent address, at its address. */
  ghost predicate Stored<D>(h: Heap<D>, t: Tree<D>, parent: Addr) {
    && t.addr in h && h[t.addr] == Record(t, parent)
    && StoredKids(h, t.kids, t.addr)
  }

  ghost predicate StoredKids<D>(h: Heap<D>, kids: seq<Tree<D>>, parent: Addr) {
    forall i | 0 <= i < |kids| :: Stored(h, kids[i], parent)
  }

  ghost predicate Agree<D>(h: Heap<D>, h': Heap<D>, s: set<Addr>) {
    forall x | x in s && x in h :: x in h' && h'[x] == h[x]
  }

  lemma {:induction false} StoredFrame<D>(h: Heap<D>, h': Heap<D>, t: Tree<D>, parent: Addr)
    requires Stored(h, t, parent) && Agree(h, h', Cells(t))
    ensures Stored(h', t, parent)
  {
    forall i | 0 <= i < |t.kids| ensures Stored(h', t.kids[i], t.addr) {
      assert Cells(t.kids[i]) <= Cells(t);
      StoredFrame(h, h', t.kids[i], t.addr);
    }
  }

  lemma StoredKidsFrame<D>(h: Heap<D>, h': Heap<D>, kids: seq<Tree<D>>, parent: Addr)
    requires StoredKids(h, kids, parent) && Agree(h, h', KidCells(kids))
    ensures StoredKids(h', kids, parent)
  {
    forall i | 0 <= i < |kids| ensures Stored(h', kids[i], parent) {
      assert Cells(kids[i]) <= KidCells(kids);
      StoredFrame(h, h', kids[i], parent);
    }
  }

  // ---------------------------------------------------------------- a node inside a tree

  ghost function Replace<D>(t: Tree<D>, path: Path, u: Tree<D>): Tree<D>
    requires ValidPath(t, path)
  {
    if path == [] then u
    else t.(kids := t.kids[path[0] := Replace(t.kids[path[0]], path[1..], u)])
  }

  ghost function ParentAddr<D>(t: Tree<D>, path: Path, parent: Addr): Addr
    requires ValidPath(t, path)
  {
    if path == [] then parent else ParentAddr(t.kids[path[0]], path[1..], t.addr)
  }

  lemma {:induction false} StoredGet<D>(h: Heap<D>, t: Tree<D>, parent: Addr, path: Path)
    requires Stored(h, t, parent) && Distinct(t) && ValidPath(t, path)
    ensures Stored(h, Get(t, path), ParentAddr(t, path, parent))
    ensures Distinct(Get(t, path)) && Cells(Get(t, path)) <= Cells(t)
    ensures path != [] ==> t.addr !in Cells(Get(t, path)) && ParentAddr(t, path, parent) in Cells(t)
    decreases |path|
  {
    if path != [] {
      assert Cells(t.kids[path[0]]) <= KidCells(t.kids);
      StoredGet(h, t.kids[path[0]], t.addr, path[1..]);
    }
  }

  lemma KidCellsUpdate<D>(kids: seq<Tree<D>>, i: nat, u: Tree<D>)
    requires DistinctKids(kids) && i < |kids|
    ensures KidCells(kids[i := u]) == KidCells(kids) - Cells(kids[i]) + Cells(u)
  {
    var ks := kids[i := u];
    assert ks[i] == u;
    assert forall j | 0 <= j < |kids| && j != i :: ks[j] == kids[j];
    assert forall j | 0 <= j < |kids| && j != i :: Cells(kids[j]) !! Cells(kids[i]);
  }

  lemma {:induction false} CellsReplace<D>(t: Tree<D>, path: Path, u: Tree<D>)
    requires Distinct(t) && ValidPath(t, path) && u.addr == Get(t, path).addr && Distinct(u)
    requires Cells(u) * Cells(t) <= Cells(Get(t, path)) <= Cells(t)
    ensures Replace(t, path, u).addr == t.addr && Distinct(Replace(t, path, u))
    ensures Cells(Replace(t, path, u)) == Cells(t) - Cells(Get(t, path)) + Cells(u)
    ensures ValidPath(Replace(t, path, u), path) && Get(Replace(t, path, u), path) == u
    decreases |path|
  {
    if path != [] {
      var i, c := path[0], t.kids[path[0]];
      CellsGet(c, path[1..]);
      assert Cells(c) <= KidCells(t.kids);
      CellsReplace(c, path[1..], u);
      ReplaceKid(t, i, Replace(c, path[1..], u));
    }
  }

  lemma ReplaceKid<D>(t: Tree<D>, i: nat, c: Tree<D>)
    requires Distinct(t) && i < |t.kids| && Distinct(c) && Cells(c) * Cells(t) <= Cells(t.kids[i])
    ensures Distinct(t.(kids := t.kids[i := c]))
    ensures Cells(t.(kids := t.kids[i := c])) == Cells(t) - Cells(t.kids[i]) + Cells(c)
  {
    assert Cells(t.kids[i]) <= KidCells(t.kids);
    KidCellsUpdate(t.kids, i, c);
    DistinctUpdate(t.kids, i, c);
  }

  lemma DistinctUpdate<D>(kids: seq<Tree<D>>, i: nat, u: Tree<D>)
    requires DistinctKids(kids) && i < |kids| && Distinct(u)
    requires Cells(u) * KidCells(kids) <= Cells(kids[i])
    ensures DistinctKids(kids[i := u])
  {
    var ks := kids[i := u];
    assert forall j | 0 <= j < |kids| && j != i :: Cells(kids[j]) <= KidCells(kids) && Cells(kids[j]) !! Cells(kids[i]);
    forall j, k | 0 <= j < k < |ks| ensures Cells(ks[j]) !! Cells(ks[k]) {
      if j != i && k != i { assert ks[j] == kids[j] && ks[k] == kids[k]; }
    }
  }

  lemma {:induction false} CellsGet<D>(t: Tree<D>, path: Path)
    requires Distinct(t) && ValidPath(t, path)
    ensures Cells(Get(t, path)) <= Cells(t) && Distinct(Get(t, path))
    ensures path != [] ==> t.addr !in Cells(Get(t, path))
    decreases |path|
  {
    if path != [] {
      assert Cells(t.kids[path[0]]) <= KidCells(t.kids);
      CellsGet(t.kids[path[0]], path[1..]);
    }
  }

  lemma {:induction false} StoredReplace<D>(h: Heap<D>, h': Heap<D>, t: Tree<D>, parent: Addr, path: Path, u: Tree<D>)
    requires Stored(h, t, parent) && Distinct(t) && ValidPath(t, path) && u.addr == Get(t, path).addr
    requires Stored(h', u, ParentAddr(t, path, parent))
    requires Agree(h, h', Cells(t) - Cells(Get(t, path)))
    ensures Stored(h', Replace(t, path, u), parent) && Replace(t, path, u).addr == t.addr
    decreases |path|
  {
    if path != [] {
      var i, c := path[0], t.kids[path[0]];
      assert Cells(c) <= KidCells(t.kids);
      CellsGet(c, path[1..]);
      StoredReplace(h, h', c, t.addr, path[1..], u);
      var ks := t.kids[i := Replace(c, path[1..], u)];
      forall j | 0 <= j < |ks| && j != i ensures Stored(h', ks[j], t.addr) { OtherKidStored(h, h', t, parent, i, j, Cells(Get(c, path[1..]))); }
      hide Cells, Agree, Distinct, Get, ParentAddr, Replace;
      assert Addrs(ks) == Addrs(t.kids);
    }
  }

  /** What changed lies in kid i: kid j is still stored. */
  lemma OtherKidStored<D>(h: Heap<D>, h': Heap<D>, t: Tree<D>, parent: Addr, i: nat, j: nat, changed: set<Addr>)
    requires Stored(h, t, parent) && Distinct(t) && i < |t.kids| && j < |t.kids| && i != j
    requires Agree(h, h', Cells(t) - changed) && changed <= Cells(t.kids[i])
    ensures Stored(h', t.kids[j], t.addr)
  {
    assert Cells(t.kids[j]) <= KidCells(t.kids) && Cells(t.kids[j]) !! Cells(t.kids[i]);
    StoredFrame(h, h', t.kids[j], t.addr);
  }

  lemma {:induction false} BalancedReplace<D>(t: Tree<D>, height: nat, path: Path, u: Tree<D>)
    requires Balanced(t, height) && ValidPath(t, path)
    requires |path| <= height ==> Fit(u, height - |path|)
    ensures |path| <= height && Balanced(Get(t, path), height - |path|)
    ensures Balanced(Replace(t, path, u), height)
    ensures path != [] ==> Fit(Get(t, path), height - |path|) && Replace(t, path, u).entries == t.entries
    decreases |path|
  {
    if path != [] {
      assert Siblings(t.kids, height - 1);
      assert Fit(t.kids[path[0]], height - 1);
      BalancedReplace(t.kids[path[0]], height - 1, path[1..], u);
      var c := Replace(t.kids[path[0]], path[1..], u);
      assert Fit(c, height - 1);
      assert Siblings(t.kids[path[0] := c], height - 1);
    }
  }

  /** The node at the end of the path settles as one: the rest of the tree stays. */
  lemma {:induction false} InsertPathOne<D>(t: Tree<D>, path: Path, e: Entry<D>, right: Option<Tree<D>>, next: Addr)
    requires ValidPath(t, path) && Settle(Widen(Get(t, path), e, right), next).One?
    ensures InsertPath(t, path, e, right, next) == One(Replace(t, path, Widen(Get(t, path), e, right)), next)
    decreases |path|
  {
    if path != [] { InsertPathOne(t.kids[path[0]], path[1..], e, right, next); }
  }

  ghost function Up(path: Path): Path
    requires path != []
  {
    path[..|path| - 1]
  }

  lemma {:induction false} ParentOfPath<D>(t: Tree<D>, path: Path, parent: Addr)
    requires path != [] && ValidPath(t, path)
    ensures ValidPath(t, Up(path)) && Get(t, Up(path)).kids != []
    ensures ParentAddr(t, path, parent) == Get(t, Up(path)).addr
    decreases |path|
  {
    if |path| > 1 {
      ParentOfPath(t.kids[path[0]], path[1..], t.addr);
      assert Up(path)[1..] == Up(path[1..]);
    }
  }

  lemma {:induction false} ReplaceUp<D>(t: Tree<D>, path: Path, u: Tree<D>)
    requires path != [] && ValidPath(t, path) && ValidPath(t, Up(path))
    ensures ValidPath(Replace(t, path, u), Up(path))
    ensures Get(Replace(t, path, u), Up(path)).addr == Get(t, Up(path)).addr
    ensures Get(Replace(t, path, u), Up(path)).kids != []
    decreases |path|
  {
    if |path| > 1 {
      assert Up(path)[1..] == Up(path[1..]);
      ReplaceUp(t.kids[path[0]], path[1..], u);
    }
  }

  /** The node at the end of the path splits: what remains is the same addition one level up. */
  lemma {:induction false} InsertPathClimb<D>(t: Tree<D>, path: Path, e: Entry<D>, right: Option<Tree<D>>, next: Addr, g: Grown<D>)
    requires path != [] && ValidPath(t, path)
    requires g == Settle(Widen(Get(t, path), e, right), next) && g.Two?
    ensures InsertPath(t, path, e, right, next)
         == InsertPath(Replace(t, path, g.left), Up(path), g.mid, Some(g.right), g.next)
    decreases |path|
  {
    var i, c := path[0], t.kids[path[0]];
    if |path| > 1 {
      InsertPathClimb(c, path[1..], e, right, next, g);
      assert Up(path)[1..] == Up(path[1..]);
      AbsorbAgain(t, i, Replace(c, path[1..], g.left), InsertPath(c, path[1..], e, right, next));
    }
  }

  lemma AbsorbAgain<D>(t: Tree<D>, i: nat, c: Tree<D>, g: Grown<D>)
    requires i < |t.kids|
    ensures Absorb(t.(kids := t.kids[i := c]), i, g) == Absorb(t, i, g)
  {
    var x := if g.One? then g.tree else g.left;
    assert t.kids[i := c][i := x] == t.kids[i := x];
  }

  // ---------------------------------------------------------------- the writes of an addition

  function KeyRank(keys: seq<Key>, k: Key): (r: nat)
    ensures r <= |keys|
  {
    if keys == [] || k < keys[0] then 0 else 1 + KeyRank(keys[1..], k)
  }

  /** A record with one key and pointer more and, when right is an address, one child more. */
  function WidenNode<D>(n: Node<D>, k: Key, d: D, right: Addr): Node<D> {
    var i := KeyRank(n.keys, k);
    Node(n.parent, InsertAt(n.keys, i, k), InsertAt(n.data, i, d),
         if right == NULL then n.kids else InsertAt(n.kids, i + 1, right))
  }

  ghost function Rehome<D>(h: Heap<D>, kids: seq<Addr>, parent: Addr): (r: Heap<D>)
    ensures r.Keys == h.Keys
  {
    map x | x in h :: if x in kids then h[x].(parent := parent) else h[x]
  }

  lemma RehomeNone<D>(h: Heap<D>, parent: Addr)
    ensures Rehome(h, [], parent) == h
  {
  }

  lemma RehomeOne<D>(h: Heap<D>, kids: seq<Addr>, c: Addr, parent: Addr)
    requires c in h
    ensures Rehome(h, kids + [c], parent) == Rehome(h, kids, parent)[c := Rehome(h, kids, parent)[c].(parent := parent)]
  {
  }

  lemma RehomeUpdate<D>(h: Heap<D>, kids: seq<Addr>, parent: Addr, a: Addr, n: Node<D>)
    requires a !in kids
    ensures Rehome(h[a := n], kids, parent) == Rehome(h, kids, parent)[a := n]
  {
  }

  /** The record w, over-full, written at a in two halves: the second one at the address right. */
  ghost function Halve<D>(h: Heap<D>, a: Addr, w: Node<D>, right: Addr): Heap<D>
    requires |w.keys| == |w.data| == MAX_KEYS + 1 && (w.kids == [] || |w.kids| == MAX_KEYS + 2)
  {
    var l := Node(w.parent, w.keys[..1], w.data[..1], if w.kids == [] then [] else w.kids[..2]);
    var r := Node(w.parent, w.keys[2..], w.data[2..], if w.kids == [] then [] else w.kids[2..]);
    Rehome(h[a := l][right := r], r.kids, right)
  }

  /** A new root above the two halves. */
  ghost function Crown<D>(h: Heap<D>, l: Addr, k: Key, d: D, r: Addr, root: Addr): Heap<D>
    requires l in h && r in h
  {
    h[root := Node(NULL, [k], [d], [l, r])][l := h[l].(parent := root)][r := h[r].(parent := root)]
  }

  lemma {:induction false} KeyRankIs<D>(s: seq<Entry<D>>, k: Key)
    ensures KeyRank(Keys(s), k) == Rank(s, k)
  {
    if s != [] {
      KeyRankIs(s[1..], k);
      assert Keys(s)[1..] == Keys(s[1..]);
    }
  }

  lemma RecordWiden<D>(t: Tree<D>, parent: Addr, e: Entry<D>, right: Option<Tree<D>>)
    requires right.Some? ==> right.value.addr != NULL
    ensures Record(Widen(t, e, right), parent)
         == WidenNode(Record(t, parent), e.key, e.data, if right.Some? then right.value.addr else NULL)
  {
    KeyRankIs(t.entries, e.key);
    var i := Rank(t.entries, e.key);
    assert Keys(InsertAt(t.entries, i, e)) == InsertAt(Keys(t.entries), i, e.key);
    assert Data(InsertAt(t.entries, i, e)) == InsertAt(Data(t.entries), i, e.data);
    if right.Some? { assert Addrs(InsertAt(t.kids, i + 1, right.value)) == InsertAt(Addrs(t.kids), i + 1, right.value.addr); }
    hide Keys, Data, Addrs, InsertAt, Rank, KeyRank;
  }

  /** The kids of a widened node are the old ones and the new one. */
  lemma WidenKids<D>(h: Heap<D>, t: Tree<D>, e: Entry<D>, r: Option<Tree<D>>)
    requires StoredKids(h, t.kids, t.addr) && Distinct(t)
    requires r.Some? ==> Stored(h, r.value, t.addr) && Distinct(r.value) && Cells(r.value) !! Cells(t)
    ensures StoredKids(h, Widen(t, e, r).kids, t.addr)
    ensures Distinct(Widen(t, e, r))
    ensures Cells(Widen(t, e, r)) == Cells(t) + (if r.Some? then Cells(r.value) else {})
  {
    if r.Some? {
      InsertKids(h, t.kids, Rank(t.entries, e.key) + 1, r.value, t.addr);
    }
  }

  lemma KidCellsJoin<D>(a: seq<Tree<D>>, b: seq<Tree<D>>)
    ensures KidCells(a + b) == KidCells(a) + KidCells(b)
  {
    forall x | x in KidCells(a) + KidCells(b) ensures x in KidCells(a + b) {
      if x in KidCells(a) {
        var i :| 0 <= i < |a| && x in Cells(a[i]);
        assert (a + b)[i] == a[i];
      } else {
        var i :| 0 <= i < |b| && x in Cells(b[i]);
        assert (a + b)[|a| + i] == b[i];
      }
    }
  }

  lemma DistinctJoin<D>(a: seq<Tree<D>>, b: seq<Tree<D>>)
    requires DistinctKids(a) && DistinctKids(b) && KidCells(a) !! KidCells(b)
    ensures DistinctKids(a + b)
  {
    var ks := a + b;
    forall i, j | 0 <= i < j < |ks| ensures Cells(ks[i]) !! Cells(ks[j]) {
      if i < |a| <= j {
        assert Cells(a[i]) <= KidCells(a) && Cells(b[j - |a|]) <= KidCells(b);
      } else if j < |a| {
        assert ks[i] == a[i] && ks[j] == a[j];
      } else {
        assert ks[i] == b[i - |a|] && ks[j] == b[j - |a|];
      }
    }
  }

  lemma DistinctSplit<D>(kids: seq<Tree<D>>, n: nat)
    requires DistinctKids(kids) && n <= |kids|
    ensures DistinctKids(kids[..n]) && DistinctKids(kids[n..]) && KidCells(kids[..n]) !! KidCells(kids[n..])
    ensures KidCells(kids) == KidCells(kids[..n]) + KidCells(kids[n..])
  {
    KidCellsJoin(kids[..n], kids[n..]);
    assert kids[..n] + kids[n..] == kids;
    forall i, j | 0 <= i < n && 0 <= j < |kids| - n ensures Cells(kids[..n][i]) !! Cells(kids[n..][j]) {
      assert kids[..n][i] == kids[i] && kids[n..][j] == kids[n + j];
    }
    Apart(kids[..n], kids[n..]);
    assert forall j | 0 <= j < |kids| - n :: kids[n..][j] == kids[n + j];
  }

  lemma Apart<D>(a: seq<Tree<D>>, b: seq<Tree<D>>)
    requires forall i, j | 0 <= i < |a| && 0 <= j < |b| :: Cells(a[i]) !! Cells(b[j])
    ensures KidCells(a) !! KidCells(b)
  {
  }

  lemma InsertKids<D>(h: Heap<D>, kids: seq<Tree<D>>, i: nat, c: Tree<D>, parent: Addr)
    requires StoredKids(h, kids, parent) && DistinctKids(kids)
    requires Stored(h, c, parent) && Distinct(c) && Cells(c) !! KidCells(kids)
    ensures StoredKids(h, InsertAt(kids, i, c), parent) && DistinctKids(InsertAt(kids, i, c))
    ensures KidCells(InsertAt(kids, i, c)) == KidCells(kids) + Cells(c)
  {
    hide Distinct, Stored;
    var n := if i <= |kids| then i else |kids|;
    InsertAtIs(kids, i, c);
    DistinctSplit(kids, n);
    InsertMiddle(kids[..n], c, kids[n..]);
    StoredMiddle(h, kids, n, c, parent);
  }

  lemma InsertAtIs<T>(s: seq<T>, i: nat, x: T)
    ensures var n := if i <= |s| then i else |s|; InsertAt(s, i, x) == s[..n] + [x] + s[n..]
  {
  }

  lemma StoredMiddle<D>(h: Heap<D>, kids: seq<Tree<D>>, n: nat, c: Tree<D>, parent: Addr)
    requires n <= |kids| && StoredKids(h, kids, parent) && Stored(h, c, parent)
    ensures StoredKids(h, kids[..n] + [c] + kids[n..], parent)
  {
    hide Stored;
  }

  lemma InsertMiddle<D>(a: seq<Tree<D>>, c: Tree<D>, b: seq<Tree<D>>)
    requires DistinctKids(a) && DistinctKids(b) && KidCells(a) !! KidCells(b)
    requires Distinct(c) && Cells(c) !! KidCells(a) && Cells(c) !! KidCells(b)
    ensures DistinctKids(a + [c] + b)
    ensures KidCells(a + [c] + b) == KidCells(a) + KidCells(b) + Cells(c)
  {
    assert KidCells([c]) == Cells(c) by { assert [c][0] == c; }
    KidCellsJoin(a, [c]);
    DistinctJoin(a, [c]);
    KidCellsJoin(a + [c], b);
    DistinctJoin(a + [c], b);
  }

  lemma StoredWiden<D>(h: Heap<D>, t: Tree<D>, parent: Addr, e: Entry<D>, r: Option<Tree<D>>)
    requires Stored(h, t, parent) && Distinct(t)
    requires r.Some? ==> r.value.addr != NULL && Stored(h, r.value, t.addr) && Distinct(r.value) && Cells(r.value) !! Cells(t)
    ensures var right := if r.Some? then r.value.addr else NULL;
            Stored(h[t.addr := WidenNode(h[t.addr], e.key, e.data, right)], Widen(t, e, r), parent)
  {
    RecordWiden(t, parent, e, r);
    WidenKids(h, t, e, r);
    var w := Widen(t, e, r);
    var h' := h[t.addr := Record(w, parent)];
    assert t.addr !in KidCells(w.kids);
    StoredKidsFrame(h, h', w.kids, t.addr);
  }

  lemma StoredRehome<D>(h: Heap<D>, kids: seq<Tree<D>>, parent: Addr, parent': Addr)
    requires StoredKids(h, kids, parent) && DistinctKids(kids)
    ensures StoredKids(Rehome(h, Addrs(kids), parent'), kids, parent')
  {
    var h' := Rehome(h, Addrs(kids), parent');
    forall i | 0 <= i < |kids| ensures Stored(h', kids[i], parent') {
      var c := kids[i];
      assert Addrs(kids)[i] == c.addr;
      forall x | x in KidCells(c.kids) ensures x !in Addrs(kids) {
        assert x in Cells(c);
        forall j | 0 <= j < |kids| ensures kids[j].addr != x {
          assert kids[j].addr in Cells(kids[j]);
        }
      }
      StoredKidsFrame(h, h', c.kids, c.addr);
    }
  }

  lemma StoredHalve<D>(h: Heap<D>, w: Tree<D>, parent: Addr, right: Addr)
    requires Overfull(w) && Distinct(w) && StoredKids(h, w.kids, w.addr) && right !in Cells(w)
    ensures Stored(Halve(h, w.addr, Record(w, parent), right), LeftHalf(w), parent)
    ensures Stored(Halve(h, w.addr, Record(w, parent), right), RightHalf(w, right), parent)
    ensures forall x | x in h && x !in Cells(w) && x != right ::
              x in Halve(h, w.addr, Record(w, parent), right) && Halve(h, w.addr, Record(w, parent), right)[x] == h[x]
  {
    var n := if w.kids == [] then 0 else 2;
    var l, r := LeftHalf(w), RightHalf(w, right);
    var h1 := h[w.addr := Record(l, parent)][right := Record(r, parent)];
    DistinctSplit(w.kids, n);
    assert l.kids == w.kids[..n] && r.kids == w.kids[n..];
    HalveRecords(w, parent, right);
    StoredKidsFrame(h, h1, w.kids, w.addr);
    StoredRehome(h1, r.kids, w.addr, right);
    var h2 := Rehome(h1, Addrs(r.kids), right);
    AddrsInCells(r.kids);
    StoredKidsFrame(h1, h2, l.kids, w.addr);
    assert KidCells(r.kids) <= Cells(w);
    assert h2 == Halve(h, w.addr, Record(w, parent), right);
  }

  lemma AddrsInCells<D>(kids: seq<Tree<D>>)
    ensures forall x | x in Addrs(kids) :: x in KidCells(kids)
  {
    forall x | x in Addrs(kids) ensures x in KidCells(kids) {
      var i :| 0 <= i < |kids| && Addrs(kids)[i] == x;
      assert kids[i].addr in Cells(kids[i]);
    }
  }

  lemma HalveRecords<D>(w: Tree<D>, parent: Addr, right: Addr)
    requires Overfull(w)
    ensures Record(LeftHalf(w), parent)
         == Node(parent, Keys(w.entries)[..1], Data(w.entries)[..1], if w.kids == [] then [] else Addrs(w.kids)[..2])
    ensures Record(RightHalf(w, right), parent)
         == Node(parent, Keys(w.entries)[2..], Data(w.entries)[2..], if w.kids == [] then [] else Addrs(w.kids)[2..])
  {
  }

  lemma HalvesDistinct<D>(w: Tree<D>, right: Addr)
    requires Overfull(w) && Distinct(w) && right !in Cells(w)
    ensures Distinct(LeftHalf(w)) && Distinct(RightHalf(w, right))
    ensures Cells(LeftHalf(w)) !! Cells(RightHalf(w, right))
    ensures Cells(LeftHalf(w)) + Cells(RightHalf(w, right)) == Cells(w) + {right}
  {
    var n := if w.kids == [] then 0 else 2;
    DistinctSplit(w.kids, n);
    assert LeftHalf(w).kids == w.kids[..n] && RightHalf(w, right).kids == w.kids[n..];
  }

  lemma StoredCrown<D>(h: Heap<D>, l: Tree<D>, m: Entry<D>, r: Tree<D>, root: Addr)
    requires Stored(h, l, NULL) && Stored(h, r, NULL) && Distinct(l) && Distinct(r)
    requires Cells(l) !! Cells(r) && root !in Cells(l) && root !in Cells(r)
    ensures Stored(Crown(h, l.addr, m.key, m.data, r.addr, root), Tree(root, [m], [l, r]), NULL)
    ensures Distinct(Tree(root, [m], [l, r])) && Cells(Tree(root, [m], [l, r])) == Cells(l) + Cells(r) + {root}
  {
    var t := Tree(root, [m], [l, r]);
    var h1 := h[root := Record(t, NULL)];
    var h2 := Crown(h, l.addr, m.key, m.data, r.addr, root);
    assert t.kids[0] == l && t.kids[1] == r;
    assert KidCells(t.kids) == Cells(l) + Cells(r) by {
      KidCellsJoin([l], [r]);
      assert [l] + [r] == [l, r];
      assert [l][0] == l && [r][0] == r;
    }
    assert Record(t, NULL) == Node(NULL, [m.key], [m.data], [l.addr, r.addr]);
    StoredKidsFrame(h, h2, l.kids, l.addr);
    StoredKidsFrame(h, h2, r.kids, r.addr);
  }
}
