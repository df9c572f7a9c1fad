/**
  Insertion on the abstract tree: what adding a key at the end of a search path means, and why it
  keeps the tree a 2-3-4 tree whose in-order list gains exactly the new entry.
*/
module BTreeInsert {
  import opened Seqs
  import opened BTreeSpec

  /** How many leading keys the search walks past. */
  ghost function Rank<D>(s: seq<Entry<D>>, k: Key): (r: nat)
    ensures r <= |s|
  {
    if s == [] || k < s[0].key then 0 else 1 + Rank(s[1..], k)
  }

  type Path = seq<nat>

  /** The child indices that the descent towards k takes. */
  ghost function SearchPath<D>(t: Tree<D>, k: Key): Path {
    var i := Rank(t.entries, k);
    if i < |t.kids| then [i] + SearchPath(t.kids[i], k) else []
  }

  ghost predicate ValidPath<D>(t: Tree<D>, path: Path) {
    path == [] || (path[0] < |t.kids| && ValidPath(t.kids[path[0]], path[1..]))
  }

  ghost function Get<D>(t: Tree<D>, path: Path): Tree<D>
    requires ValidPath(t, path)
  {
    if path == [] then t else Get(t.kids[path[0]], path[1..])
  }

  /** A node with one entry more and, right of it, one child more. It may hold four entries. */
  ghost function Widen<D>(t: Tree<D>, e: Entry<D>, right: Option<Tree<D>>): Tree<D> {
    var i := Rank(t.entries, e.key);
    Tree(t.addr, InsertAt(t.entries, i, e),
         if right.None? then t.kids else InsertAt(t.kids, i + 1, right.value))
  }

  datatype Grown<D> = One(tree: Tree<D>, next: Addr) | Two(left: Tree<D>, mid: Entry<D>, right: Tree<D>, next: Addr)

  /** A node with four entries and no child or five. */
  ghost predicate Overfull<D>(t: Tree<D>) {
    |t.entries| == MAX_KEYS + 1 && (t.kids == [] || |t.kids| == MAX_KEYS + 2)
  }

  ghost function LeftHalf<D>(t: Tree<D>): Tree<D>
    requires Overfull(t)
  {
    Tree(t.addr, t.entries[..1], if t.kids == [] then [] else t.kids[..2])
  }

  ghost function RightHalf<D>(t: Tree<D>, addr: Addr): Tree<D>
    requires Overfull(t)
  {
    Tree(addr, t.entries[2..], if t.kids == [] then [] else t.kids[2..])
  }

  /** An over-full node gives its second entry to its parent and its last two to a new sibling. */
  ghost function Settle<D>(t: Tree<D>, next: Addr): Grown<D> {
    if !Overfull(t) then One(t, next)
    else Two(LeftHalf(t), t.entries[1], RightHalf(t, next), next + NODE_SIZE)
  }

  /** What a node makes of what its child i became. */
  ghost function Absorb<D>(t: Tree<D>, i: nat, g: Grown<D>): Grown<D>
    requires i < |t.kids|
  {
    match g
    case One(c, n) => One(t.(kids := t.kids[i := c]), n)
    case Two(l, m, r, n) => Settle(Widen(t.(kids := t.kids[i := l]), m, Some(r)), n)
  }

  /** The entry e, with a subtree to its right, placed in the node at the end of the path. */
  ghost function InsertPath<D>(t: Tree<D>, path: Path, e: Entry<D>, right: Option<Tree<D>>, next: Addr): Grown<D>
    decreases |path|
  {
    if path == [] || path[0] >= |t.kids| then Settle(Widen(t, e, right), next)
    else Absorb(t, path[0], InsertPath(t.kids[path[0]], path[1..], e, right, next))
  }

  /** The whole tree afterwards: a split that reaches the top makes a new root. */
  ghost function Regrow<D>(g: Grown<D>): (Tree<D>, Addr) {
    match g
    case One(t, n) => (t, n)
    case Two(l, m, r, n) => (Tree(n, [m], [l, r]), n + NODE_SIZE)
  }

  ghost function AddTree<D>(t: Tree<D>, e: Entry<D>, next: Addr): (Tree<D>, Addr) {
    Regrow(InsertPath(t, SearchPath(t, e.key), e, None, next))
  }

  lemma {:induction false} SearchPathValid<D>(t: Tree<D>, k: Key, height: nat)
    requires Balanced(t, height)
    ensures ValidPath(t, SearchPath(t, k))
    ensures |SearchPath(t, k)| == height
    ensures Get(t, SearchPath(t, k)).kids == []
    decreases height
  {
    if height > 0 {
      assert Siblings(t.kids, height - 1);
      SearchPathValid(t.kids[Rank(t.entries, k)], k, height - 1);
    }
  }

  // ---------------------------------------------------------------- ranks and sorted lists

  lemma {:induction false} RankIs<D>(s: seq<Entry<D>>, k: Key, i: nat)
    requires i <= |s|
    requires forall j | 0 <= j < i :: s[j].key <= k
    requires i < |s| ==> k < s[i].key
    ensures Rank(s, k) == i
  {
    if i > 0 { RankIs(s[1..], k, i - 1); }
  }

  lemma {:induction false} RankSplits<D>(s: seq<Entry<D>>, k: Key)
    ensures forall j | 0 <= j < Rank(s, k) :: s[j].key <= k
    ensures Rank(s, k) < |s| ==> k < s[Rank(s, k)].key
  {
    if s != [] && k >= s[0].key {
      RankSplits(s[1..], k);
      forall j | 0 <= j < Rank(s, k) ensures s[j].key <= k {
        if j > 0 { assert s[j] == s[1..][j - 1]; }
      }
    }
  }

  lemma InsertAtSplit<D>(s: seq<Entry<D>>, i: nat, e: Entry<D>)
    requires i <= |s| && Below(s[..i], e.key) && Above(s[i..], e.key)
    ensures InsertAt(s, i, e) == InsertEntry(s, e)
  {
    InsertPrefix(s[..i], s[i..], e);
    assert s == s[..i] + s[i..];
  }

  lemma LeafInsert<D>(s: seq<Entry<D>>, e: Entry<D>)
    requires Sorted(s) && Absent(s, e.key)
    ensures InsertAt(s, Rank(s, e.key), e) == InsertEntry(s, e)
  {
    RankSplits(s, e.key);
    InsertAtSplit(s, Rank(s, e.key), e);
  }

  lemma SepsSorted<D>(runs: seq<seq<Entry<D>>>, seps: seq<Entry<D>>)
    requires |runs| == |seps| + 1
    requires Sorted(Interleave(runs, seps))
    ensures Sorted(seps)
  {
    forall i, j | 0 <= i < j < |seps| ensures seps[i].key < seps[j].key {
      var left := Interleave(runs[..j + 1], seps[..j]);
      var a := Interleave(runs[..j + 1][..i + 1], seps[..j][..i]);
      InterleaveSplit(runs, seps, j);
      InterleaveSplit(runs[..j + 1], seps[..j], i);
      var all := Interleave(runs, seps);
      assert left[|a|] == seps[i];
      assert all[|a|] == seps[i] && all[|left|] == seps[j];
    }
  }

  // ---------------------------------------------------------------- siblings

  lemma SiblingsSplit<D>(kids: seq<Tree<D>>, height: nat, i: nat)
    requires Siblings(kids, height) && i <= |kids|
    ensures Siblings(kids[..i], height) && Siblings(kids[i..], height)
    ensures Lists(kids[..i]) == Lists(kids)[..i]
    ensures Lists(kids[i..]) == Lists(kids)[i..]
  {
  }

  lemma SiblingsJoin<D>(a: seq<Tree<D>>, b: seq<Tree<D>>, height: nat)
    requires Siblings(a, height) && Siblings(b, height)
    ensures Siblings(a + b, height)
    ensures Lists(a + b) == Lists(a) + Lists(b)
  {
  }

  /** Sibling i makes room for two. */
  lemma SiblingsTwo<D>(kids: seq<Tree<D>>, height: nat, i: nat, l: Tree<D>, r: Tree<D>)
    requires Siblings(kids, height) && i < |kids| && Fit(l, height) && Fit(r, height)
    ensures Siblings(kids[..i] + [l, r] + kids[i + 1..], height)
    ensures Lists(kids[..i] + [l, r] + kids[i + 1..])
         == Lists(kids)[..i] + [List(l), List(r)] + Lists(kids)[i + 1..]
  {
    SiblingsSplit(kids, height, i);
    SiblingsSplit(kids, height, i + 1);
    SiblingsJoin(kids[..i], [l, r], height);
    SiblingsJoin(kids[..i] + [l, r], kids[i + 1..], height);
    assert Lists([l, r]) == [List(l), List(r)];
  }

  // ---------------------------------------------------------------- insertion is correct

  /** g is one tree, or two trees around an entry, that list exactly s. */
  ghost predicate Spells<D>(g: Grown<D>, height: nat, s: seq<Entry<D>>) {
    match g
    case One(t, _) => Fit(t, height) && List(t) == s
    case Two(l, m, r, _) =>
      && Fit(l, height) && |l.entries| == 1
      && Fit(r, height) && |r.entries| == 2
      && List(l) + [m] + List(r) == s
  }

  lemma SettleSpells<D>(t: Tree<D>, height: nat, next: Addr)
    requires Balanced(t, height) && 1 <= |t.entries| <= MAX_KEYS + 1
    ensures Spells(Settle(t, next), height, List(t))
  {
    if |t.entries| == MAX_KEYS + 1 {
      if height > 0 {
        SiblingsSplit(t.kids, height - 1, 2);
        InterleaveSplit(Lists(t.kids), t.entries, 1);
      }
      assert t.entries == t.entries[..1] + [t.entries[1]] + t.entries[2..];
    }
  }

  /** Inner step: child i was replaced by l, and m with r to its right goes up into t. */
  lemma WidenLists<D>(t: Tree<D>, height: nat, i: nat, l: Tree<D>, m: Entry<D>, r: Tree<D>)
    requires Balanced(t, height) && height > 0 && i < |t.kids| && Rank(t.entries, m.key) == i
    requires Fit(l, height - 1) && Fit(r, height - 1)
    ensures Balanced(Widen(t.(kids := t.kids[i := l]), m, Some(r)), height)
    ensures List(Widen(t.(kids := t.kids[i := l]), m, Some(r)))
         == Before(Lists(t.kids), t.entries, i) + (List(l) + [m] + List(r)) + After(Lists(t.kids), t.entries, i)
  {
    SiblingsTwo(t.kids, height - 1, i, l, r);
    InsertAfter(t.kids, i, l, r);
    InterleaveTwo(Lists(t.kids), t.entries, i, List(l), m, List(r));
  }

  /** Around child i of an inner node, when k belongs there. */
  lemma AroundChild<D>(t: Tree<D>, height: nat, k: Key)
    requires Balanced(t, height) && height > 0 && Sorted(List(t)) && Absent(List(t), k)
    ensures Rank(t.entries, k) < |t.kids|
    ensures List(t) == Before(Lists(t.kids), t.entries, Rank(t.entries, k))
                       + List(t.kids[Rank(t.entries, k)])
                       + After(Lists(t.kids), t.entries, Rank(t.entries, k))
    ensures Below(Before(Lists(t.kids), t.entries, Rank(t.entries, k)), k)
    ensures Above(After(Lists(t.kids), t.entries, Rank(t.entries, k)), k)
  {
    var i := Rank(t.entries, k);
    var b, x, a := Before(Lists(t.kids), t.entries, i), List(t.kids[i]), After(Lists(t.kids), t.entries, i);
    InterleaveAround(Lists(t.kids), t.entries, i);
    RankSplits(t.entries, k);
    assert List(t) == b + x + a;
    if b != [] {
      var all := List(t);
      assert all[|b| - 1] == t.entries[i - 1];
      forall j | 0 <= j < |b| ensures b[j].key < k {
        assert all[j] == b[j];
      }
    }
    if a != [] {
      var all, n := List(t), |b + x|;
      assert all[n] == t.entries[i];
      forall j | 0 <= j < |a| ensures k < a[j].key {
        assert all[n + j] == a[j];
      }
    }
  }

  /** The entry that comes up from child i ranks i in its parent. */
  lemma RankOfMid<D>(t: Tree<D>, i: nat, l: seq<Entry<D>>, m: Entry<D>, r: seq<Entry<D>>)
    requires |t.kids| == |t.entries| + 1 && i < |t.kids|
    requires Sorted(t.entries)
    requires Sorted(Before(Lists(t.kids), t.entries, i) + (l + [m] + r) + After(Lists(t.kids), t.entries, i))
    ensures Rank(t.entries, m.key) == i
  {
    var b, x, a := Before(Lists(t.kids), t.entries, i), l + [m] + r, After(Lists(t.kids), t.entries, i);
    var all := b + x + a;
    assert all[|b| + |l|] == m;
    if i > 0 { assert all[|b| - 1] == t.entries[i - 1]; }
    if i < |t.entries| { assert all[|b + x|] == t.entries[i]; }
    RankIs(t.entries, m.key, i);
  }

  lemma AbsorbOne<D>(t: Tree<D>, height: nat, i: nat, c: Tree<D>, next: Addr)
    requires Balanced(t, height) && height > 0 && i < |t.kids| && 1 <= |t.entries| <= MAX_KEYS && Fit(c, height - 1)
    ensures Spells(Absorb(t, i, One(c, next)), height,
                   Before(Lists(t.kids), t.entries, i) + List(c) + After(Lists(t.kids), t.entries, i))
  {
    InterleaveOne(Lists(t.kids), t.entries, i, List(c));
    assert Lists(t.kids[i := c]) == Lists(t.kids)[i := List(c)];
    assert Siblings(t.kids[i := c], height - 1);
  }

  lemma AbsorbTwo<D>(t: Tree<D>, height: nat, i: nat, l: Tree<D>, m: Entry<D>, r: Tree<D>, next: Addr)
    requires Balanced(t, height) && height > 0 && i < |t.kids| && |t.entries| <= MAX_KEYS && Sorted(t.entries)
    requires Fit(l, height - 1) && Fit(r, height - 1)
    requires Sorted(Before(Lists(t.kids), t.entries, i) + (List(l) + [m] + List(r)) + After(Lists(t.kids), t.entries, i))
    ensures Spells(Absorb(t, i, Two(l, m, r, next)), height,
                   Before(Lists(t.kids), t.entries, i) + (List(l) + [m] + List(r)) + After(Lists(t.kids), t.entries, i))
  {
    RankOfMid(t, i, List(l), m, List(r));
    WidenLists(t, height, i, l, m, r);
    SettleSpells(Widen(t.(kids := t.kids[i := l]), m, Some(r)), height, next);
  }

  lemma AbsorbSpells<D>(t: Tree<D>, height: nat, i: nat, g: Grown<D>, e: Entry<D>)
    requires WellFormed(t, height) && height > 0 && Absent(List(t), e.key) && i == Rank(t.entries, e.key) < |t.kids|
    requires Spells(g, height - 1, InsertEntry(List(t.kids[i]), e))
    ensures Spells(Absorb(t, i, g), height, InsertEntry(List(t), e))
  {
    var b, x, a := Before(Lists(t.kids), t.entries, i), List(t.kids[i]), After(Lists(t.kids), t.entries, i);
    AroundChild(t, height, e.key);
    InsertBetween(b, x, a, e);
    match g
    case One(c, n) =>
      AbsorbOne(t, height, i, c, n);
    case Two(l, m, r, n) =>
      InsertKeepsSorted(List(t), e);
      SepsSorted(Lists(t.kids), t.entries);
      AbsorbTwo(t, height, i, l, m, r, n);
  }

  /**
    Adding an absent key to a well-formed subtree gives one tree, or two around an entry, of the
    same height, listing exactly the old entries and the new one in key order.
  */
  lemma {:induction false} InsertPathSpells<D>(t: Tree<D>, height: nat, e: Entry<D>, next: Addr)
    requires WellFormed(t, height) && Absent(List(t), e.key)
    ensures Spells(InsertPath(t, SearchPath(t, e.key), e, None, next), height, InsertEntry(List(t), e))
    decreases height
  {
    var i := Rank(t.entries, e.key);
    if height == 0 {
      LeafInsert(t.entries, e);
      SettleSpells(Widen(t, e, None), 0, next);
    } else {
      ChildWellFormed(t, height, i);
      InsertPathSpells(t.kids[i], height - 1, e, next);
      var g := InsertPath(t.kids[i], SearchPath(t.kids[i], e.key), e, None, next);
      AbsorbSpells(t, height, i, g, e);
      InsertPathStep(t, i, e, next);
    }
  }

  lemma InsertPathStep<D>(t: Tree<D>, i: nat, e: Entry<D>, next: Addr)
    requires i == Rank(t.entries, e.key) < |t.kids|
    ensures InsertPath(t, SearchPath(t, e.key), e, None, next)
         == Absorb(t, i, InsertPath(t.kids[i], SearchPath(t.kids[i], e.key), e, None, next))
  {
    assert SearchPath(t, e.key)[1..] == SearchPath(t.kids[i], e.key);
  }

  /** What lies in child i lies in the tree, in the same order. */
  lemma ChildList<D>(t: Tree<D>, i: nat) returns (n: nat)
    requires |t.kids| == |t.entries| + 1 && i < |t.kids|
    ensures n + |List(t.kids[i])| <= |List(t)| && List(t)[n..n + |List(t.kids[i])|] == List(t.kids[i])
  {
    var b, x, a := Before(Lists(t.kids), t.entries, i), List(t.kids[i]), After(Lists(t.kids), t.entries, i);
    InterleaveAround(Lists(t.kids), t.entries, i);
    assert (b + x + a)[|b|..|b| + |x|] == x;
    n := |b|;
  }

  lemma PartSorted<D>(s: seq<Entry<D>>, n: nat, m: nat)
    requires Sorted(s) && n <= m <= |s|
    ensures Sorted(s[n..m])
    ensures forall k | Absent(s, k) :: Absent(s[n..m], k)
  {
  }

  lemma ChildWellFormed<D>(t: Tree<D>, height: nat, i: nat)
    requires WellFormed(t, height) && height > 0 && i < |t.kids|
    ensures WellFormed(t.kids[i], height - 1) && 1 <= |t.kids[i].entries|
    ensures forall k | Absent(List(t), k) :: Absent(List(t.kids[i]), k)
  {
    var n := ChildList(t, i);
    PartSorted(List(t), n, n + |List(t.kids[i])|);
    assert Siblings(t.kids, height - 1);
    assert Fit(t.kids[i], height - 1);
  }

  /** The height of the tree after an addition. */
  ghost function NewHeight<D>(t: Tree<D>, height: nat, e: Entry<D>, next: Addr): nat {
    if InsertPath(t, SearchPath(t, e.key), e, None, next).One? then height else height + 1
  }

  /** The main theorem: the tree stays well formed and its in-order list gains exactly the entry. */
  lemma AddTreeCorrect<D>(t: Tree<D>, height: nat, e: Entry<D>, next: Addr)
    requires WellFormed(t, height) && Absent(List(t), e.key)
    ensures WellFormed(AddTree(t, e, next).0, NewHeight(t, height, e, next))
    ensures List(AddTree(t, e, next).0) == InsertEntry(List(t), e)
  {
    InsertPathSpells(t, height, e, next);
    InsertKeepsSorted(List(t), e);
    var g := InsertPath(t, SearchPath(t, e.key), e, None, next);
    if g.Two? { RootOfTwo(g.left, g.mid, g.right, height, g.next); }
  }

  lemma RootOfTwo<D>(l: Tree<D>, m: Entry<D>, r: Tree<D>, height: nat, addr: Addr)
    requires Fit(l, height) && Fit(r, height)
    ensures Balanced(Tree(addr, [m], [l, r]), height + 1)
    ensures List(Tree(addr, [m], [l, r])) == List(l) + [m] + List(r)
  {
    assert Siblings([l, r], height);
    var t := Tree(addr, [m], [l, r]);
    var runs := Lists(t.kids);
    assert runs == [List(l), List(r)];
    assert runs[1..] == [List(r)];
    assert Interleave(runs[1..], [m][1..]) == List(r);
  }
}
