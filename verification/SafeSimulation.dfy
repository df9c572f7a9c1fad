/**
  The overlay simulates the plain tree.  Additions do not look at data pointers, so forgetting the
  homes commutes with them; a run of a session and the same run on a plain copy of the normal file
  give the same tree, node addresses included.
*/
module SafeSimulation {
  import opened Seqs
  import opened BTreeSpec
  import opened BTreeInsert
  import opened BTreeFind
  import opened BTreeRemove
  import opened IndexTree
  import opened SafeTable
  import opened SafeStart

  ghost function Erased(e: Entry<Located>): Entry<Ptr> { Entry(e.key, e.data.ptr) }

  ghost function EraseEntries(s: seq<Entry<Located>>): (r: seq<Entry<Ptr>>)
    ensures |r| == |s|
  {
    seq(|s|, i requires 0 <= i < |s| => Erased(s[i]))
  }

  /** The tree without the homes of its data pointers; every node keeps its address. */
  ghost function EraseTree(t: Tree<Located>): Tree<Ptr> {
    Tree(t.addr, EraseEntries(t.entries), EraseTrees(t.kids))
  }

  ghost function EraseTrees(s: seq<Tree<Located>>): (r: seq<Tree<Ptr>>)
    ensures |r| == |s|
  {
    seq(|s|, i requires 0 <= i < |s| => EraseTree(s[i]))
  }

  ghost function EraseSome(r: Option<Tree<Located>>): Option<Tree<Ptr>> {
    if r.Some? then Some(EraseTree(r.value)) else None
  }

  ghost function EraseGrown(g: Grown<Located>): Grown<Ptr> {
    match g
    case One(t, n) => One(EraseTree(t), n)
    case Two(l, m, r, n) => Two(EraseTree(l), Erased(m), EraseTree(r), n)
  }

  lemma {:induction false} EraseRank(s: seq<Entry<Located>>, k: Key)
    ensures Rank(EraseEntries(s), k) == Rank(s, k)
  {
    if s != [] {
      EraseRank(s[1..], k);
      assert EraseEntries(s)[1..] == EraseEntries(s[1..]);
    }
  }

  lemma EraseWiden(t: Tree<Located>, e: Entry<Located>, r: Option<Tree<Located>>)
    ensures EraseTree(Widen(t, e, r)) == Widen(EraseTree(t), Erased(e), EraseSome(r))
  {
    EraseRank(t.entries, e.key);
    var i := Rank(t.entries, e.key);
    assert EraseEntries(InsertAt(t.entries, i, e)) == InsertAt(EraseEntries(t.entries), i, Erased(e));
    if r.Some? { assert EraseTrees(InsertAt(t.kids, i + 1, r.value)) == InsertAt(EraseTrees(t.kids), i + 1, EraseTree(r.value)); }
  }

  lemma EraseSettle(t: Tree<Located>, next: Addr)
    ensures EraseGrown(Settle(t, next)) == Settle(EraseTree(t), next)
  {
    if Overfull(t) {
      assert EraseEntries(t.entries[..1]) == EraseEntries(t.entries)[..1];
      assert EraseEntries(t.entries[2..]) == EraseEntries(t.entries)[2..];
      if t.kids != [] {
        assert EraseTrees(t.kids[..2]) == EraseTrees(t.kids)[..2];
        assert EraseTrees(t.kids[2..]) == EraseTrees(t.kids)[2..];
      }
    }
  }

  lemma EraseUpdate(t: Tree<Located>, i: nat, c: Tree<Located>)
    requires i < |t.kids|
    ensures EraseTree(t.(kids := t.kids[i := c])) == EraseTree(t).(kids := EraseTree(t).kids[i := EraseTree(c)])
  {
    assert EraseTrees(t.kids[i := c]) == EraseTrees(t.kids)[i := EraseTree(c)];
  }

  lemma EraseAbsorb(t: Tree<Located>, i: nat, g: Grown<Located>)
    requires i < |t.kids|
    ensures EraseGrown(Absorb(t, i, g)) == Absorb(EraseTree(t), i, EraseGrown(g))
  {
    match g
    case One(c, n) => EraseUpdate(t, i, c);
    case Two(l, m, r, n) =>
      var u := t.(kids := t.kids[i := l]);
      EraseUpdate(t, i, l);
      EraseWiden(u, m, Some(r));
      EraseSettle(Widen(u, m, Some(r)), n);
  }

  lemma {:induction false} EraseInsertPath(t: Tree<Located>, path: Path, e: Entry<Located>, r: Option<Tree<Located>>, next: Addr)
    ensures EraseGrown(InsertPath(t, path, e, r, next)) == InsertPath(EraseTree(t), path, Erased(e), EraseSome(r), next)
    decreases |path|
  {
    if path == [] || path[0] >= |t.kids| {
      EraseWiden(t, e, r);
      EraseSettle(Widen(t, e, r), next);
    } else {
      EraseInsertPath(t.kids[path[0]], path[1..], e, r, next);
      EraseAbsorb(t, path[0], InsertPath(t.kids[path[0]], path[1..], e, r, next));
      assert EraseTree(t).kids[path[0]] == EraseTree(t.kids[path[0]]);
    }
  }

  lemma {:induction false} EraseSearchPath(t: Tree<Located>, k: Key)
    ensures SearchPath(EraseTree(t), k) == SearchPath(t, k)
  {
    EraseRank(t.entries, k);
    var i := Rank(t.entries, k);
    if i < |t.kids| {
      EraseSearchPath(t.kids[i], k);
      assert EraseTree(t).kids[i] == EraseTree(t.kids[i]);
    }
  }

  lemma EraseRegrow(g: Grown<Located>)
    ensures Regrow(EraseGrown(g)) == (EraseTree(Regrow(g).0), Regrow(g).1)
  {
    if g.Two? {
      assert EraseEntries([g.mid]) == [Erased(g.mid)];
      assert EraseTrees([g.left, g.right]) == [EraseTree(g.left), EraseTree(g.right)];
    }
  }

  /** One addition: forgetting homes before or after makes no difference. */
  lemma EraseAdd(t: Tree<Located>, e: Entry<Located>, next: Addr)
    ensures AddTree(EraseTree(t), Erased(e), next) == (EraseTree(AddTree(t, e, next).0), AddTree(t, e, next).1)
  {
    EraseSearchPath(t, e.key);
    EraseInsertPath(t, SearchPath(t, e.key), e, None, next);
    EraseRegrow(InsertPath(t, SearchPath(t, e.key), e, None, next));
    hide InsertPath, SearchPath, EraseTree, EraseGrown, Regrow;
  }

  // ---------------------------------------------------------------- runs

  /** The tree and the next address after adding the entries one after another in normal mode. */
  ghost function PlainRun(t: Tree<Ptr>, next: Addr, es: seq<Entry<Ptr>>): (Tree<Ptr>, Addr)
    decreases |es|
  {
    if es == [] then (t, next)
    else var (u, n) := PlainRun(t, next, es[..|es| - 1]); AddTree(u, es[|es| - 1], n)
  }

  /** The same entries added in a session. */
  ghost function SafeRun(t: Tree<Located>, next: Addr, es: seq<Entry<Ptr>>): (Tree<Located>, Addr)
    decreases |es|
  {
    if es == [] then (t, next)
    else
      var (u, n) := SafeRun(t, next, es[..|es| - 1]);
      AddTree(u, Entry(es[|es| - 1].key, Located(es[|es| - 1].data, AtSafe)), n)
  }

  lemma {:induction false} EraseTag(t: Tree<Ptr>)
    ensures EraseTree(TagTree(t)) == t
  {
    forall i | 0 <= i < |t.kids| ensures EraseTrees(TagTree(t).kids)[i] == t.kids[i] { EraseTag(t.kids[i]); }
    assert EraseTrees(TagTree(t).kids) == t.kids;
    assert EraseEntries(TagEntries(t.entries)) == t.entries;
  }

  /**
    The simulation: a session opened on the tree t sees, after any additions, exactly the tree that
    the same additions make of a plain copy, with every node at the same address.
  */
  lemma {:induction false} SafeRunIsPlainRun(t: Tree<Ptr>, next: Addr, es: seq<Entry<Ptr>>)
    ensures PlainRun(t, next, es) == (EraseTree(SafeRun(TagTree(t), next, es).0), SafeRun(TagTree(t), next, es).1)
    decreases |es|
  {
    if es == [] {
      EraseTag(t);
    } else {
      SafeRunIsPlainRun(t, next, es[..|es| - 1]);
      var (u, n) := SafeRun(TagTree(t), next, es[..|es| - 1]);
      EraseAdd(u, Entry(es[|es| - 1].key, Located(es[|es| - 1].data, AtSafe)), n);
    }
  }

  /** A sorted list after adding the entries one after another. */
  ghost function InsertAll(s: seq<Entry<Ptr>>, es: seq<Entry<Ptr>>): seq<Entry<Ptr>>
    decreases |es|
  {
    if es == [] then s else InsertEntry(InsertAll(s, es[..|es| - 1]), es[|es| - 1])
  }

  lemma RunMore(t: Tree<Ptr>, next: Addr, es: seq<Entry<Ptr>>, e: Entry<Ptr>)
    ensures SafeRun(TagTree(t), next, es + [e])
         == AddTree(SafeRun(TagTree(t), next, es).0, Entry(e.key, Located(e.data, AtSafe)), SafeRun(TagTree(t), next, es).1)
    ensures InsertAll(List(t), es + [e]) == InsertEntry(InsertAll(List(t), es), e)
  {
    assert (es + [e])[..|es|] == es;
  }

  lemma {:induction false} EraseInsert(s: seq<Entry<Located>>, e: Entry<Located>)
    ensures EraseEntries(InsertEntry(s, e)) == InsertEntry(EraseEntries(s), Erased(e))
  {
    if s != [] && e.key >= s[0].key {
      EraseInsert(s[1..], e);
      assert EraseEntries(s)[1..] == EraseEntries(s[1..]);
    }
  }
}
