/**
  Removal on the abstract tree, in the cases that the source completes at the leaf: a leaf that keeps
  a key, the root leaf, a neighbour that lends a key through the parent, and a one-key root that
  collapses over two one-key leaves.
*/
module BTreeRemove {
  import opened Seqs
  import opened BTreeSpec
  import opened BTreeInsert
  import opened BTreeHeap
  import opened BTreeFind

  /** The list without the entry of k. */
  ghost function RemoveEntry<D>(s: seq<Entry<D>>, k: Key): seq<Entry<D>> {
    if s == [] then []
    else if s[0].key == k then s[1..]
    else [s[0]] + RemoveEntry(s[1..], k)
  }

  /** As a map: exactly k is gone. */
  lemma {:induction false} RemoveLookup<D>(s: seq<Entry<D>>, k: Key, q: Key)
    requires Sorted(s)
    ensures Lookup(RemoveEntry(s, k), q) == if q == k then None else Lookup(s, q)
  {
    if s != [] && s[0].key != k { RemoveLookup(s[1..], k, q); }
  }

  /** As a map: exactly e was added. */
  lemma {:induction false} InsertLookup<D>(s: seq<Entry<D>>, e: Entry<D>, q: Key)
    requires Absent(s, e.key)
    ensures Lookup(InsertEntry(s, e), q) == if q == e.key then Some(e.data) else Lookup(s, q)
  {
    if s != [] {
      if e.key < s[0].key { assert ([e] + s)[1..] == s; }
      else {
        InsertLookup(s[1..], e, q);
        assert ([s[0]] + InsertEntry(s[1..], e))[1..] == InsertEntry(s[1..], e);
      }
    }
  }

  lemma {:induction false} RemovePrefix<D>(b: seq<Entry<D>>, s: seq<Entry<D>>, k: Key)
    requires Absent(b, k)
    ensures RemoveEntry(b + s, k) == b + RemoveEntry(s, k)
  {
    if b == [] {
      assert b + s == s;
    } else {
      RemovePrefix(b[1..], s, k);
      assert (b + s)[1..] == b[1..] + s;
    }
  }

  lemma {:induction false} RemoveSuffix<D>(x: seq<Entry<D>>, a: seq<Entry<D>>, k: Key)
    requires !Absent(x, k)
    ensures RemoveEntry(x + a, k) == RemoveEntry(x, k) + a
  {
    assert (x + a)[1..] == x[1..] + a;
    if x[0].key != k { RemoveSuffix(x[1..], a, k); }
  }

  lemma RemoveInside<D>(b: seq<Entry<D>>, x: seq<Entry<D>>, a: seq<Entry<D>>, k: Key)
    requires Sorted(b + x + a) && !Absent(x, k)
    ensures RemoveEntry(b + x + a, k) == b + RemoveEntry(x, k) + a
  {
    var i :| 0 <= i < |x| && x[i].key == k;
    assert (b + x + a)[|b| + i] == x[i];
    forall j | 0 <= j < |b| ensures b[j].key != k { assert (b + x + a)[j] == b[j]; }
    RemovePrefix(b, x + a, k);
    RemoveSuffix(x, a, k);
    assert b + (x + a) == b + x + a;
  }

  lemma {:induction false} RemoveKeepsSorted<D>(s: seq<Entry<D>>, k: Key)
    requires Sorted(s)
    ensures Sorted(RemoveEntry(s, k))
    ensures forall e | e in RemoveEntry(s, k) :: e in s
  {
    if s != [] && s[0].key != k {
      RemoveKeepsSorted(s[1..], k);
      var r := RemoveEntry(s[1..], k);
      forall j | 0 <= j < |r| ensures s[0].key < r[j].key { assert r[j] in s[1..]; }
    }
  }

  /** Two neighbouring runs and the separator between them. */
  lemma InterleavePair<E>(runs: seq<seq<E>>, seps: seq<E>, i: nat)
    requires |runs| == |seps| + 1 && i < |seps|
    ensures Interleave(runs, seps)
         == Before(runs, seps, i) + (runs[i] + [seps[i]] + runs[i + 1]) + After(runs, seps, i + 1)
  {
    InterleaveAround(runs, seps, i);
    AfterPair(runs, seps, i);
    hide Interleave, Before, After;
    Regroup(Before(runs, seps, i), runs[i], [seps[i]], runs[i + 1], After(runs, seps, i + 1));
  }

  lemma Regroup<E>(b: seq<E>, l: seq<E>, x: seq<E>, r: seq<E>, a: seq<E>)
    ensures b + l + (x + (r + a)) == b + (l + x + r) + a
  {
  }

  lemma AfterPair<E>(runs: seq<seq<E>>, seps: seq<E>, i: nat)
    requires |runs| == |seps| + 1 && i < |seps|
    ensures After(runs, seps, i) == [seps[i]] + (runs[i + 1] + After(runs, seps, i + 1))
  {
    InterleaveHead(runs[i + 1..], seps[i + 1..]);
    assert runs[i + 1..][1..] == runs[i + 2..];
    if i + 1 < |seps| { assert seps[i + 1..][1..] == seps[i + 2..]; }
  }

  /** Changing the pair leaves what lies around it. */
  lemma InterleavePairUpdate<E>(runs: seq<seq<E>>, seps: seq<E>, i: nat, l: seq<E>, e: E, r: seq<E>)
    requires |runs| == |seps| + 1 && i < |seps|
    ensures Interleave(runs[i := l][i + 1 := r], seps[i := e])
         == Before(runs, seps, i) + (l + [e] + r) + After(runs, seps, i + 1)
  {
    var rs, ss := runs[i := l][i + 1 := r], seps[i := e];
    InterleavePair(rs, ss, i);
    SameAround(runs, seps, rs, ss, i);
  }

  lemma SameAround<E>(runs: seq<seq<E>>, seps: seq<E>, rs: seq<seq<E>>, ss: seq<E>, i: nat)
    requires |runs| == |seps| + 1 == |rs| == |ss| + 1 && i < |seps|
    requires rs[..i] == runs[..i] && ss[..i] == seps[..i] && rs[i + 2..] == runs[i + 2..] && ss[i + 1..] == seps[i + 1..]
    ensures Before(rs, ss, i) == Before(runs, seps, i) && After(rs, ss, i + 1) == After(runs, seps, i + 1)
  {
    if i > 0 { assert ss[..i - 1] == ss[..i][..i - 1] == seps[..i - 1] && ss[i - 1] == ss[..i][i - 1]; }
    if i + 1 < |seps| { assert ss[i + 2..] == ss[i + 1..][1..] == seps[i + 2..] && ss[i + 1] == ss[i + 1..][0]; }
  }

  // ---------------------------------------------------------------- replacing a subtree

  /** A subtree that lost k, put back in its place: the whole tree lost k. */
  lemma {:induction false} ReplaceRemoves<D>(t: Tree<D>, height: nat, path: Path, u: Tree<D>, k: Key)
    requires WellFormed(t, height) && ValidPath(t, path)
    requires !Absent(List(Get(t, path)), k) && List(u) == RemoveEntry(List(Get(t, path)), k)
    ensures List(Replace(t, path, u)) == RemoveEntry(List(t), k) && !Absent(List(t), k)
    decreases |path|
  {
    if path != [] {
      var i := path[0];
      ChildWellFormed(t, height, i);
      ReplaceRemoves(t.kids[i], height - 1, path[1..], u, k);
      var c := Replace(t.kids[i], path[1..], u);
      KidRemoves(t, i, c, k);
    }
  }

  lemma KidRemoves<D>(t: Tree<D>, i: nat, c: Tree<D>, k: Key)
    requires |t.kids| == |t.entries| + 1 && i < |t.kids| && Sorted(List(t)) && !Absent(List(t.kids[i]), k)
    requires List(c) == RemoveEntry(List(t.kids[i]), k)
    ensures List(t.(kids := t.kids[i := c])) == RemoveEntry(List(t), k) && !Absent(List(t), k)
  {
    var b, x, a := Before(Lists(t.kids), t.entries, i), List(t.kids[i]), After(Lists(t.kids), t.entries, i);
    InterleaveAround(Lists(t.kids), t.entries, i);
    InterleaveOne(Lists(t.kids), t.entries, i, List(c));
    assert Lists(t.kids[i := c]) == Lists(t.kids)[i := List(c)];
    RemoveInside(b, x, a, k);
    var j :| 0 <= j < |x| && x[j].key == k;
    assert (b + x + a)[|b| + j] == x[j];
  }

  // ---------------------------------------------------------------- the cases at a leaf

  ghost function Without<D>(leaf: Tree<D>, j: nat): Tree<D>
    requires j < |leaf.entries|
  {
    leaf.(entries := RemoveAt(leaf.entries, j))
  }

  lemma {:induction false} RemoveAtIs<D>(s: seq<Entry<D>>, j: nat)
    requires Sorted(s) && j < |s|
    ensures RemoveAt(s, j) == RemoveEntry(s, s[j].key)
  {
    if j > 0 { RemoveAtIs(s[1..], j - 1); }
  }

  ghost predicate LeafKids<D>(p: Tree<D>, i: nat) {
    |p.kids| == |p.entries| + 1 && i < |p.kids| && forall j | 0 <= j < |p.kids| :: p.kids[j].kids == []
  }

  /** Leaf i lost its only entry: its left neighbour's last one moves up, the separator moves down. */
  ghost function LendLeft<D>(p: Tree<D>, i: nat): Tree<D>
    requires LeafKids(p, i) && i > 0 && |p.kids[i - 1].entries| >= 1
  {
    var l := p.kids[i - 1].entries;
    Tree(p.addr, p.entries[i - 1 := l[|l| - 1]],
         p.kids[i - 1 := Tree(p.kids[i - 1].addr, l[..|l| - 1], [])][i := Tree(p.kids[i].addr, [p.entries[i - 1]], [])])
  }

  /** The same with the right neighbour and its first entry. */
  ghost function LendRight<D>(p: Tree<D>, i: nat): Tree<D>
    requires LeafKids(p, i) && i + 1 < |p.kids| && |p.kids[i + 1].entries| >= 1
  {
    var r := p.kids[i + 1].entries;
    Tree(p.addr, p.entries[i := r[0]],
         p.kids[i := Tree(p.kids[i].addr, [p.entries[i]], [])][i + 1 := Tree(p.kids[i + 1].addr, r[1..], [])])
  }

  /** A one-key root over two leaves, one of them left without entries: the other one takes the key. */
  ghost function Collapse<D>(p: Tree<D>, i: nat): Tree<D>
    requires LeafKids(p, i) && |p.kids| == 2
  {
    if i == 1 then Tree(p.kids[0].addr, p.kids[0].entries + p.entries, [])
    else Tree(p.kids[1].addr, p.entries + p.kids[1].entries, [])
  }

  lemma LeafPair<D>(p: Tree<D>, i: nat)
    requires LeafKids(p, i) && i < |p.entries|
    ensures List(p) == Before(Lists(p.kids), p.entries, i)
                       + (p.kids[i].entries + [p.entries[i]] + p.kids[i + 1].entries)
                       + After(Lists(p.kids), p.entries, i + 1)
  {
    InterleavePair(Lists(p.kids), p.entries, i);
    assert List(p.kids[i]) == p.kids[i].entries && List(p.kids[i + 1]) == p.kids[i + 1].entries;
  }

  lemma MiddleSorted<D>(b: seq<Entry<D>>, x: seq<Entry<D>>, a: seq<Entry<D>>)
    requires Sorted(b + x + a)
    ensures Sorted(x)
  {
    assert (b + x + a)[|b|..|b| + |x|] == x;
    PartSorted(b + x + a, |b|, |b| + |x|);
  }

  lemma LendLeftRemoves<D>(p: Tree<D>, i: nat, k: Key)
    requires LeafKids(p, i) && i > 0 && |p.kids[i - 1].entries| >= 1 && Sorted(List(p))
    requires |p.kids[i].entries| == 1 && p.kids[i].entries[0].key == k
    ensures List(LendLeft(p, i)) == RemoveEntry(List(p), k)
  {
    var q, l, e, x := LendLeft(p, i), p.kids[i - 1].entries, p.entries[i - 1], p.kids[i].entries;
    var b, a := Before(Lists(p.kids), p.entries, i - 1), After(Lists(p.kids), p.entries, i);
    LeafPair(p, i - 1);
    LendLeftList(p, i);
    hide *;
    PairLoses(b, l, e, x, a, k);
  }

  /** What the neighbour's last entry and the separator leave of a pair of leaves. */
  lemma PairLoses<D>(b: seq<Entry<D>>, l: seq<Entry<D>>, e: Entry<D>, x: seq<Entry<D>>, a: seq<Entry<D>>, k: Key)
    requires Sorted(b + (l + [e] + x) + a) && |l| >= 1 && |x| == 1 && x[0].key == k
    ensures RemoveEntry(b + (l + [e] + x) + a, k) == b + (l[..|l| - 1] + [l[|l| - 1]] + [e]) + a
  {
    var s := l + [e] + x;
    assert s[|l| + 1].key == k;
    RemoveInside(b, s, a, k);
    MiddleSorted(b, s, a);
    RemoveAtIs(s, |l| + 1);
    hide RemoveEntry, Sorted;
    assert l[..|l| - 1] + [l[|l| - 1]] + [e] == RemoveAt(s, |l| + 1);
  }

  lemma LendLeftList<D>(p: Tree<D>, i: nat)
    requires LeafKids(p, i) && i > 0 && |p.kids[i - 1].entries| >= 1
    ensures var l, e := p.kids[i - 1].entries, p.entries[i - 1];
            List(LendLeft(p, i)) == Before(Lists(p.kids), p.entries, i - 1) + (l[..|l| - 1] + [l[|l| - 1]] + [e])
                                    + After(Lists(p.kids), p.entries, i)
  {
    var q, l, e := LendLeft(p, i), p.kids[i - 1].entries, p.entries[i - 1];
    InterleavePairUpdate(Lists(p.kids), p.entries, i - 1, l[..|l| - 1], l[|l| - 1], [e]);
    assert Lists(q.kids) == Lists(p.kids)[i - 1 := l[..|l| - 1]][i := [e]];
  }

  lemma LendRightRemoves<D>(p: Tree<D>, i: nat, k: Key)
    requires LeafKids(p, i) && i + 1 < |p.kids| && |p.kids[i + 1].entries| >= 1 && Sorted(List(p))
    requires |p.kids[i].entries| == 1 && p.kids[i].entries[0].key == k
    ensures List(LendRight(p, i)) == RemoveEntry(List(p), k)
  {
    var q, r, e, x := LendRight(p, i), p.kids[i + 1].entries, p.entries[i], p.kids[i].entries;
    var b, a := Before(Lists(p.kids), p.entries, i), After(Lists(p.kids), p.entries, i + 1);
    LeafPair(p, i);
    assert (x + [e] + r)[0].key == k;
    RemoveInside(b, x + [e] + r, a, k);
    InterleavePairUpdate(Lists(p.kids), p.entries, i, [e], r[0], r[1..]);
    assert Lists(q.kids) == Lists(p.kids)[i := [e]][i + 1 := r[1..]];
    assert [e] + [r[0]] + r[1..] == (x + [e] + r)[1..];
  }

  lemma CollapseRemoves<D>(p: Tree<D>, i: nat, k: Key)
    requires LeafKids(p, i) && |p.kids| == 2 && Sorted(List(p))
    requires |p.kids[i].entries| == 1 && p.kids[i].entries[0].key == k
    ensures List(Collapse(p, i)) == RemoveEntry(List(p), k)
  {
    var l, e, r := p.kids[0].entries, p.entries[0], p.kids[1].entries;
    LeafPair(p, 0);
    assert List(p) == l + [e] + r;
    if i == 1 { RemoveAtIs(List(p), |l| + 1); } else { assert (l + [e] + r)[1..] == [e] + r; }
  }
}
