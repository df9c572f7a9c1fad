/** The start of a safe session: the overlay of an untouched normal file shows its tree, all homes normal. */
module SafeStart {
  import opened Seqs
  import opened BTreeSpec
  import opened BTreeInsert
  import opened BTreeHeap
  import opened BTreeStep
  import opened IndexTree
  import opened SafeTable

  /** The records at the addresses s. */
  ghost function Part<D>(h: Heap<D>, s: set<Addr>): Heap<D> { map x | x in h && x in s :: h[x] }

  ghost function TagEntries(s: seq<Entry<Ptr>>): seq<Entry<Located>> {
    seq(|s|, i requires 0 <= i < |s| => Entry(s[i].key, Located(s[i].data, AtNormal)))
  }

  ghost function TagTree(t: Tree<Ptr>): Tree<Located> {
    Tree(t.addr, TagEntries(t.entries), seq(|t.kids|, i requires 0 <= i < |t.kids| => TagTree(t.kids[i])))
  }

  ghost function TagAll(h: Heap<Ptr>): Heap<Located> { map x | x in h :: Tag(h[x], ALL_NORMAL) }

  lemma TagRecord(t: Tree<Ptr>, parent: Addr)
    requires |t.entries| <= MAX_KEYS
    ensures Record(TagTree(t), parent) == Tag(Record(t, parent), ALL_NORMAL)
  {
    assert Addrs(TagTree(t).kids) == Addrs(t.kids);
  }

  ghost predicate Narrow<D>(t: Tree<D>) {
    |t.entries| <= MAX_KEYS && forall i | 0 <= i < |t.kids| :: Narrow(t.kids[i])
  }

  lemma {:induction false} BalancedNarrow<D>(t: Tree<D>, height: nat)
    requires Balanced(t, height) && |t.entries| <= MAX_KEYS
    ensures Narrow(t)
    decreases height
  {
    if height > 0 {
      assert Siblings(t.kids, height - 1);
      forall i | 0 <= i < |t.kids| ensures Narrow(t.kids[i]) {
        assert Fit(t.kids[i], height - 1);
        BalancedNarrow(t.kids[i], height - 1);
      }
    }
  }

  lemma {:induction false} TagStored(h: Heap<Ptr>, t: Tree<Ptr>, parent: Addr)
    requires Stored(h, t, parent) && Narrow(t)
    ensures Stored(TagAll(h), TagTree(t), parent)
  {
    TagRecord(t, parent);
    forall i | 0 <= i < |t.kids| ensures Stored(TagAll(h), TagTree(t).kids[i], t.addr) {
      TagStored(h, t.kids[i], t.addr);
    }
  }

  lemma {:induction false} TagCells(t: Tree<Ptr>)
    ensures Cells(TagTree(t)) == Cells(t) && (Distinct(t) ==> Distinct(TagTree(t)))
  {
    var u := TagTree(t);
    forall i | 0 <= i < |t.kids| ensures Cells(u.kids[i]) == Cells(t.kids[i]) && (Distinct(t.kids[i]) ==> Distinct(u.kids[i])) {
      TagCells(t.kids[i]);
    }
    assert KidCells(u.kids) == KidCells(t.kids);
    if Distinct(t) {
      assert DistinctKids(t.kids);
      forall i, j | 0 <= i < j < |u.kids| ensures Cells(u.kids[i]) !! Cells(u.kids[j]) {
        assert Cells(t.kids[i]) !! Cells(t.kids[j]);
      }
      assert DistinctKids(u.kids);
    }
  }

  lemma {:induction false} TagBalanced(t: Tree<Ptr>, height: nat)
    requires Balanced(t, height)
    ensures Balanced(TagTree(t), height)
    decreases height
  {
    var u := TagTree(t);
    if height > 0 {
      assert Siblings(t.kids, height - 1);
      forall i | 0 <= i < |u.kids| ensures Fit(u.kids[i], height - 1) {
        assert Fit(t.kids[i], height - 1);
        TagBalanced(t.kids[i], height - 1);
      }
    }
  }

  lemma {:induction false} TagInterleave(runs: seq<seq<Entry<Ptr>>>, seps: seq<Entry<Ptr>>, tagged: seq<seq<Entry<Located>>>)
    requires |tagged| == |runs| && forall i | 0 <= i < |runs| :: tagged[i] == TagEntries(runs[i])
    ensures Interleave(tagged, TagEntries(seps)) == TagEntries(Interleave(runs, seps))
    decreases |seps|
  {
    if runs != [] && seps != [] {
      TagInterleave(runs[1..], seps[1..], tagged[1..]);
      assert TagEntries(seps)[1..] == TagEntries(seps[1..]);
      TagJoin(runs[0], seps[0], Interleave(runs[1..], seps[1..]));
    }
  }

  lemma TagJoin(a: seq<Entry<Ptr>>, e: Entry<Ptr>, b: seq<Entry<Ptr>>)
    ensures TagEntries(a + [e] + b) == TagEntries(a) + [TagEntries([e])[0]] + TagEntries(b)
  {
  }

  lemma {:induction false} TagList(t: Tree<Ptr>)
    ensures List(TagTree(t)) == TagEntries(List(t))
  {
    var u := TagTree(t);
    if t.kids != [] {
      forall i | 0 <= i < |t.kids| ensures Lists(u.kids)[i] == TagEntries(Lists(t.kids)[i]) { TagList(t.kids[i]); }
      TagInterleave(Lists(t.kids), t.entries, Lists(u.kids));
    }
  }

  lemma TagWellFormed(t: Tree<Ptr>, height: nat)
    requires WellFormed(t, height)
    ensures WellFormed(TagTree(t), height)
  {
    TagBalanced(t, height);
    TagList(t);
  }

  // ---------------------------------------------------------------- the records of a tree lead to each other

  ghost predicate Closed<D>(h: Heap<D>, s: set<Addr>, top: Addr) {
    forall x | x in s ::
      x in h && (h[x].parent in s || h[x].parent == top) && forall c | c in h[x].kids :: c in s
  }

  lemma {:induction false} StoredClosed<D>(h: Heap<D>, t: Tree<D>, parent: Addr)
    requires Stored(h, t, parent)
    ensures Closed(h, Cells(t), parent)
  {
    AddrsInCells(t.kids);
    forall x | x in Cells(t)
      ensures x in h && (h[x].parent in Cells(t) || h[x].parent == parent) && forall c | c in h[x].kids :: c in Cells(t)
    {
      if x in KidCells(t.kids) {
        var i :| 0 <= i < |t.kids| && x in Cells(t.kids[i]);
        StoredClosed(h, t.kids[i], t.addr);
      }
    }
  }

  lemma PartClosed(h: Heap<Ptr>, t: Tree<Ptr>)
    requires Stored(h, t, NULL)
    ensures forall x | x in Part(h, Cells(t)) ::
              Sound(Overlay(Part(h, Cells(t)), map[], map[], map[]), Tag(h[x], ALL_NORMAL))
  {
    StoredClosed(h, t, NULL);
  }

  ghost function Untouching(h: Heap<Ptr>, t: Tree<Ptr>): Overlay {
    Overlay(Part(h, Cells(t)), map[], map[], map[])
  }

  /** Before the first write the overlay shows the normal tree. */
  lemma StartConsistent(h: Heap<Ptr>, next: Addr, t: Tree<Ptr>, height: nat)
    requires Stored(h, t, NULL) && WellFormed(t, height) && InUse(Cells(t), next) && Allotted(h, next)
    ensures Consistent(Untouching(h, t), TagAll(Part(h, Cells(t))), SAFE_FIRST, next)
    ensures Stored(TagAll(Part(h, Cells(t))), TagTree(t), NULL)
  {
    var v, flat := Untouching(h, t), TagAll(Part(h, Cells(t)));
    BalancedNarrow(t, height);
    StoredFrame(h, v.normal, t, NULL);
    TagStored(v.normal, t, NULL);
    PartClosed(h, t);
    hide Stored, Balanced, Sound, Cells;
    forall x | Live(v, x)
      ensures Sound(v, Item(v, x)) && Id(v.origin, x) in flat && flat[Id(v.origin, x)] == Lift(v.origin, Item(v, x))
    {
      LiftNothing(Item(v, x));
    }
  }

  lemma LiftNothing<D>(n: Node<D>)
    ensures Lift(map[], n) == n
  {
  }
}
