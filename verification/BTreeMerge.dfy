/**
  What becomes of a removal that drains an inner node: its two leaves became one, and the node above
  must do without it.  Only one of the ways the source then takes leaves a tree behind.
*/
module BTreeMerge {
  import opened Seqs
  import opened BTreeSpec
  import opened BTreeInsert
  import opened BTreeHeap
  import opened BTreeStep
  import opened BTreeRemove
  import opened BTreeShrink

  // ---------------------------------------------------------------- two runs become one

  /** Runs i and i + 1 and their separator replaced by one run. */
  lemma InterleaveMerge<E>(runs: seq<seq<E>>, seps: seq<E>, i: nat, x: seq<E>)
    requires |runs| == |seps| + 1 && i < |seps|
    ensures Interleave(RemoveAt(runs[i := x], i + 1), RemoveAt(seps, i)) == Before(runs, seps, i) + x + After(runs, seps, i + 1)
  {
    var rs, ss := RemoveAt(runs[i := x], i + 1), RemoveAt(seps, i);
    InterleaveAround(rs, ss, i);
    assert rs[i] == x && rs[..i] == runs[..i] && rs[i + 1..] == runs[i + 2..];
    if i > 0 { assert ss[..i - 1] == seps[..i - 1] && ss[i - 1] == seps[i - 1]; }
    if i + 1 < |seps| { assert ss[i + 1..] == seps[i + 2..] && ss[i] == seps[i + 1]; }
  }

  /** One more run at the end. */
  lemma InterleaveSnoc<E>(runs: seq<seq<E>>, seps: seq<E>, e: E, x: seq<E>)
    requires |runs| == |seps| + 1
    ensures Interleave(runs + [x], seps + [e]) == Interleave(runs, seps) + [e] + x
  {
    InterleaveJoin(runs, seps, e, [x], []);
    assert seps + [e] + [] == seps + [e];
  }

  // ---------------------------------------------------------------- the trees

  /** The left neighbour of kid j, with the separator and the leaf m that is left of kid j. */
  ghost function Joined<D>(g: Tree<D>, j: nat, m: Tree<D>): Tree<D>
    requires 0 < j < |g.kids| == |g.entries| + 1
  {
    var l := g.kids[j - 1];
    Tree(l.addr, l.entries + [g.entries[j - 1]], l.kids + [m])
  }

  /** The node g without kid j, which was joined to its left neighbour. */
  ghost function JoinLeft<D>(g: Tree<D>, j: nat, m: Tree<D>): Tree<D>
    requires 0 < j < |g.kids| == |g.entries| + 1
  {
    Tree(g.addr, RemoveAt(g.entries, j - 1), RemoveAt(g.kids[j - 1 := Joined(g, j, m)], j))
  }

  lemma JoinedList<D>(g: Tree<D>, j: nat, m: Tree<D>)
    requires 0 < j < |g.kids| == |g.entries| + 1 && |g.kids[j - 1].kids| == |g.kids[j - 1].entries| + 1
    ensures List(Joined(g, j, m)) == List(g.kids[j - 1]) + [g.entries[j - 1]] + List(m)
  {
    var l := g.kids[j - 1];
    InterleaveSnoc(Lists(l.kids), l.entries, g.entries[j - 1], List(m));
    assert Lists(l.kids + [m]) == Lists(l.kids) + [List(m)];
  }

  /** The part of the list that joining changes loses exactly k, when kid j lost exactly k in becoming m. */
  lemma PairRemoves<D>(g: Tree<D>, j: nat, m: Tree<D>, k: Key)
    requires 0 < j < |g.kids| == |g.entries| + 1 && |g.kids[j - 1].kids| == |g.kids[j - 1].entries| + 1
    requires Sorted(List(g)) && !Absent(List(g.kids[j]), k) && List(m) == RemoveEntry(List(g.kids[j]), k)
    ensures var b, a := Before(Lists(g.kids), g.entries, j - 1), After(Lists(g.kids), g.entries, j);
            b + List(Joined(g, j, m)) + a == RemoveEntry(List(g), k) && !Absent(List(g), k)
  {
    var l, e, p := List(g.kids[j - 1]), g.entries[j - 1], List(g.kids[j]);
    var b, a := Before(Lists(g.kids), g.entries, j - 1), After(Lists(g.kids), g.entries, j);
    JoinedList(g, j, m);
    InterleavePair(Lists(g.kids), g.entries, j - 1);
    assert List(g) == b + (l + [e] + p) + a;
    hide *;
    MiddleSorted(b, l + [e] + p, a);
    EndRemoves(l + [e], p, k);
    RemoveInside(b, l + [e] + p, a, k);
    HasInside(b, l + [e] + p, a, k);
  }

  /** Joining loses exactly k. */
  lemma JoinedRemoves<D>(g: Tree<D>, j: nat, m: Tree<D>, k: Key)
    requires 0 < j < |g.kids| == |g.entries| + 1 && |g.kids[j - 1].kids| == |g.kids[j - 1].entries| + 1
    requires Sorted(List(g)) && !Absent(List(g.kids[j]), k) && List(m) == RemoveEntry(List(g.kids[j]), k)
    ensures !Absent(List(g), k)
    ensures |g.entries| > 1 ==> List(JoinLeft(g, j, m)) == RemoveEntry(List(g), k)
    ensures |g.entries| == 1 ==> List(Joined(g, j, m)) == RemoveEntry(List(g), k)
  {
    var x := List(Joined(g, j, m));
    PairRemoves(g, j, m, k);
    if |g.entries| == 1 {
      hide List, RemoveEntry, Joined;
      assert [] + x + [] == x;
    } else {
      InterleaveMerge(Lists(g.kids), g.entries, j - 1, x);
      assert Lists(RemoveAt(g.kids[j - 1 := Joined(g, j, m)], j)) == RemoveAt(Lists(g.kids)[j - 1 := x], j);
      hide Joined, RemoveEntry, Before, After, Interleave;
    }
  }

  lemma EndRemoves<D>(b: seq<Entry<D>>, x: seq<Entry<D>>, k: Key)
    requires Sorted(b + x) && !Absent(x, k)
    ensures RemoveEntry(b + x, k) == b + RemoveEntry(x, k) && !Absent(b + x, k)
  {
    assert b + x + [] == b + x;
    RemoveInside(b, x, [], k);
    HasInside(b, x, [], k);
    assert b + RemoveEntry(x, k) + [] == b + RemoveEntry(x, k);
  }

  lemma HasInside<D>(b: seq<Entry<D>>, x: seq<Entry<D>>, a: seq<Entry<D>>, k: Key)
    requires !Absent(x, k)
    ensures !Absent(b + x + a, k)
  {
    var i :| 0 <= i < |x| && x[i].key == k;
    assert (b + x + a)[|b| + i] == x[i];
  }

  // ---------------------------------------------------------------- shape and cells

  /** The leaf m is what is left of kid j of g, a node over leaves whose left neighbour has one entry. */
  ghost predicate Joinable<D>(g: Tree<D>, j: nat, m: Tree<D>) {
    && Balanced(g, 2) && Distinct(g) && 0 < j < |g.kids| && |g.kids[j - 1].entries| == 1
    && m.kids == [] && 1 <= |m.entries| <= MAX_KEYS && m.addr in Cells(g.kids[j])
  }

  lemma KidOf<D>(g: Tree<D>, x: nat)
    requires Balanced(g, 2) && Distinct(g) && x < |g.kids|
    ensures |g.kids| == |g.entries| + 1 && Fit(g.kids[x], 1)
    ensures g.addr !in Cells(g.kids[x]) && Distinct(g.kids[x]) && Cells(g.kids[x]) <= Cells(g)
  {
    assert Siblings(g.kids, 1);
    hide Balanced;
    assert Cells(g.kids[x]) <= KidCells(g.kids);
  }

  lemma KidsApart<D>(g: Tree<D>, x: nat, y: nat)
    requires Distinct(g) && x < |g.kids| && y < |g.kids| && x != y
    ensures Cells(g.kids[x]) !! Cells(g.kids[y])
  {
  }

  lemma JoinedFits<D>(g: Tree<D>, j: nat, m: Tree<D>)
    requires Joinable(g, j, m)
    ensures |g.kids| == |g.entries| + 1 && |g.kids[j - 1].kids| == |g.kids[j - 1].entries| + 1
    ensures Fit(Joined(g, j, m), 1) && Distinct(Joined(g, j, m))
    ensures Cells(Joined(g, j, m)) == Cells(g.kids[j - 1]) + {m.addr} && Cells(Joined(g, j, m)) <= Cells(g)
  {
    KidOf(g, j - 1);
    KidOf(g, j);
    KidsApart(g, j - 1, j);
    var l, u := g.kids[j - 1], Joined(g, j, m);
    assert Fit(l, 1) && Siblings(l.kids, 0);
    forall x | 0 <= x < |u.kids| ensures Fit(u.kids[x], 0) { if x < |l.kids| { assert Fit(l.kids[x], 0); } }
    LeafCell(m);
    KidCellsJoin(l.kids, [m]);
    OneKid(m);
    assert Cells(l) !! Cells(g.kids[j]);
    DistinctJoin(l.kids, [m]);
  }

  lemma LeafCell<D>(m: Tree<D>)
    requires m.kids == []
    ensures Cells(m) == {m.addr} && Distinct(m)
  {
    assert KidCells(m.kids) == {};
  }

  lemma OneKid<D>(m: Tree<D>)
    ensures KidCells([m]) == Cells(m) && (Distinct(m) ==> DistinctKids([m]))
  {
    assert [m][0] == m;
  }

  lemma JoinLeftFits<D>(g: Tree<D>, j: nat, m: Tree<D>)
    requires Joinable(g, j, m)
    ensures |g.kids| == |g.entries| + 1
    ensures Distinct(JoinLeft(g, j, m)) && Cells(JoinLeft(g, j, m)) <= Cells(g)
    ensures |g.entries| > 1 ==> Balanced(JoinLeft(g, j, m), 2)
  {
    KidOf(g, j);
    JoinedFits(g, j, m);
    var q := JoinLeft(g, j, m);
    forall x | 0 <= x < |q.kids| ensures Fit(q.kids[x], 1) && Distinct(q.kids[x]) && g.addr !in Cells(q.kids[x]) && Cells(q.kids[x]) <= Cells(g) {
      LeftKid(g, j, m, x);
    }
    forall x, y | 0 <= x < y < |q.kids| ensures Cells(q.kids[x]) !! Cells(q.kids[y]) { LeftKidsApart(g, j, m, x, y); }
    hide Joined, JoinLeft, Fit, Joinable;
    assert g.addr !in KidCells(q.kids) && KidCells(q.kids) <= Cells(g);
    JoinLeftIs(g, j, m);
  }

  lemma JoinLeftIs<D>(g: Tree<D>, j: nat, m: Tree<D>)
    requires 0 < j < |g.kids| == |g.entries| + 1
    ensures JoinLeft(g, j, m).addr == g.addr && |JoinLeft(g, j, m).kids| == |g.entries| == |JoinLeft(g, j, m).entries| + 1
    ensures (forall x | 0 <= x < |g.entries| :: Fit(JoinLeft(g, j, m).kids[x], 1)) ==> Balanced(JoinLeft(g, j, m), 2)
  {
  }

  /** The kids that are left. */
  lemma LeftKid<D>(g: Tree<D>, j: nat, m: Tree<D>, x: nat)
    requires Joinable(g, j, m) && 0 < j && x + 1 < |g.kids|
    ensures |g.kids| == |g.entries| + 1
    ensures var c := JoinLeft(g, j, m).kids[x];
            && c == (if x == j - 1 then Joined(g, j, m) else if x < j then g.kids[x] else g.kids[x + 1])
            && Fit(c, 1) && Distinct(c) && g.addr !in Cells(c) && Cells(c) <= Cells(g)
  {
    KidOf(g, j);
    JoinLeftKid(g, j, m, x);
    JoinedFits(g, j, m);
    hide *;
    if x < j - 1 { KidOf(g, x); } else if x > j - 1 { KidOf(g, x + 1); } else { KidOf(g, j - 1); JoinedAddr(g, j, m); }
  }

  lemma JoinedAddr<D>(g: Tree<D>, j: nat, m: Tree<D>)
    requires Joinable(g, j, m)
    ensures |g.kids| == |g.entries| + 1 && g.addr !in Cells(Joined(g, j, m))
  {
    KidOf(g, j - 1);
    KidOf(g, j);
    JoinedFits(g, j, m);
    hide Joined, Cells;
  }

  lemma JoinLeftKid<D>(g: Tree<D>, j: nat, m: Tree<D>, x: nat)
    requires 0 < j < |g.kids| == |g.entries| + 1 && x < |g.entries|
    ensures x < |JoinLeft(g, j, m).kids|
    ensures JoinLeft(g, j, m).kids[x] == if x == j - 1 then Joined(g, j, m) else if x < j then g.kids[x] else g.kids[x + 1]
  {
    hide Joined;
  }

  lemma LeftKidsApart<D>(g: Tree<D>, j: nat, m: Tree<D>, x: nat, y: nat)
    requires Joinable(g, j, m) && x < y && y + 1 < |g.kids|
    ensures |g.kids| == |g.entries| + 1
    ensures Cells(JoinLeft(g, j, m).kids[x]) !! Cells(JoinLeft(g, j, m).kids[y])
  {
    LeftKid(g, j, m, x);
    LeftKid(g, j, m, y);
    JoinedFits(g, j, m);
    var v, w := if x < j then x else x + 1, if y < j then y else y + 1;
    KidsApart(g, v, w);
    if v != j { KidsApart(g, v, j); }
    if w != j { KidsApart(g, w, j); }
    hide Fit, Distinct, Joined, Balanced, JoinLeft;
  }

  // ---------------------------------------------------------------- the writes

  ghost predicate Drains<D>(h: Heap<D>, a: Addr, i: nat) {
    a in h && i < 2 && |h[a].keys| == |h[a].data| == 1 && |h[a].kids| == 2 && h[a].kids[1 - i] in h
  }

  /** After the leaf i of the one-key node a was merged into its neighbour: a has one child and nothing else. */
  ghost function DrainNodes<D>(h: Heap<D>, a: Addr, i: nat): Heap<D>
    requires Drains(h, a, i)
  {
    var p := h[a];
    var s := h[p.kids[1 - i]];
    h[p.kids[1 - i] := if i == 1 then s.(keys := s.keys + p.keys, data := s.data + p.data)
                       else s.(keys := p.keys + s.keys, data := p.data + s.data)]
     [a := p.(keys := [], data := [], kids := RemoveAt(p.kids, i))]
  }

  /** The store spells g, but for kid j: a node without entries above the leaf m. */
  ghost predicate Drained<D>(h: Heap<D>, g: Tree<D>, parent: Addr, j: nat, m: Tree<D>) {
    && g.addr in h && h[g.addr] == Record(g, parent) && j < |g.kids|
    && (forall x | 0 <= x < |g.kids| && x != j :: Stored(h, g.kids[x], g.addr))
    && g.kids[j].addr in h && h[g.kids[j].addr] == Node(g.addr, [], [], [m.addr])
    && m.addr in h && h[m.addr] == Record(m, g.kids[j].addr)
  }

  lemma DrainRecords<D>(h: Heap<D>, p: Tree<D>, parent: Addr, i: nat)
    requires Stored(h, p, parent) && Distinct(p) && LeafKids(p, i) && |p.kids| == 2
    ensures Drains(h, p.addr, i)
    ensures var h', m := DrainNodes(h, p.addr, i), Collapse(p, i);
            && p.addr in h' && h'[p.addr] == Node(parent, [], [], [m.addr]) && m.addr in h' && h'[m.addr] == Record(m, p.addr)
            && m.addr != p.addr && m.addr in Cells(p) && p.addr in Cells(p) && Untouched(h, h', Cells(p)) && h'.Keys == h.Keys
  {
    LeafRecords(h, p, parent, i);
    LeafCells(p, i);
    CollapseRecord(p, i);
    var m := Collapse(p, i);
    assert m.addr == p.kids[1 - i].addr && m.addr in KidCells(p.kids);
    assert Keys(p.entries) == [p.entries[0].key] && Data(p.entries) == [p.entries[0].data];
    assert RemoveAt(Addrs(p.kids), i) == [m.addr];
  }

  /** Draining kid j of g leaves the rest of g alone. */
  lemma DrainGivesDrained<D>(h: Heap<D>, g: Tree<D>, parent: Addr, j: nat, i: nat)
    requires Stored(h, g, parent) && Distinct(g) && j < |g.kids| && LeafKids(g.kids[j], i) && |g.kids[j].kids| == 2
    ensures var p := g.kids[j];
            && Drains(h, p.addr, i)
            && Drained(DrainNodes(h, p.addr, i), g, parent, j, Collapse(p, i))
            && Untouched(h, DrainNodes(h, p.addr, i), Cells(g)) && Collapse(p, i).addr in Cells(p)
  {
    var p := g.kids[j];
    assert Cells(p) <= KidCells(g.kids);
    DrainRecords(h, p, g.addr, i);
    var h' := DrainNodes(h, p.addr, i);
    hide DrainNodes, Collapse;
    forall x | 0 <= x < |g.kids| && x != j ensures Stored(h', g.kids[x], g.addr) {
      KidsApart(g, x, j);
      StoredFrame(h, h', g.kids[x], g.addr);
    }
  }

  ghost predicate JoinsHere<D>(h: Heap<D>, a: Addr, j: nat) {
    && a in h && 0 < j < |h[a].kids| && j <= |h[a].keys| && j <= |h[a].data|
    && h[a].kids[j - 1] in h && h[a].kids[j] in h && |h[h[a].kids[j]].kids| == 1 && h[h[a].kids[j]].kids[0] in h
    && h[h[a].kids[j]].kids[0] !in {a, h[a].kids[j - 1]} && h[a].kids[j - 1] !in {a, h[a].kids[j]}
  }

  /** The drained kid j joined to its left neighbour. */
  ghost function JoinNodes<D>(h: Heap<D>, a: Addr, j: nat): Heap<D>
    requires JoinsHere(h, a, j)
  {
    var g := h[a];
    var l, c := h[g.kids[j - 1]], h[g.kids[j]].kids[0];
    h[g.kids[j - 1] := l.(keys := l.keys + [g.keys[j - 1]], data := l.data + [g.data[j - 1]], kids := l.kids + [c])]
     [c := h[c].(parent := g.kids[j - 1])]
     [a := g.(keys := RemoveAt(g.keys, j - 1), data := RemoveAt(g.data, j - 1), kids := RemoveAt(g.kids, j))]
  }

  lemma JoinReady<D>(h: Heap<D>, g: Tree<D>, parent: Addr, j: nat, m: Tree<D>)
    requires Drained(h, g, parent, j, m) && 0 < j < |g.kids| == |g.entries| + 1
    ensures g.addr in h && j < |h[g.addr].kids| && j <= |h[g.addr].keys| && j <= |h[g.addr].data|
    ensures h[g.addr].kids[j - 1] == g.kids[j - 1].addr && h[g.addr].kids[j] == g.kids[j].addr
    ensures g.kids[j - 1].addr in h && h[g.kids[j - 1].addr] == Record(g.kids[j - 1], g.addr)
    ensures g.kids[j].addr in h && h[g.kids[j].addr].kids == [m.addr] && m.addr in h
  {
    assert Stored(h, g.kids[j - 1], g.addr);
  }

  /** What joining writes, record by record. */
  lemma JoinRecords<D>(h: Heap<D>, g: Tree<D>, parent: Addr, j: nat, m: Tree<D>)
    requires Drained(h, g, parent, j, m) && Joinable(g, j, m)
    ensures JoinsHere(h, g.addr, j) && |g.kids| == |g.entries| + 1
    ensures var h', l := JoinNodes(h, g.addr, j), g.kids[j - 1];
            && l.addr in h' && h'[l.addr] == Record(Joined(g, j, m), g.addr)
            && m.addr in h' && h'[m.addr] == Record(m, l.addr)
            && g.addr in h' && h'[g.addr] == Record(JoinLeft(g, j, m), parent)
            && h'.Keys == h.Keys && (forall x | x in h && x != l.addr && x != m.addr && x != g.addr :: h'[x] == h[x])
  {
    KidOf(g, j);
    KidOf(g, j - 1);
    KidsApart(g, j - 1, j);
    JoinReady(h, g, parent, j, m);
    var l := g.kids[j - 1];
    assert l.addr in Cells(l) && g.kids[j].addr in Cells(g.kids[j]);
    assert l.addr != m.addr && m.addr != g.addr && l.addr != g.addr && g.kids[j].addr != l.addr;
    hide Drained, Joinable, Cells, Distinct, Balanced, Fit;
    JoinedRecord(g, j, m);
    JoinLeftRecord(g, j, m);
    hide Joined, JoinLeft;
  }

  lemma JoinedRecord<D>(g: Tree<D>, j: nat, m: Tree<D>)
    requires 0 < j < |g.kids| == |g.entries| + 1
    ensures var u, l := Joined(g, j, m), g.kids[j - 1];
            && Keys(u.entries) == Keys(l.entries) + [Keys(g.entries)[j - 1]] && Data(u.entries) == Data(l.entries) + [Data(g.entries)[j - 1]]
            && Addrs(u.kids) == Addrs(l.kids) + [m.addr] && u.addr == l.addr
  {
  }

  lemma JoinLeftRecord<D>(g: Tree<D>, j: nat, m: Tree<D>)
    requires 0 < j < |g.kids| == |g.entries| + 1
    ensures var q := JoinLeft(g, j, m);
            && Keys(q.entries) == RemoveAt(Keys(g.entries), j - 1) && Data(q.entries) == RemoveAt(Data(g.entries), j - 1)
            && Addrs(q.kids) == RemoveAt(Addrs(g.kids), j) && q.addr == g.addr
  {
  }

  /** After joining the store spells the joined tree. */
  lemma JoinStored<D>(h: Heap<D>, g: Tree<D>, parent: Addr, j: nat, m: Tree<D>)
    requires Drained(h, g, parent, j, m) && Joinable(g, j, m)
    ensures JoinsHere(h, g.addr, j) && |g.kids| == |g.entries| + 1
    ensures Stored(JoinNodes(h, g.addr, j), JoinLeft(g, j, m), parent) && Stored(JoinNodes(h, g.addr, j), Joined(g, j, m), g.addr)
    ensures Untouched(h, JoinNodes(h, g.addr, j), Cells(g))
  {
    JoinRecords(h, g, parent, j, m);
    var h', u, q, l := JoinNodes(h, g.addr, j), Joined(g, j, m), JoinLeft(g, j, m), g.kids[j - 1];
    KidOf(g, j);
    KidOf(g, j - 1);
    KidsApart(g, j - 1, j);
    assert Stored(h, l, g.addr);
    hide JoinNodes, JoinLeft;
    forall x | 0 <= x < |u.kids| ensures Stored(h', u.kids[x], l.addr) {
      if x < |l.kids| {
        assert Cells(l.kids[x]) <= KidCells(l.kids);
        StoredFrame(h, h', l.kids[x], l.addr);
      }
    }
    assert Stored(h', u, g.addr);
    forall x | 0 <= x < |q.kids| ensures Stored(h', q.kids[x], g.addr) { JoinedKid(h, h', g, parent, j, m, x); }
    assert l.addr in Cells(l);
  }

  lemma JoinedKid<D>(h: Heap<D>, h': Heap<D>, g: Tree<D>, parent: Addr, j: nat, m: Tree<D>, x: nat)
    requires Drained(h, g, parent, j, m) && Joinable(g, j, m) && |g.kids| == |g.entries| + 1 && x < |JoinLeft(g, j, m).kids|
    requires h'.Keys == h.Keys && (forall y | y in h && y != g.kids[j - 1].addr && y != m.addr && y != g.addr :: h'[y] == h[y])
    requires Stored(h', Joined(g, j, m), g.addr)
    ensures Stored(h', JoinLeft(g, j, m).kids[x], g.addr)
  {
    JoinLeftKid(g, j, m, x);
    if x != j - 1 {
      var v := if x < j then x else x + 1;
      KidOf(g, v);
      KidsApart(g, v, j - 1);
      KidsApart(g, v, j);
      assert g.kids[j - 1].addr in Cells(g.kids[j - 1]);
      assert Stored(h, g.kids[v], g.addr);
      hide Drained, Joined, JoinLeft, Balanced, Fit, Distinct;
      StoredFrame(h, h', g.kids[v], g.addr);
    }
  }

  ghost predicate JoinsRight<D>(h: Heap<D>, a: Addr) {
    && a in h && |h[a].kids| >= 2 && |h[a].keys| >= 1 && |h[a].data| >= 1 && h[a].kids[0] in h && h[a].kids[1] in h
    && |h[h[a].kids[0]].kids| == 1 && |h[h[a].kids[1]].kids| >= 1 && h[h[a].kids[1]].kids[|h[h[a].kids[1]].kids| - 1] in h
    && h[h[a].kids[1]].kids[|h[h[a].kids[1]].kids| - 1] !in {a, h[a].kids[1]} && h[a].kids[1] !in {a, h[a].kids[0]}
  }

  /** A drained first child gives way to its right neighbour: its child moves there and keeps its old parent address. */
  ghost function JoinRightNodes<D>(h: Heap<D>, a: Addr): Heap<D>
    requires JoinsRight(h, a)
  {
    var g := h[a];
    var r, c := h[g.kids[1]], h[g.kids[0]].kids[0];
    var last := r.kids[|r.kids| - 1];
    h[g.kids[1] := r.(keys := [g.keys[0]] + r.keys, data := [g.data[0]] + r.data, kids := [c] + r.kids)]
     [last := h[last].(parent := g.kids[1])]
     [a := g.(keys := g.keys[1..], data := g.data[1..], kids := g.kids[1..])]
  }

  ghost predicate Borrows<D>(h: Heap<D>, a: Addr, j: nat) {
    && a in h && j + 1 < |h[a].kids| && |h[a].keys| >= 1 && |h[a].data| >= 1 && h[a].kids[j] in h && h[a].kids[j + 1] in h
    && h[a].kids[j] != a && h[a].kids[j + 1] !in {a, h[a].kids[j]}
    && var r := h[h[a].kids[j + 1]];
       |r.keys| >= 1 && |r.data| >= 1 && |r.kids| >= 1 && r.kids[0] in h && r.kids[0] !in {a, h[a].kids[j], h[a].kids[j + 1]}
  }

  /** The right neighbour lends a child and its first key: the node above is left with that key, the borrower without a data pointer. */
  ghost function BorrowNodes<D>(h: Heap<D>, a: Addr, j: nat): Heap<D>
    requires Borrows(h, a, j)
  {
    var g := h[a];
    var p, r := h[g.kids[j]], h[g.kids[j + 1]];
    h[g.kids[j] := p.(keys := [g.keys[0]], kids := p.kids + [r.kids[0]])]
     [a := g.(keys := [r.keys[0]], data := [r.data[0]])]
     [g.kids[j + 1] := r.(keys := r.keys[1..], data := r.data[1..], kids := r.kids[1..])]
     [r.kids[0] := h[r.kids[0]].(parent := g.kids[j])]
  }

  // ---------------------------------------------------------------- the scene

  /** The only entry, k, of leaf i of a one-key node, kid j of g, is to go, and the other leaf has one entry too. */
  ghost predicate Joints<D>(g: Tree<D>, j: nat, i: nat, k: Key) {
    && Balanced(g, 2) && Distinct(g) && Sorted(List(g)) && |g.kids| == |g.entries| + 1 && 1 <= |g.entries| <= MAX_KEYS && j < |g.kids|
    && LeafKids(g.kids[j], i) && |g.kids[j].kids| == 2 && Sorted(List(g.kids[j]))
    && |g.kids[j].kids[0].entries| == 1 == |g.kids[j].kids[1].entries| && g.kids[j].kids[i].entries[0].key == k
  }

  ghost predicate Scene<D>(h: Heap<D>, t: Tree<D>, height: nat, top: Path, j: nat, i: nat, k: Key) {
    && WellFormed(t, height) && Stored(h, t, NULL) && Distinct(t) && ValidPath(t, top) && Joints(Get(t, top), j, i, k)
    && |top| + 2 == height
  }

  /** The store after the leaf was drained. */
  ghost predicate DrainedAt<D>(h: Heap<D>, h': Heap<D>, t: Tree<D>, top: Path, j: nat, i: nat)
    requires ValidPath(t, top)
  {
    var g := Get(t, top);
    && j < |g.kids| && LeafKids(g.kids[j], i) && |g.kids[j].kids| == 2
    && Drained(h', g, ParentAddr(t, top, NULL), j, Collapse(g.kids[j], i)) && Untouched(h, h', Cells(g)) && h'.Keys == h.Keys
  }

  lemma SceneDrains<D>(h: Heap<D>, t: Tree<D>, height: nat, top: Path, j: nat, i: nat, k: Key)
    requires Scene(h, t, height, top, j, i, k)
    ensures var g := Get(t, top); var p := g.kids[j];
            && g.addr in h && h[g.addr] == Record(g, ParentAddr(t, top, NULL)) && Stored(h, p, g.addr)
            && Drains(h, p.addr, i)
            && DrainedAt(h, DrainNodes(h, p.addr, i), t, top, j, i)
  {
    var g := Get(t, top);
    StoredGet(h, t, NULL, top);
    DrainGivesDrained(h, g, ParentAddr(t, top, NULL), j, i);
    assert DrainNodes(h, g.kids[j].addr, i).Keys == h.Keys;
  }

  /** The leaf that is left holds what the drained node held, without k. */
  lemma LeafLeft<D>(g: Tree<D>, j: nat, i: nat, k: Key)
    requires Joints(g, j, i, k)
    ensures var p := g.kids[j]; var m := Collapse(p, i);
            && List(m) == RemoveEntry(List(p), k) && !Absent(List(p), k) && m.kids == [] && |m.entries| == 2 && m.addr in Cells(p)
            && (j > 0 && |g.kids[j - 1].entries| == 1 ==> Joinable(g, j, m))
  {
    var p := g.kids[j];
    HasKey(p, i, k);
    CollapseRemoves(p, i, k);
    assert Collapse(p, i).addr == p.kids[1 - i].addr && p.kids[1 - i].addr in Cells(p.kids[1 - i]);
  }

  // ---------------------------------------------------------------- where a tree is left

  /** The node a becomes the root. */
  ghost function Crowned<D>(h: Heap<D>, a: Addr): Heap<D>
    requires a in h
  {
    h[a := h[a].(parent := NULL)]
  }

  lemma StoredCrowned<D>(h: Heap<D>, u: Tree<D>, parent: Addr)
    requires Stored(h, u, parent) && Distinct(u)
    ensures Stored(Crowned(h, u.addr), u, NULL)
  {
    StoredKidsFrame(h, Crowned(h, u.addr), u.kids, u.addr);
  }

  /** Joining to the left below a node that keeps a key: the tree stays one, and only k is gone. */
  lemma JoinKeeps<D>(h: Heap<D>, h': Heap<D>, t: Tree<D>, height: nat, top: Path, j: nat, i: nat, k: Key)
    requires Scene(h, t, height, top, j, i, k) && DrainedAt(h, h', t, top, j, i)
    requires j > 0 && |Get(t, top).kids[j - 1].entries| == 1 && |Get(t, top).entries| >= 2
    ensures JoinsHere(h', Get(t, top).addr, j)
    ensures var g := Get(t, top);
            var u := Replace(t, top, JoinLeft(g, j, Collapse(g.kids[j], i)));
            && Stored(JoinNodes(h', g.addr, j), u, NULL) && Distinct(u) && u.addr == t.addr && Cells(u) <= Cells(t)
            && WellFormed(u, height) && List(u) == RemoveEntry(List(t), k)
  {
    var g := Get(t, top);
    var m := Collapse(g.kids[j], i);
    var parent, q, h2 := ParentAddr(t, top, NULL), JoinLeft(g, j, m), JoinNodes(h', g.addr, j);
    LeafLeft(g, j, i, k);
    JoinStored(h', g, parent, j, m);
    JoinLeftFits(g, j, m);
    KidOf(g, j - 1);
    JoinedRemoves(g, j, m, k);
    JoinLeftIs(g, j, m);
    hide JoinLeft, JoinNodes, Collapse, Balanced, Drained, Joinable, Stored, Distinct, List, RemoveEntry, Cells;
    PutBack(h, h2, t, height, top, q, k);
  }

  /** Joining to the left below a one-key root: the neighbour is the new root, and only k is gone. */
  lemma JoinCrowns<D>(h: Heap<D>, h': Heap<D>, t: Tree<D>, height: nat, j: nat, i: nat, k: Key)
    requires Scene(h, t, height, [], j, i, k) && DrainedAt(h, h', t, [], j, i)
    requires j > 0 && |t.kids[j - 1].entries| == 1 && |t.entries| == 1
    ensures JoinsHere(h', t.addr, j) && t.kids[j - 1].addr in JoinNodes(h', t.addr, j)
    ensures var u := Joined(t, j, Collapse(t.kids[j], i));
            && Stored(Crowned(JoinNodes(h', t.addr, j), t.kids[j - 1].addr), u, NULL) && Distinct(u) && Cells(u) <= Cells(t)
            && WellFormed(u, 1) && List(u) == RemoveEntry(List(t), k)
  {
    var m := Collapse(t.kids[j], i);
    assert Get(t, []) == t;
    LeafLeft(t, j, i, k);
    JoinStored(h', t, NULL, j, m);
    JoinedFits(t, j, m);
    KidOf(t, j - 1);
    JoinedRemoves(t, j, m, k);
    RemoveKeepsSorted(List(t), k);
    hide JoinLeft, JoinNodes, Collapse, Drained, Joinable, List, RemoveEntry, Cells;
    StoredCrowned(JoinNodes(h', t.addr, j), Joined(t, j, m), t.addr);
  }

  // ---------------------------------------------------------------- where none is left, or another one

  /** A store spells at most one tree at an address. */
  lemma {:induction false} SpelledOnce<D>(h: Heap<D>, u: Tree<D>, p: Addr, v: Tree<D>, q: Addr)
    requires Stored(h, u, p) && Stored(h, v, q) && u.addr == v.addr
    ensures u == v
  {
    assert Addrs(u.kids) == Addrs(v.kids) && Keys(u.entries) == Keys(v.entries) && Data(u.entries) == Data(v.entries);
    assert |u.kids| == |Addrs(u.kids)| == |v.kids| && |u.entries| == |Keys(u.entries)| == |v.entries|;
    forall x | 0 <= x < |u.kids| ensures u.kids[x] == v.kids[x] {
      assert Addrs(u.kids)[x] == Addrs(v.kids)[x];
      SpelledOnce(h, u.kids[x], u.addr, v.kids[x], v.addr);
    }
    forall x | 0 <= x < |u.entries| ensures u.entries[x] == v.entries[x] {
      assert Keys(u.entries)[x] == Keys(v.entries)[x] && Data(u.entries)[x] == Data(v.entries)[x];
    }
  }

  lemma {:induction false} RemoveShortens<D>(s: seq<Entry<D>>, k: Key)
    requires !Absent(s, k)
    ensures |RemoveEntry(s, k)| == |s| - 1
  {
    if s[0].key != k { RemoveShortens(s[1..], k); }
  }

  /** A proper part of a tree lists less than the whole. */
  lemma {:induction false} PartIsLess<D>(t: Tree<D>, height: nat, path: Path)
    requires Balanced(t, height) && ValidPath(t, path) && path != [] && |t.entries| >= 1
    ensures |List(Get(t, path))| < |List(t)|
    decreases |path|
  {
    var i := path[0];
    assert Siblings(t.kids, height - 1) && Fit(t.kids[i], height - 1);
    InterleaveAround(Lists(t.kids), t.entries, i);
    if |path| > 1 { PartIsLess(t.kids[i], height - 1, path[1..]); }
  }

  /** Joining to the left below any other one-key node makes the neighbour the root: what lies outside is lost. */
  lemma JoinLoses<D>(h: Heap<D>, h': Heap<D>, t: Tree<D>, height: nat, top: Path, j: nat, i: nat, k: Key, u: Tree<D>, q: Addr)
    requires Scene(h, t, height, top, j, i, k) && DrainedAt(h, h', t, top, j, i)
    requires j > 0 && |Get(t, top).kids[j - 1].entries| == 1 && |Get(t, top).entries| == 1 && top != []
    ensures JoinsHere(h', Get(t, top).addr, j) && Get(t, top).kids[j - 1].addr in JoinNodes(h', Get(t, top).addr, j)
    ensures var g := Get(t, top);
            u.addr == g.kids[j - 1].addr && Stored(Crowned(JoinNodes(h', g.addr, j), g.kids[j - 1].addr), u, q)
            ==> List(u) != RemoveEntry(List(t), k)
  {
    var g := Get(t, top);
    var m := Collapse(g.kids[j], i);
    LeafLeft(g, j, i, k);
    JoinStored(h', g, ParentAddr(t, top, NULL), j, m);
    var h2 := JoinNodes(h', g.addr, j);
    JoinedFits(g, j, m);
    KidOf(g, j - 1);
    JoinedRemoves(g, j, m, k);
    PartKeepsLess(t, height, top, k);
    hide JoinLeft, JoinNodes, Collapse, Drained, Joinable, Joints, List, RemoveEntry, Cells, WellFormed, JoinsHere, DrainedAt;
    StoredCrowned(h2, Joined(g, j, m), g.addr);
    if u.addr == g.kids[j - 1].addr && Stored(Crowned(h2, g.kids[j - 1].addr), u, q) {
      SpelledOnce(Crowned(h2, g.kids[j - 1].addr), u, q, Joined(g, j, m), NULL);
    }
  }

  lemma PartKeepsLess<D>(t: Tree<D>, height: nat, path: Path, k: Key)
    requires WellFormed(t, height) && ValidPath(t, path) && path != [] && !Absent(List(Get(t, path)), k)
    ensures RemoveEntry(List(Get(t, path)), k) != RemoveEntry(List(t), k)
  {
    RemoveShortens(List(Get(t, path)), k);
    PartIsLess(t, height, path);
    GoesBelow(t, height, path, k);
    RemoveShortens(List(t), k);
  }

  lemma GoesBelow<D>(t: Tree<D>, height: nat, path: Path, k: Key)
    requires WellFormed(t, height) && ValidPath(t, path) && !Absent(List(Get(t, path)), k)
    ensures !Absent(List(t), k)
    decreases |path|
  {
    if path != [] {
      ChildWellFormed(t, height, path[0]);
      GoesBelow(t.kids[path[0]], height - 1, path[1..], k);
      InterleaveAround(Lists(t.kids), t.entries, path[0]);
      HasInside(Before(Lists(t.kids), t.entries, path[0]), List(t.kids[path[0]]), After(Lists(t.kids), t.entries, path[0]), k);
    }
  }

  /** Above g nothing was written: a tree spelled at the root has the nodes of g at its place. */
  lemma SpelledAt<D>(h: Heap<D>, h2: Heap<D>, t: Tree<D>, height: nat, top: Path, j: nat, i: nat, k: Key, u: Tree<D>, q: Addr)
    requires Scene(h, t, height, top, j, i, k) && Untouched(h, h2, Cells(Get(t, top)))
    requires u.addr == t.addr && Stored(h2, u, q)
    ensures ValidPath(u, top) && Get(u, top).addr == Get(t, top).addr && Stored(h2, Get(u, top), ParentAddr(u, top, q))
  {
    StoredKeys(h, t, NULL);
    SpelledAlong(h, t, NULL, h2, u, q, top);
  }

  /** The record of kid x of a stored node. */
  lemma KidRecord<D>(h: Heap<D>, v: Tree<D>, parent: Addr, x: nat)
    requires Stored(h, v, parent) && x < |h[v.addr].kids|
    ensures var a := h[v.addr].kids[x]; a in h && |h[a].keys| == |h[a].data| && h[a].parent == v.addr
    ensures x < |v.kids| && v.kids[x].addr == h[v.addr].kids[x] && Stored(h, v.kids[x], v.addr)
  {
    assert |v.kids| == |Addrs(v.kids)| && Addrs(v.kids)[x] == v.kids[x].addr;
    assert StoredKids(h, v.kids, v.addr);
    assert Stored(h, v.kids[x], v.addr);
  }

  /** A borrowed key without a data pointer: no tree. */
  lemma BorrowBreaks<D>(h: Heap<D>, h': Heap<D>, t: Tree<D>, height: nat, top: Path, j: nat, i: nat, k: Key, u: Tree<D>, q: Addr)
    requires Scene(h, t, height, top, j, i, k) && DrainedAt(h, h', t, top, j, i)
    requires j + 1 < |Get(t, top).kids| && |Get(t, top).kids[j + 1].entries| >= 2 && u.addr == t.addr
    ensures Borrows(h', Get(t, top).addr, j) && !Stored(BorrowNodes(h', Get(t, top).addr, j), u, q)
  {
    var g := Get(t, top);
    LeafLeft(g, j, i, k);
    var h2 := BorrowRecords(h', g, ParentAddr(t, top, NULL), j, Collapse(g.kids[j], i));
    if Stored(h2, u, q) {
      SpelledAt(h, h2, t, height, top, j, i, k, u, q);
      KidRecord(h2, Get(u, top), ParentAddr(u, top, q), j);
      assert false;
    }
  }

  /** The neighbour of the drained kid: its record, its first child and last child. */
  lemma Neighbour<D>(h: Heap<D>, g: Tree<D>, parent: Addr, j: nat, m: Tree<D>, x: nat, y: nat)
    requires Drained(h, g, parent, j, m) && Balanced(g, 2) && Distinct(g) && j < |g.kids| && x < |g.kids| && x != j && y < |g.kids[x].kids|
    requires m.addr in Cells(g.kids[j])
    ensures |g.kids| == |g.entries| + 1 && |g.kids[x].kids| == |g.kids[x].entries| + 1 && |g.kids[x].entries| >= 1
    ensures g.addr in h && h[g.addr] == Record(g, parent) && g.kids[j].addr in h && h[g.kids[j].addr] == Node(g.addr, [], [], [m.addr])
    ensures m.addr in h && h[m.addr].parent == g.kids[j].addr
    ensures g.kids[x].addr in h && h[g.kids[x].addr] == Record(g.kids[x], g.addr) && g.kids[x].kids[y].addr in h
    ensures {g.kids[x].addr, g.kids[x].kids[y].addr, g.kids[j].addr, m.addr} <= Cells(g)
    ensures g.addr !in {g.kids[x].addr, g.kids[x].kids[y].addr, g.kids[j].addr, m.addr}
    ensures g.kids[x].addr !in {g.kids[x].kids[y].addr, g.kids[j].addr, m.addr}
    ensures g.kids[x].kids[y].addr !in {g.kids[j].addr, m.addr}
  {
    var r := g.kids[x];
    KidOf(g, j);
    KidOf(g, x);
    KidsApart(g, x, j);
    assert Stored(h, r, g.addr);
    assert StoredKids(h, r.kids, r.addr);
    assert Stored(h, r.kids[y], r.addr);
    assert r.kids[y].addr in Cells(r.kids[y]) && r.kids[y].addr in KidCells(r.kids) && r.addr in Cells(r) && g.kids[j].addr in Cells(g.kids[j]);
  }

  lemma BorrowRecords<D>(h: Heap<D>, g: Tree<D>, parent: Addr, j: nat, m: Tree<D>) returns (h': Heap<D>)
    requires Drained(h, g, parent, j, m) && Balanced(g, 2) && Distinct(g) && |g.entries| >= 1 && j + 1 < |g.kids|
    requires m.addr in Cells(g.kids[j])
    ensures Borrows(h, g.addr, j) && h' == BorrowNodes(h, g.addr, j) && Untouched(h, h', Cells(g))
    ensures g.addr in h' && h'[g.addr].kids == Addrs(g.kids)
    ensures g.kids[j].addr in h' && |h'[g.kids[j].addr].keys| == 1 && h'[g.kids[j].addr].data == []
  {
    var r := g.kids[j + 1];
    KidOf(g, j + 1);
    Neighbour(h, g, parent, j, m, j + 1, 0);
    hide Drained, Balanced, Distinct, Cells, Fit;
    h' := BorrowNodes(h, g.addr, j);
  }

  lemma JoinRightRecords<D>(h: Heap<D>, g: Tree<D>, parent: Addr, m: Tree<D>) returns (h': Heap<D>)
    requires Drained(h, g, parent, 0, m) && Balanced(g, 2) && Distinct(g) && |g.entries| >= 1
    requires 0 < |g.kids| && m.addr in Cells(g.kids[0])
    ensures JoinsRight(h, g.addr) && h' == JoinRightNodes(h, g.addr) && Untouched(h, h', Cells(g)) && |g.kids| >= 2
    ensures g.addr in h' && h'[g.addr].kids == Addrs(g.kids)[1..] && g.kids[1].addr != g.kids[0].addr && g.kids[1].addr != m.addr
    ensures g.kids[1].addr in h' && |h'[g.kids[1].addr].kids| > 0 && h'[g.kids[1].addr].kids[0] == m.addr
    ensures m.addr in h' && h'[m.addr].parent == g.kids[0].addr
  {
    KidOf(g, 1);
    var r := g.kids[1];
    Neighbour(h, g, parent, 0, m, 1, |r.kids| - 1);
    hide Drained, Balanced, Distinct, Cells, Fit;
    h' := JoinRightNodes(h, g.addr);
  }

  /** Joining to the right: the leaf keeps the address of its old parent, so no tree is left, below the old root or the new one. */
  lemma JoinRightBreaks<D>(h: Heap<D>, h': Heap<D>, t: Tree<D>, height: nat, top: Path, i: nat, k: Key, u: Tree<D>, q: Addr)
    requires Scene(h, t, height, top, 0, i, k) && DrainedAt(h, h', t, top, 0, i)
    ensures var g := Get(t, top);
            && JoinsRight(h', g.addr) && |g.kids| >= 2 && g.kids[1].addr in JoinRightNodes(h', g.addr)
            && JoinRightNodes(h', g.addr)[g.addr].kids == Addrs(g.kids)[1..]
            && (|g.entries| >= 2 && u.addr == t.addr ==> !Stored(JoinRightNodes(h', g.addr), u, q))
            && (u.addr == g.kids[1].addr ==> !Stored(Crowned(JoinRightNodes(h', g.addr), g.kids[1].addr), u, q))
  {
    var g := Get(t, top);
    LeafLeft(g, 0, i, k);
    var m := Collapse(g.kids[0], i);
    var h2 := JoinRightRecords(h', g, ParentAddr(t, top, NULL), m);
    if u.addr == t.addr && Stored(h2, u, q) {
      SpelledAt(h, h2, t, height, top, 0, i, k, u, q);
      var v := Get(u, top);
      KidRecord(h2, v, ParentAddr(u, top, q), 0);
      KidRecord(h2, v.kids[0], v.addr, 0);
      assert false;
    }
    if u.addr == g.kids[1].addr && Stored(Crowned(h2, g.kids[1].addr), u, q) {
      KidRecord(Crowned(h2, g.kids[1].addr), u, q, 0);
      assert false;
    }
  }
}
