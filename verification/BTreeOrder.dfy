/**
  Why a key that climbs after a split is never already in the node it climbs into: every node on the
  search path keeps its keys, and the key under way, inside the gap its parent leaves for it.
*/
module BTreeOrder {
  import opened Seqs
  import opened BTreeSpec
  import opened BTreeInsert
  import opened BTreeHeap

  ghost predicate Within<D>(s: seq<Entry<D>>, lo: int, hi: int) {
    forall i | 0 <= i < |s| :: lo < s[i].key < hi
  }

  ghost function Lo<D>(t: Tree<D>, i: nat, lo: int): int
    requires i <= |t.entries|
  {
    if i == 0 then lo else t.entries[i - 1].key
  }

  ghost function Hi<D>(t: Tree<D>, i: nat, hi: int): int
    requires i <= |t.entries|
  {
    if i == |t.entries| then hi else t.entries[i].key
  }

  /** The key k may be added at the end of the path. */
  ghost predicate Admits<D>(t: Tree<D>, path: Path, k: Key, lo: int, hi: int)
    decreases |path|
  {
    && Sorted(t.entries) && Within(t.entries, lo, hi) && lo < k < hi
    && if path == [] then Absent(t.entries, k)
       else
         && |t.kids| == |t.entries| + 1 && path[0] < |t.kids|
         && Admits(t.kids[path[0]], path[1..], k, Lo(t, path[0], lo), Hi(t, path[0], hi))
  }

  lemma {:induction false} AdmitsGet<D>(t: Tree<D>, path: Path, k: Key, lo: int, hi: int)
    requires Admits(t, path, k, lo, hi)
    ensures ValidPath(t, path)
    ensures Sorted(Get(t, path).entries) && Absent(Get(t, path).entries, k)
    decreases |path|
  {
    if path != [] { AdmitsGet(t.kids[path[0]], path[1..], k, Lo(t, path[0], lo), Hi(t, path[0], hi)); }
  }

  lemma {:induction false} AdmitsKey<D>(t: Tree<D>, path: Path, k: Key, lo: int, hi: int)
    requires Admits(t, path, k, lo, hi)
    ensures lo < k < hi && Absent(t.entries, k)
    decreases |path|
  {
    if path != [] { AdmitsKey(t.kids[path[0]], path[1..], k, Lo(t, path[0], lo), Hi(t, path[0], hi)); }
  }

  lemma WidenWithin<D>(t: Tree<D>, e: Entry<D>, right: Option<Tree<D>>, lo: int, hi: int)
    requires Within(t.entries, lo, hi) && lo < e.key < hi
    ensures Within(Widen(t, e, right).entries, lo, hi)
  {
    var w := Widen(t, e, right);
    forall i | 0 <= i < |w.entries| ensures lo < w.entries[i].key < hi {
      assert w.entries[i] == e || w.entries[i] in t.entries;
    }
  }

  /** After a split the middle key may be added one level up. */
  lemma {:induction false} AdmitsUp<D>(t: Tree<D>, path: Path, e: Entry<D>, right: Option<Tree<D>>, lo: int, hi: int, next: Addr, g: Grown<D>)
    requires path != [] && Admits(t, path, e.key, lo, hi) && ValidPath(t, path)
    requires g == Settle(Widen(Get(t, path), e, right), next) && g.Two?
    ensures Admits(Replace(t, path, g.left), Up(path), g.mid.key, lo, hi)
    decreases |path|
  {
    var i, c := path[0], t.kids[path[0]];
    var lo', hi' := Lo(t, i, lo), Hi(t, i, hi);
    if |path| == 1 {
      WidenWithin(c, e, right, lo', hi');
      assert lo' < g.mid.key < hi';
    } else {
      AdmitsUp(c, path[1..], e, right, lo', hi', next, g);
      AdmitsKey(Replace(c, path[1..], g.left), Up(path[1..]), g.mid.key, lo', hi');
      assert Up(path)[1..] == Up(path[1..]);
    }
  }

  /** In a well-formed tree an absent key may be added at the end of its search path. */
  lemma {:induction false} AdmitsSearch<D>(t: Tree<D>, height: nat, k: Key, lo: int, hi: int)
    requires WellFormed(t, height) && Absent(List(t), k) && Within(List(t), lo, hi) && lo < k < hi
    ensures Admits(t, SearchPath(t, k), k, lo, hi)
    decreases height
  {
    if height > 0 {
      var i := Rank(t.entries, k);
      var runs := Lists(t.kids);
      EntriesWithin(t, lo, hi);
      SepsSorted(runs, t.entries);
      RankSplits(t.entries, k);
      ChildWellFormed(t, height, i);
      ChildWithin(t, i, lo, hi);
      EntriesAbsent(t, k);
      AdmitsSearch(t.kids[i], height - 1, k, Lo(t, i, lo), Hi(t, i, hi));
      assert SearchPath(t, k)[1..] == SearchPath(t.kids[i], k);
    }
  }

  lemma EntriesInList<D>(t: Tree<D>, j: nat)
    requires |t.kids| == |t.entries| + 1 && j < |t.entries|
    ensures exists n :: 0 <= n < |List(t)| && List(t)[n] == t.entries[j]
  {
    InterleaveSplit(Lists(t.kids), t.entries, j);
    assert List(t)[|Interleave(Lists(t.kids)[..j + 1], t.entries[..j])|] == t.entries[j];
  }

  lemma EntriesWithin<D>(t: Tree<D>, lo: int, hi: int)
    requires |t.kids| == |t.entries| + 1 && Within(List(t), lo, hi)
    ensures Within(t.entries, lo, hi)
  {
    forall j | 0 <= j < |t.entries| ensures lo < t.entries[j].key < hi { EntriesInList(t, j); }
  }

  lemma EntriesAbsent<D>(t: Tree<D>, k: Key)
    requires |t.kids| == |t.entries| + 1 && Absent(List(t), k)
    ensures Absent(t.entries, k)
  {
    forall j | 0 <= j < |t.entries| ensures t.entries[j].key != k { EntriesInList(t, j); }
  }

  lemma ChildWithin<D>(t: Tree<D>, i: nat, lo: int, hi: int)
    requires |t.kids| == |t.entries| + 1 && i < |t.kids| && Within(List(t), lo, hi) && Sorted(List(t))
    ensures Within(List(t.kids[i]), Lo(t, i, lo), Hi(t, i, hi))
  {
    var b, x, a := Before(Lists(t.kids), t.entries, i), List(t.kids[i]), After(Lists(t.kids), t.entries, i);
    InterleaveAround(Lists(t.kids), t.entries, i);
    var all := List(t);
    assert all == b + x + a;
    if i > 0 { assert all[|b| - 1] == t.entries[i - 1]; }
    if i < |t.entries| { assert all[|b + x|] == t.entries[i]; }
    forall j | 0 <= j < |x| ensures Lo(t, i, lo) < x[j].key < Hi(t, i, hi) {
      assert all[|b| + j] == x[j];
    }
  }
}
