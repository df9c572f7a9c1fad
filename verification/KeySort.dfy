/** How a node makes room: its key slots are sorted, its pointer slots are shifted. */
module KeySort {
  import opened Seqs
  import opened BTreeSpec
  import opened BTreeHeap

  ghost predicate Ascending(s: seq<Key>) { forall i, j | 0 <= i < j < |s| :: s[i] < s[j] }

  /** The least of s[i..] bubbles down to position i. */
  method Bubble(keys: seq<Key>, i: nat) returns (s: seq<Key>)
    requires i < |keys|
    ensures |s| == |keys| && multiset(s) == multiset(keys)
    ensures s[..i] == keys[..i]
    ensures forall q | i < q < |s| :: s[i] <= s[q]
  {
    s := keys;
    var j := |s| - 1;
    while j > i
      invariant i <= j < |s| == |keys| && multiset(s) == multiset(keys)
      invariant s[..i] == keys[..i]
      invariant forall q | j < q < |s| :: s[j] <= s[q]
    {
      if s[j - 1] > s[j] {
        s := s[j - 1 := s[j]][j := s[j - 1]];
      }
      j := j - 1;
    }
  }

  /** The source's sortKey: neighbours are exchanged from the back until the front is settled. */
  method SortKeys(keys: seq<Key>) returns (s: seq<Key>)
    ensures forall p, q | 0 <= p < q < |s| :: s[p] <= s[q]
    ensures multiset(s) == multiset(keys)
  {
    s := keys;
    var i := 0;
    while i + 1 < |s|
      invariant |s| == |keys| && multiset(s) == multiset(keys)
      invariant 0 <= i && (s != [] ==> i < |s|)
      invariant forall p, q | 0 <= p < i && p < q < |s| :: s[p] <= s[q]
    {
      ghost var before := s;
      s := Bubble(s, i);
      SamePrefix(before, s, i);
      i := i + 1;
    }
  }

  /** Rearranging the rest keeps a settled prefix settled. */
  lemma SamePrefix(a: seq<Key>, b: seq<Key>, i: nat)
    requires |a| == |b| && i <= |a| && multiset(a) == multiset(b) && a[..i] == b[..i]
    requires forall p, q | 0 <= p < i && p < q < |a| :: a[p] <= a[q]
    ensures forall p, q | 0 <= p < i && p < q < |b| :: b[p] <= b[q]
  {
    assert a == a[..i] + a[i..] && b == b[..i] + b[i..];
    assert multiset(a) == multiset(a[..i]) + multiset(a[i..]);
    assert multiset(b) == multiset(b[..i]) + multiset(b[i..]);
    assert multiset(a[i..]) == multiset(a) - multiset(a[..i]) == multiset(b[i..]);
    forall p, q | 0 <= p < i && p < q < |b| ensures b[p] <= b[q] {
      assert b[p] == a[p];
      if q < i {
        assert b[q] == a[q];
      } else {
        assert b[q] in multiset(b[i..]);
        assert b[q] in multiset(a[i..]);
        var r :| i <= r < |a| && a[r] == b[q];
        assert a[p] <= a[r];
      }
    }
  }

  lemma {:induction false} SortedUnique(a: seq<Key>, b: seq<Key>)
    requires forall p, q | 0 <= p < q < |a| :: a[p] <= a[q]
    requires forall p, q | 0 <= p < q < |b| :: b[p] <= b[q]
    requires multiset(a) == multiset(b)
    ensures a == b
  {
    assert |a| == |multiset(a)| && |b| == |multiset(b)|;
    if a != [] {
      SameHead(a, b);
      TailMultiset(a);
      TailMultiset(b);
      SortedUnique(a[1..], b[1..]);
    }
  }

  lemma TailMultiset(a: seq<Key>)
    requires a != []
    ensures multiset(a[1..]) == multiset(a) - multiset{a[0]}
  {
    assert a == [a[0]] + a[1..];
    assert multiset(a) == multiset{a[0]} + multiset(a[1..]);
  }

  lemma SameHead(a: seq<Key>, b: seq<Key>)
    requires a != [] && b != [] && multiset(a) == multiset(b)
    requires forall p, q | 0 <= p < q < |a| :: a[p] <= a[q]
    requires forall p, q | 0 <= p < q < |b| :: b[p] <= b[q]
    ensures a[0] == b[0]
  {
    assert a[0] in multiset(b) && b[0] in multiset(a);
  }

  lemma {:induction false} KeyRankSplits(keys: seq<Key>, k: Key)
    ensures forall j | 0 <= j < KeyRank(keys, k) :: keys[j] <= k
    ensures KeyRank(keys, k) < |keys| ==> k < keys[KeyRank(keys, k)]
  {
    if keys != [] && k >= keys[0] {
      KeyRankSplits(keys[1..], k);
      forall j | 0 <= j < KeyRank(keys, k) ensures keys[j] <= k {
        if j > 0 { assert keys[j] == keys[1..][j - 1]; }
      }
    }
  }

  /** Sorting a fresh key into ascending ones puts it at its rank. */
  lemma SortPlaces(keys: seq<Key>, k: Key, s: seq<Key>)
    requires Ascending(keys)
    requires multiset(s) == multiset(keys + [k]) && forall p, q | 0 <= p < q < |s| :: s[p] <= s[q]
    ensures s == InsertAt(keys, KeyRank(keys, k), k)
  {
    var i := KeyRank(keys, k);
    KeyRankSplits(keys, k);
    assert keys == keys[..i] + keys[i..];
    RankSorted(keys, k, i);
    SortedUnique(s, keys[..i] + [k] + keys[i..]);
  }

  lemma RankSorted(keys: seq<Key>, k: Key, i: nat)
    requires Ascending(keys) && i <= |keys|
    requires forall j | 0 <= j < i :: keys[j] <= k
    requires i < |keys| ==> k < keys[i]
    ensures var r := keys[..i] + [k] + keys[i..]; forall p, q | 0 <= p < q < |r| :: r[p] <= r[q]
  {
    var r := keys[..i] + [k] + keys[i..];
    forall p, q | 0 <= p < q < |r| ensures r[p] <= r[q] {
      assert r[p] == if p < i then keys[p] else if p == i then k else keys[p - 1];
      assert r[q] == if q < i then keys[q] else if q == i then k else keys[q - 1];
    }
  }

  /** The keys with one more, sorted, and where the new one ended up. */
  method PlaceKey(keys: seq<Key>, k: Key) returns (s: seq<Key>, at: nat)
    requires Ascending(keys) && k !in keys
    ensures at == KeyRank(keys, k) && s == InsertAt(keys, at, k)
  {
    s := SortKeys(keys + [k]);
    SortPlaces(keys, k, s);
    ghost var i := KeyRank(keys, k);
    KeyRankSplits(keys, k);
    at := 0;
    while s[at] != k
      invariant at <= i
      decreases i - at
    {
      assert at < i ==> s[at] == keys[at];
      at := at + 1;
    }
  }

  /** Everything from the index on moves up by one, from the back. */
  method MoveInsert<T>(s: seq<T>, index: nat, x: T) returns (r: seq<T>)
    requires index <= |s|
    ensures r == InsertAt(s, index, x)
  {
    r := s + [x];
    var i := |s|;
    while i > index
      invariant index <= i <= |s| == |r| - 1
      invariant r[..i] == s[..i]
      invariant r[i + 1..] == s[i..]
    {
      r := r[i := r[i - 1]];
      i := i - 1;
    }
    r := r[index := x];
  }

  /** Everything behind the index moves down by one. */
  method MoveDelete<T>(s: seq<T>, index: nat) returns (r: seq<T>)
    requires index < |s|
    ensures r == RemoveAt(s, index)
  {
    r := s;
    var i := index;
    while i < |s| - 1
      invariant index <= i <= |s| - 1 && |r| == |s|
      invariant r[..i] == RemoveAt(s, index)[..i]
      invariant r[i + 1..] == s[i + 1..]
    {
      r := r[i := r[i + 1]];
      i := i + 1;
    }
    r := r[..|s| - 1];
  }

  /** The source's virtual item set: the node's slots and one more of each kind. */
  method View<D>(n: Node<D>, k: Key, d: D, right: Addr) returns (w: Node<D>)
    requires Ascending(n.keys) && k !in n.keys && |n.data| == |n.keys|
    requires right != NULL ==> |n.kids| == |n.keys| + 1
    ensures w == WidenNode(n, k, d, right)
  {
    var keys, at := PlaceKey(n.keys, k);
    var data := MoveInsert(n.data, at, d);
    var kids := n.kids;
    if right != NULL { kids := MoveInsert(n.kids, at + 1, right); }
    w := Node(n.parent, keys, data, kids);
  }
}
