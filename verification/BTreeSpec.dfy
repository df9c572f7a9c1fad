/**
  The node store of the index and the abstract 2-3-4 tree that a correct store spells out.

  A node is the record that the packed item set of the source holds: a parent address (0 means
  none), up to three keys, one data pointer per key and, in an inner node, one child address more
  than keys.  Keys stand for 20-byte strings: memcmp on those is < on their big-endian values
  (module Bytes).  The type D of a data pointer is left open, because the safe mode tags each
  pointer with the file it lives in.
*/
module BTreeSpec {
  import opened Seqs

  type Addr = nat
  /** Keys are 20 bytes long. */
  const KEY_LIMIT: nat := 0x1_00000000_00000000_00000000_00000000_00000000
  type Key = k: nat | k < KEY_LIMIT

  const MAX_KEYS: nat := 3
  const NODE_SIZE: nat := 103
  const NULL: Addr := 0

  datatype Node<D> = Node(parent: Addr, keys: seq<Key>, data: seq<D>, kids: seq<Addr>)

  type Heap<D> = map<Addr, Node<D>>

  datatype Entry<D> = Entry(key: Key, data: D)

  /** The tree seen from an address: the child addresses followed, each key paired with its pointer. */
  datatype Tree<D> = Tree(addr: Addr, entries: seq<Entry<D>>, kids: seq<Tree<D>>)

  /** All leaves at one depth, one child more than entries inside, one to three entries below the top. */
  ghost predicate Balanced<D>(t: Tree<D>, height: nat)
    decreases height, 0
  {
    if height == 0 then t.kids == [] else |t.kids| == |t.entries| + 1 && Siblings(t.kids, height - 1)
  }

  /** A node that may hang below a parent. */
  ghost predicate Fit<D>(t: Tree<D>, height: nat)
    decreases height, 1
  {
    1 <= |t.entries| <= MAX_KEYS && Balanced(t, height)
  }

  ghost predicate Siblings<D>(kids: seq<Tree<D>>, height: nat)
    decreases height, 2
  {
    forall i | 0 <= i < |kids| :: Fit(kids[i], height)
  }

  // ---------------------------------------------------------------- contents, in key order

  /** Runs with one separator between neighbours. */
  ghost function Interleave<E>(runs: seq<seq<E>>, seps: seq<E>): seq<E>
    decreases |seps|
  {
    if runs == [] then seps
    else if seps == [] then runs[0]
    else runs[0] + [seps[0]] + Interleave(runs[1..], seps[1..])
  }

  ghost function List<D>(t: Tree<D>): seq<Entry<D>> {
    if t.kids == [] then t.entries else Interleave(Lists(t.kids), t.entries)
  }

  ghost function Lists<D>(kids: seq<Tree<D>>): seq<seq<Entry<D>>> {
    seq(|kids|, i requires 0 <= i < |kids| => List(kids[i]))
  }

  ghost predicate Below<D>(s: seq<Entry<D>>, k: Key) { forall i | 0 <= i < |s| :: s[i].key < k }
  ghost predicate Above<D>(s: seq<Entry<D>>, k: Key) { forall i | 0 <= i < |s| :: k < s[i].key }
  ghost predicate Absent<D>(s: seq<Entry<D>>, k: Key) { forall i | 0 <= i < |s| :: s[i].key != k }
  ghost predicate Sorted<D>(s: seq<Entry<D>>) { forall i, j | 0 <= i < j < |s| :: s[i].key < s[j].key }

  /** The sorted list with one entry more. */
  ghost function InsertEntry<D>(s: seq<Entry<D>>, e: Entry<D>): seq<Entry<D>> {
    if s == [] then [e]
    else if e.key < s[0].key then [e] + s
    else [s[0]] + InsertEntry(s[1..], e)
  }

  /** A search tree as the index keeps it. */
  ghost predicate WellFormed<D>(t: Tree<D>, height: nat) {
    && Balanced(t, height)
    && |t.entries| <= MAX_KEYS
    && (height > 0 ==> 1 <= |t.entries|)
    && Sorted(List(t))
  }

  // ---------------------------------------------------------------- lemmas on Interleave

  lemma {:induction false} InterleaveSplit<E>(runs: seq<seq<E>>, seps: seq<E>, i: nat)
    requires |runs| == |seps| + 1 && i < |seps|
    ensures Interleave(runs, seps) == Interleave(runs[..i + 1], seps[..i]) + [seps[i]] + Interleave(runs[i + 1..], seps[i + 1..])
    decreases i
  {
    if i > 0 {
      InterleaveSplit(runs[1..], seps[1..], i - 1);
      assert runs[1..][..i] == runs[..i + 1][1..];
      assert seps[1..][..i - 1] == seps[..i][1..];
      assert runs[1..][i..] == runs[i + 1..];
      assert seps[1..][i..] == seps[i + 1..];
    }
  }

  /** What lies left of run i. */
  ghost function Before<E>(runs: seq<seq<E>>, seps: seq<E>, i: nat): seq<E>
    requires |runs| == |seps| + 1 && i < |runs|
  {
    if i == 0 then [] else Interleave(runs[..i], seps[..i - 1]) + [seps[i - 1]]
  }

  /** What lies right of run i. */
  ghost function After<E>(runs: seq<seq<E>>, seps: seq<E>, i: nat): seq<E>
    requires |runs| == |seps| + 1 && i < |runs|
  {
    if i == |seps| then [] else [seps[i]] + Interleave(runs[i + 1..], seps[i + 1..])
  }

  lemma InterleaveHead<E>(runs: seq<seq<E>>, seps: seq<E>)
    requires |runs| == |seps| + 1
    ensures Interleave(runs, seps) == runs[0] + After(runs, seps, 0)
  {
  }

  lemma {:induction false} InterleaveAround<E>(runs: seq<seq<E>>, seps: seq<E>, i: nat)
    requires |runs| == |seps| + 1 && i < |runs|
    ensures Interleave(runs, seps) == Before(runs, seps, i) + runs[i] + After(runs, seps, i)
  {
    if i > 0 { InterleaveSplit(runs, seps, i - 1); }
    InterleaveHead(runs[i..], seps[i..]);
    if i < |seps| {
      assert runs[i..][1..] == runs[i + 1..] && seps[i..][1..] == seps[i + 1..];
    }
  }

  lemma InterleaveOne<E>(runs: seq<seq<E>>, seps: seq<E>, i: nat, x: seq<E>)
    requires |runs| == |seps| + 1 && i < |runs|
    ensures Interleave(runs[i := x], seps) == Before(runs, seps, i) + x + After(runs, seps, i)
  {
    InterleaveAround(runs[i := x], seps, i);
    assert runs[i := x][..i] == runs[..i];
    assert runs[i := x][i + 1..] == runs[i + 1..];
  }

  /** Replacing run i by a run, a separator and a run. */
  lemma InterleaveTwo<E>(runs: seq<seq<E>>, seps: seq<E>, i: nat, l: seq<E>, e: E, r: seq<E>)
    requires |runs| == |seps| + 1 && i < |runs|
    ensures Interleave(runs[..i] + [l, r] + runs[i + 1..], seps[..i] + [e] + seps[i..])
         == Before(runs, seps, i) + (l + [e] + r) + After(runs, seps, i)
  {
    InterleaveLast(runs, seps, i, l);
    InterleaveFirst(runs, seps, i, r);
    InterleaveJoin(runs[..i] + [l], seps[..i], e, [r] + runs[i + 1..], seps[i..]);
    assert runs[..i] + [l, r] + runs[i + 1..] == (runs[..i] + [l]) + ([r] + runs[i + 1..]);
  }

  lemma InterleaveJoin<E>(rs: seq<seq<E>>, ss: seq<E>, e: E, rs': seq<seq<E>>, ss': seq<E>)
    requires |rs| == |ss| + 1 && |rs'| == |ss'| + 1
    ensures Interleave(rs + rs', ss + [e] + ss') == Interleave(rs, ss) + [e] + Interleave(rs', ss')
  {
    InterleaveSplit(rs + rs', ss + [e] + ss', |ss|);
    assert (rs + rs')[..|rs|] == rs && (rs + rs')[|rs|..] == rs';
    assert (ss + [e] + ss')[..|ss|] == ss && (ss + [e] + ss')[|ss| + 1..] == ss';
  }

  lemma InterleaveLast<E>(runs: seq<seq<E>>, seps: seq<E>, i: nat, l: seq<E>)
    requires |runs| == |seps| + 1 && i < |runs|
    ensures Interleave(runs[..i] + [l], seps[..i]) == Before(runs, seps, i) + l
  {
    InterleaveAround(runs[..i] + [l], seps[..i], i);
    assert (runs[..i] + [l])[..i] == runs[..i];
    if i > 0 { assert seps[..i][..i - 1] == seps[..i - 1]; }
  }

  lemma InterleaveFirst<E>(runs: seq<seq<E>>, seps: seq<E>, i: nat, r: seq<E>)
    requires |runs| == |seps| + 1 && i < |runs|
    ensures Interleave([r] + runs[i + 1..], seps[i..]) == r + After(runs, seps, i)
  {
    InterleaveHead([r] + runs[i + 1..], seps[i..]);
    assert ([r] + runs[i + 1..])[1..] == runs[i + 1..];
    if i < |seps| { assert seps[i..][1..] == seps[i + 1..]; }
  }

  // ---------------------------------------------------------------- lemmas on sorted lists

  lemma InsertHead<D>(x: Entry<D>, s: seq<Entry<D>>, e: Entry<D>)
    ensures InsertEntry([x] + s, e) == if e.key < x.key then [e] + ([x] + s) else [x] + InsertEntry(s, e)
  {
    assert ([x] + s)[1..] == s;
  }

  lemma {:induction false} InsertPrefix<D>(p: seq<Entry<D>>, s: seq<Entry<D>>, e: Entry<D>)
    requires Below(p, e.key)
    ensures InsertEntry(p + s, e) == p + InsertEntry(s, e)
  {
    if p == [] {
      assert p + s == s;
    } else {
      var x, rest := p[0], p[1..];
      assert x.key < e.key && Below(rest, e.key);
      hide *;
      InsertPrefix(rest, s, e);
      InsertHead(x, rest + s, e);
      FirstApart(p, s);
      FirstApart(p, InsertEntry(s, e));
    }
  }

  lemma FirstApart<E>(p: seq<E>, s: seq<E>)
    requires p != []
    ensures p + s == [p[0]] + (p[1..] + s)
  {
  }

  lemma {:induction false} InsertSuffix<D>(x: seq<Entry<D>>, s: seq<Entry<D>>, e: Entry<D>)
    requires Above(s, e.key)
    ensures InsertEntry(x + s, e) == InsertEntry(x, e) + s
  {
    if x == [] {
      assert x + s == s;
    } else {
      InsertSuffix(x[1..], s, e);
      hide Above;
      InsertHead(x[0], x[1..] + s, e);
      InsertHead(x[0], x[1..], e);
      assert x + s == [x[0]] + (x[1..] + s) && x == [x[0]] + x[1..];
    }
  }

  lemma InsertBetween<D>(p: seq<Entry<D>>, x: seq<Entry<D>>, s: seq<Entry<D>>, e: Entry<D>)
    requires Below(p, e.key) && Above(s, e.key)
    ensures InsertEntry(p + x + s, e) == p + InsertEntry(x, e) + s
  {
    InsertPrefix(p, x + s, e);
    InsertSuffix(x, s, e);
    assert p + x + s == p + (x + s);
  }

  lemma {:induction false} InsertMembers<D>(s: seq<Entry<D>>, e: Entry<D>)
    ensures multiset(InsertEntry(s, e)) == multiset(s) + multiset{e}
  {
    if s != [] && e.key >= s[0].key {
      InsertMembers(s[1..], e);
    }
    if s != [] { assert s == [s[0]] + s[1..]; }
  }

  lemma {:induction false} InsertKeepsSorted<D>(s: seq<Entry<D>>, e: Entry<D>)
    requires Sorted(s) && Absent(s, e.key)
    ensures Sorted(InsertEntry(s, e))
  {
    if s != [] && e.key > s[0].key {
      var r := InsertEntry(s[1..], e);
      InsertKeepsSorted(s[1..], e);
      InsertMembers(s[1..], e);
      forall j | 0 <= j < |r| ensures s[0].key < r[j].key {
        assert r[j] in multiset(r);
        assert r[j] in multiset(s[1..]) || r[j] == e;
      }
    }
  }
}
