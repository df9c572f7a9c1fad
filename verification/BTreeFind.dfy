/**
  Search.  The descent of find compares only the first five bytes of a key, the descent that looks
  for a node compares all twenty; both are the same walk over what they see of a key.
*/
module BTreeFind {
  import opened Seqs
  import opened BTreeSpec
  import opened BTreeInsert
  import opened BTreeOrder
  import Bytes

  /** How much of a key a comparison looks at: its first five bytes, or all twenty. */
  datatype Width = Prefix | Whole

  const PREFIX_UNIT: nat := 0x1_00000000_00000000_00000000_000000

  function Seen(k: Key, w: Width): nat {
    match w
    case Prefix => k / PREFIX_UNIT
    case Whole => k
  }

  /** The twenty bytes of a key. */
  function Raw(k: Key): (s: seq<Bytes.Byte>)
    ensures |s| == 20
  {
    Bytes.BigEndian(k, 20)
  }

  /** Two keys share their first five bytes. */
  predicate SharePrefix(a: Key, b: Key) { Raw(a)[..5] == Raw(b)[..5] }

  lemma Powers()
    ensures Bytes.Pow256(15) == PREFIX_UNIT && Bytes.Pow256(20) == KEY_LIMIT
  {
    assert Bytes.Pow256(5) == 0x100_0000_0000;
    assert Bytes.Pow256(10) == 0x1_0000_0000_0000_0000_0000;
    assert Bytes.Pow256(15) == PREFIX_UNIT;
    assert Bytes.Pow256(20) == KEY_LIMIT;
  }

  /** Keys and strings of twenty bytes are the same thing. */
  lemma RawIsKey(s: seq<Bytes.Byte>)
    requires |s| == 20
    ensures Bytes.Value(s) < KEY_LIMIT && Raw(Bytes.Value(s)) == s
  {
    Powers();
    hide *;
    Bytes.ValueBound(s);
    RawValue(Bytes.Value(s));
    Bytes.ValueInjective(Raw(Bytes.Value(s)), s);
  }

  lemma RawValue(k: Key)
    ensures Bytes.Value(Raw(k)) == k
  {
    Powers();
    Bytes.ValueOfBigEndian(k, 20);
  }

  /** What the short comparison looks at is the number that the first five bytes spell. */
  lemma SeenIsPrefix(k: Key)
    ensures Seen(k, Prefix) == Bytes.Value(Raw(k)[..5])
  {
    Powers();
    RawValue(k);
    Bytes.PrefixValue(Raw(k), 5);
  }

  /** The five-byte search takes two keys for the same exactly when they share their first five bytes. */
  lemma SeenAlike(a: Key, b: Key)
    ensures Seen(a, Prefix) == Seen(b, Prefix) <==> SharePrefix(a, b)
  {
    SeenIsPrefix(a);
    SeenIsPrefix(b);
    if Seen(a, Prefix) == Seen(b, Prefix) { Bytes.ValueInjective(Raw(a)[..5], Raw(b)[..5]); }
  }

  lemma SeenMonotone(a: Key, b: Key, w: Width)
    requires a <= b
    ensures Seen(a, w) <= Seen(b, w)
  {
  }

  /** The first entry that does not look smaller than k. */
  ghost function Stop<D>(s: seq<Entry<D>>, k: Key, w: Width): (r: nat)
    ensures r <= |s|
    ensures forall j | 0 <= j < r :: Seen(s[j].key, w) < Seen(k, w)
    ensures r < |s| ==> Seen(k, w) <= Seen(s[r].key, w)
  {
    if s == [] || Seen(k, w) <= Seen(s[0].key, w) then 0 else 1 + Stop(s[1..], k, w)
  }

  lemma {:induction false} StopIs<D>(s: seq<Entry<D>>, k: Key, w: Width, i: nat)
    requires i <= |s| && forall j | 0 <= j < i :: Seen(s[j].key, w) < Seen(k, w)
    requires i < |s| ==> Seen(k, w) <= Seen(s[i].key, w)
    ensures Stop(s, k, w) == i
  {
    if i > 0 { StopIs(s[1..], k, w, i - 1); }
  }

  datatype Place<D> = Place(node: Tree<D>, index: nat)

  /** Where the walk from the top of t ends: at an entry that looks like k, or below a leaf. */
  ghost function Locate<D>(t: Tree<D>, k: Key, w: Width): (p: Option<Place<D>>)
    ensures p.Some? ==> p.value.index < |p.value.node.entries|
  {
    var i := Stop(t.entries, k, w);
    if i < |t.entries| && Seen(t.entries[i].key, w) == Seen(k, w) then Some(Place(t, i))
    else if i < |t.kids| then Locate(t.kids[i], k, w)
    else None
  }

  ghost function Found<D>(t: Tree<D>, k: Key, w: Width): Option<Entry<D>> {
    match Locate(t, k, w)
    case Some(p) => Some(p.node.entries[p.index])
    case None => None
  }

  /** No entry of s looks like k. */
  ghost predicate Unseen<D>(s: seq<Entry<D>>, k: Key, w: Width) {
    forall i | 0 <= i < |s| :: Seen(s[i].key, w) != Seen(k, w)
  }

  /** When no entry of an inner node looks like k, only child Stop can hold one that does. */
  lemma OnlyOneChild<D>(t: Tree<D>, k: Key, w: Width)
    requires |t.kids| == |t.entries| + 1 && Sorted(List(t)) && Unseen(t.entries, k, w)
    ensures var i := Stop(t.entries, k, w);
            && List(t) == Before(Lists(t.kids), t.entries, i) + List(t.kids[i]) + After(Lists(t.kids), t.entries, i)
            && Unseen(Before(Lists(t.kids), t.entries, i), k, w)
            && Unseen(After(Lists(t.kids), t.entries, i), k, w)
  {
    var i := Stop(t.entries, k, w);
    var b, x, a := Before(Lists(t.kids), t.entries, i), List(t.kids[i]), After(Lists(t.kids), t.entries, i);
    InterleaveAround(Lists(t.kids), t.entries, i);
    assert List(t) == b + x + a;
    assert b + (x + a) == b + x + a;
    if i > 0 { UnseenBefore(b, x + a, k, w); }
    if i < |t.entries| { UnseenAfter(b + x, a, k, w); }
  }

  lemma UnseenBefore<D>(b: seq<Entry<D>>, s: seq<Entry<D>>, k: Key, w: Width)
    requires Sorted(b + s) && b != [] && Seen(b[|b| - 1].key, w) < Seen(k, w)
    ensures Unseen(b, k, w)
  {
    forall j | 0 <= j < |b| ensures Seen(b[j].key, w) != Seen(k, w) {
      assert (b + s)[j] == b[j] && (b + s)[|b| - 1] == b[|b| - 1];
      SeenMonotone(b[j].key, b[|b| - 1].key, w);
    }
  }

  lemma UnseenAfter<D>(s: seq<Entry<D>>, a: seq<Entry<D>>, k: Key, w: Width)
    requires Sorted(s + a) && a != [] && Seen(k, w) < Seen(a[0].key, w)
    ensures Unseen(a, k, w)
  {
    forall j | 0 <= j < |a| ensures Seen(a[j].key, w) != Seen(k, w) {
      assert (s + a)[|s| + j] == a[j] && (s + a)[|s|] == a[0];
      SeenMonotone(a[0].key, a[j].key, w);
    }
  }

  lemma StopUnseen<D>(s: seq<Entry<D>>, k: Key, w: Width)
    requires Sorted(s)
    requires Stop(s, k, w) < |s| ==> Seen(s[Stop(s, k, w)].key, w) != Seen(k, w)
    ensures Unseen(s, k, w)
  {
    var i := Stop(s, k, w);
    forall j | i <= j < |s| ensures Seen(s[j].key, w) != Seen(k, w) { SeenMonotone(s[i].key, s[j].key, w); }
  }

  /** e, if any, is an entry of s that looks like k, and none means that there is none. */
  ghost predicate Answers<D>(e: Option<Entry<D>>, s: seq<Entry<D>>, k: Key, w: Width) {
    && (e.None? <==> Unseen(s, k, w))
    && (e.Some? ==> e.value in s && Seen(e.value.key, w) == Seen(k, w))
  }

  lemma StopIsAnswer<D>(t: Tree<D>, height: nat, k: Key, w: Width)
    requires WellFormed(t, height) && Stop(t.entries, k, w) < |t.entries|
    requires Seen(t.entries[Stop(t.entries, k, w)].key, w) == Seen(k, w)
    ensures Answers(Found(t, k, w), List(t), k, w)
  {
    if height > 0 { EntriesInList(t, Stop(t.entries, k, w)); }
  }

  lemma ChildAnswers<D>(t: Tree<D>, k: Key, w: Width)
    requires |t.kids| == |t.entries| + 1 && Sorted(List(t)) && Unseen(t.entries, k, w)
    requires Answers(Found(t.kids[Stop(t.entries, k, w)], k, w), List(t.kids[Stop(t.entries, k, w)]), k, w)
    ensures Answers(Found(t, k, w), List(t), k, w)
  {
    var i := Stop(t.entries, k, w);
    OnlyOneChild(t, k, w);
    assert Found(t, k, w) == Found(t.kids[i], k, w);
    hide Found, List, Sorted;
    UnseenParts(Before(Lists(t.kids), t.entries, i), List(t.kids[i]), After(Lists(t.kids), t.entries, i), k, w);
  }

  /** The walk finds an entry exactly when the tree lists one that looks like k, and it finds such a one. */
  lemma {:induction false} FoundExactly<D>(t: Tree<D>, height: nat, k: Key, w: Width)
    requires WellFormed(t, height)
    ensures Answers(Found(t, k, w), List(t), k, w)
    decreases height
  {
    var i := Stop(t.entries, k, w);
    if i < |t.entries| && Seen(t.entries[i].key, w) == Seen(k, w) {
      StopIsAnswer(t, height, k, w);
    } else {
      if height > 0 { SepsSorted(Lists(t.kids), t.entries); }
      StopUnseen(t.entries, k, w);
      if height > 0 {
        ChildWellFormed(t, height, i);
        FoundExactly(t.kids[i], height - 1, k, w);
        ChildAnswers(t, k, w);
      }
    }
  }

  /** In bytes: something is found exactly when a listed key has the same first five bytes, and it is such a key's. */
  lemma PrefixFound<D>(t: Tree<D>, height: nat, k: Key)
    requires WellFormed(t, height)
    ensures Found(t, k, Prefix).None? <==> forall e | e in List(t) :: !SharePrefix(e.key, k)
    ensures Found(t, k, Prefix).Some? ==> Found(t, k, Prefix).value in List(t) && SharePrefix(Found(t, k, Prefix).value.key, k)
  {
    FoundExactly(t, height, k, Prefix);
    UnseenIs(List(t), k);
    if Found(t, k, Prefix).Some? { SeenAlike(Found(t, k, Prefix).value.key, k); }
  }

  lemma UnseenIs<D>(s: seq<Entry<D>>, k: Key)
    ensures Unseen(s, k, Prefix) <==> forall e | e in s :: !SharePrefix(e.key, k)
  {
    forall e | e in s ensures SharePrefix(e.key, k) <==> Seen(e.key, Prefix) == Seen(k, Prefix) { SeenAlike(e.key, k); }
    hide Seen, SharePrefix;
    if forall e | e in s :: !SharePrefix(e.key, k) {
      forall i | 0 <= i < |s| ensures Seen(s[i].key, Prefix) != Seen(k, Prefix) { assert s[i] in s; }
    }
  }

  lemma UnseenParts<D>(b: seq<Entry<D>>, x: seq<Entry<D>>, a: seq<Entry<D>>, k: Key, w: Width)
    requires Unseen(b, k, w) && Unseen(a, k, w)
    ensures Unseen(b + x + a, k, w) <==> Unseen(x, k, w)
    ensures forall e | e in x :: e in b + x + a
  {
    forall j | 0 <= j < |x| ensures x[j] == (b + x + a)[|b| + j] { }
  }

  // ---------------------------------------------------------------- against a map

  /** What a map from keys to pointers holding the listed entries gives for k. */
  ghost function Lookup<D>(s: seq<Entry<D>>, k: Key): (r: Option<D>)
    ensures r.None? <==> Absent(s, k)
    ensures r.Some? ==> Entry(k, r.value) in s
  {
    if s == [] then None
    else if s[0].key == k then Some(s[0].data)
    else Lookup(s[1..], k)
  }

  ghost function Pointer<D>(e: Option<Entry<D>>): Option<D> {
    if e.Some? then Some(e.value.data) else None
  }

  lemma SortedOnce<D>(s: seq<Entry<D>>, a: Entry<D>, b: Entry<D>)
    requires Sorted(s) && a in s && b in s && a.key == b.key
    ensures a == b
  {
  }

  /** The search over whole keys is map lookup. */
  lemma WholeIsLookup<D>(t: Tree<D>, height: nat, k: Key)
    requires WellFormed(t, height)
    ensures Pointer(Found(t, k, Whole)) == Lookup(List(t), k)
  {
    FoundExactly(t, height, k, Whole);
    if Found(t, k, Whole).Some? {
      assert !Absent(List(t), k);
      SortedOnce(List(t), Found(t, k, Whole).value, Entry(k, Lookup(List(t), k).value));
    }
  }

  /** No two stored keys share their first five bytes. */
  ghost predicate PrefixFree<D>(s: seq<Entry<D>>) {
    forall i, j | 0 <= i < j < |s| :: !SharePrefix(s[i].key, s[j].key)
  }

  /**
    With distinct prefixes stored, the five-byte search is map lookup on exactly the keys that are
    stored or share no stored prefix: a key that is not stored but shares one is wrongly found.
  */
  lemma PrefixIsLookup<D>(t: Tree<D>, height: nat, k: Key)
    requires WellFormed(t, height) && PrefixFree(List(t))
    ensures Pointer(Found(t, k, Prefix)) == Lookup(List(t), k)
       <==> !Absent(List(t), k) || forall e | e in List(t) :: !SharePrefix(e.key, k)
  {
    var s := List(t);
    PrefixFound(t, height, k);
    hide List, WellFormed, Found, SharePrefix, PrefixFree;
    if !Absent(s, k) {
      var f := Entry(k, Lookup(s, k).value);
      assert SharePrefix(f.key, k) by { PrefixOfItself(k); }
      OneWithPrefix(s, Found(t, k, Prefix).value, f);
    }
  }

  lemma PrefixOfItself(k: Key)
    ensures SharePrefix(k, k)
  {
  }

  lemma OneWithPrefix<D>(s: seq<Entry<D>>, e: Entry<D>, f: Entry<D>)
    requires PrefixFree(s) && e in s && f in s && SharePrefix(e.key, f.key)
    ensures e == f
  {
    var i, j :| 0 <= i < |s| && 0 <= j < |s| && s[i] == e && s[j] == f;
    assert SharePrefix(s[i].key, s[j].key) && SharePrefix(s[j].key, s[i].key);
  }
}
