/**
  The transaction table as it is linked: every bucket is a ring of control blocks, entered at its
  head; a bucket that grows to three blocks hands its blocks, one by one along the ring, to a new
  table that takes its place.
*/
module TxCBTables {
  import opened Seqs
  import opened TxCBTrie

  type Links = map<Ref, Ref>

  datatype Container = Bucket(head: Option<Ref>, count: nat) | Table(kids: seq<Container>)

  const NEW_BUCKET: Container := Bucket(None, 0)
  const NEW_KIDS: seq<Container> := [
    NEW_BUCKET, NEW_BUCKET, NEW_BUCKET, NEW_BUCKET, NEW_BUCKET, NEW_BUCKET, NEW_BUCKET, NEW_BUCKET,
    NEW_BUCKET, NEW_BUCKET, NEW_BUCKET, NEW_BUCKET, NEW_BUCKET, NEW_BUCKET, NEW_BUCKET, NEW_BUCKET]

  /** Following m from each block leads to the next one, from the last to the first. */
  ghost predicate Forward(m: Links, refs: seq<Ref>) {
    forall i | 0 <= i < |refs| :: refs[i] in m && m[refs[i]] == refs[if i + 1 < |refs| then i + 1 else 0]
  }

  ghost predicate Backward(m: Links, refs: seq<Ref>) {
    forall i | 0 <= i < |refs| :: refs[i] in m && m[refs[i]] == refs[if i > 0 then i - 1 else |refs| - 1]
  }

  ghost predicate Apart(refs: seq<Ref>) { forall i, j | 0 <= i < j < |refs| :: refs[i] != refs[j] }

  /** The blocks refs form a ring in this order, linked both ways. */
  ghost predicate Ring(next: Links, prev: Links, refs: seq<Ref>) {
    Forward(next, refs) && Backward(prev, refs) && Apart(refs)
  }

  lemma ForwardMore(m: Links, refs: seq<Ref>, r: Ref)
    requires Forward(m, refs) && Apart(refs) && refs != [] && r !in refs
    ensures Forward(m[r := refs[0]][refs[|refs| - 1] := r], refs + [r])
  {
  }

  lemma BackwardMore(m: Links, refs: seq<Ref>, r: Ref)
    requires Backward(m, refs) && Apart(refs) && refs != [] && r !in refs
    ensures Backward(m[r := refs[|refs| - 1]][refs[0] := r], refs + [r])
  {
  }

  /** The linked container c holds what the shape s says. */
  ghost predicate Holds(next: Links, prev: Links, c: Container, s: Shape)
    decreases s
  {
    match s
    case Leaf(refs) =>
      && c.Bucket? && c.count == |refs| && Ring(next, prev, refs)
      && c.head == if refs == [] then None else Some(refs[0])
    case Inner(kids) => c.Table? && |c.kids| == |kids| && forall i | 0 <= i < |kids| :: Holds(next, prev, c.kids[i], kids[i])
  }

  /** Outside the blocks x all links are as before. */
  ghost predicate SameOff(m: Links, m': Links, x: set<Ref>) {
    forall r | r !in x && r in m :: r in m' && m'[r] == m[r]
  }

  lemma {:induction false} HoldsFrame(n: Links, p: Links, n': Links, p': Links, c: Container, s: Shape, x: set<Ref>)
    requires Holds(n, p, c, s) && SameOff(n, n', x) && SameOff(p, p', x) && Refs(s) !! x
    ensures Holds(n', p', c, s)
    decreases s
  {
    match s
    case Leaf(refs) => assert forall i | 0 <= i < |refs| :: refs[i] in Refs(s);
    case Inner(kids) =>
      forall i | 0 <= i < |kids| ensures Holds(n', p', c.kids[i], kids[i]) {
        assert Refs(kids[i]) <= Refs(s);
        HoldsFrame(n, p, n', p', c.kids[i], kids[i], x);
      }
  }

  /** Kids of a proper table share no block. */
  lemma KidsApart(b: Blocks, kids: seq<Shape>, p: Prefix, i: nat, j: nat, r: Ref)
    requires Proper(b, Inner(kids), p) && i < 16 && j < 16 && i != j && r in b && Starts(b[r], p + [i])
    ensures Refs(kids[j]) !! Refs(kids[i]) + {r}
  {
    ProperRefs(b, kids[i], p + [i]);
    ProperRefs(b, kids[j], p + [j]);
    assert (p + [i])[|p|] == i && (p + [j])[|p|] == j;
  }

  class TxCBPool {
    const ids: Blocks
    var next: Links
    var prev: Links

    constructor (ids: Blocks)
      ensures this.ids == ids
    {
      this.ids, next, prev := ids, map[], map[];
    }

    /** The bucket's find: backwards along the ring, starting at the head. */
    method FindInBucket(head: Option<Ref>, id: TxID, ghost refs: seq<Ref>) returns (r: Option<Ref>)
      requires Ring(next, prev, refs) && head == (if refs == [] then None else Some(refs[0])) && DistinctIDs(ids, refs)
      ensures r == FindRef(ids, refs, id)
    {
      if head.None? { return None; }
      var current, started := head.value, false;
      ghost var i := 0;
      while !started || current != head.value
        invariant 0 <= i < |refs| && current == refs[i] && (!started ==> i == 0)
        invariant started ==> forall j | 0 <= j < |refs| && (j == 0 || j > i) :: ids[refs[j]] != id
        invariant started && i == 0 ==> forall j | 0 <= j < |refs| :: ids[refs[j]] != id
        decreases !started, i
      {
        if ids[current] == id {
          FindOnly(ids, refs, id, i);
          return Some(current);
        }
        started := true;
        i := if i > 0 then i - 1 else |refs| - 1;
        current := prev[current];
      }
      FindNone(ids, refs, id);
      return None;
    }

    /** The bucket's add, before any scaling: the block goes in behind the tail. */
    method Append(head: Option<Ref>, r: Ref, ghost refs: seq<Ref>)
      requires Ring(next, prev, refs) && head == (if refs == [] then None else Some(refs[0])) && r !in refs
      modifies this
      ensures Ring(next, prev, refs + [r])
      ensures SameOff(old(next), next, SetOf(refs) + {r}) && SameOff(old(prev), prev, SetOf(refs) + {r})
    {
      if head.None? {
        prev := prev[r := r];
        next := next[r := r];
      } else {
        var tail := prev[head.value];
        ForwardMore(next, refs, r);
        BackwardMore(prev, refs, r);
        next := next[r := next[tail]];
        prev := prev[r := tail];
        assert next[tail] == refs[0];
        prev := prev[next[tail] := r];
        next := next[tail := r];
      }
    }

    /** Adds r to the table of this layer; false when its ID is there already. */
    method Add(kids: seq<Container>, layer: nat, r: Ref, ghost s: seq<Shape>, ghost p: Prefix) returns (kids': seq<Container>, ok: bool)
      requires Holds(next, prev, Table(kids), Inner(s)) && Proper(ids, Inner(s), p) && r in ids && Starts(ids[r], p) && |p| == layer
      modifies this
      ensures Holds(next, prev, Table(kids'), TxCBTrie.Add(ids, Inner(s), layer, r).shape)
      ensures ok == TxCBTrie.Add(ids, Inner(s), layer, r).ok
      ensures SameOff(old(next), next, Refs(Inner(s)) + {r}) && SameOff(old(prev), prev, Refs(Inner(s)) + {r})
      decreases NIBBLES - layer, 2
    {
      var i := NibbleAt(ids[r], layer);
      StartsMore(ids[r], p);
      ghost var n0, p0 := next, prev;
      var c;
      if kids[i].Bucket? {
        c, ok := AddToBucket(kids[i].head, kids[i].count, layer, r, s[i].refs, p + [i]);
      } else {
        var below;
        below, ok := Add(kids[i].kids, layer + 1, r, s[i].kids, p + [i]);
        c := Table(below);
      }
      kids' := kids[i := c];
      KidReplaced(ids, n0, p0, next, prev, kids, s, p, i, r, c, TxCBTrie.Add(ids, s[i], layer + 1, r).shape);
    }

    /** Adds r to a bucket of a table of this layer. */
    method AddToBucket(head: Option<Ref>, count: nat, layer: nat, r: Ref, ghost refs: seq<Ref>, ghost p: Prefix)
      returns (c: Container, ok: bool)
      requires Holds(next, prev, Bucket(head, count), Leaf(refs)) && Proper(ids, Leaf(refs), p) && r in ids && Starts(ids[r], p)
      requires |p| == layer + 1
      modifies this
      ensures Holds(next, prev, c, TxCBTrie.Add(ids, Leaf(refs), layer + 1, r).shape)
      ensures ok == TxCBTrie.Add(ids, Leaf(refs), layer + 1, r).ok
      ensures SameOff(old(next), next, Refs(Leaf(refs)) + {r}) && SameOff(old(prev), prev, Refs(Leaf(refs)) + {r})
      decreases NIBBLES - layer, 1
    {
      var found := FindInBucket(head, ids[r], refs);
      ghost var all := refs + [r];
      BucketCases(ids, refs, layer + 1, r, p);
      if found.Some? { return Bucket(head, count), false; }
      var first := if head.None? then r else head.value;
      assert first == all[0] && count == |refs| && SCALE_SIZE == 3;
      hide *;
      ok := true;
      Append(head, r, refs);
      if count + 1 >= 3 {
        ghost var n1, p1 := next, prev;
        c := AutoScaleUp(first, layer, all, p);
        SameOffThrough(old(next), n1, next, SetOf(refs) + {r});
        SameOffThrough(old(prev), p1, prev, SetOf(refs) + {r});
      } else {
        c := Bucket(Some(first), count + 1);
        BucketHolds(next, prev, all);
      }
    }

    /** A new table one layer down gets the blocks of the ring, the next one looked up before each is relinked. */
    method AutoScaleUp(head: Ref, layer: nat, ghost refs: seq<Ref>, ghost p: Prefix) returns (c: Container)
      requires Ring(next, prev, refs) && refs != [] && refs[0] == head && DistinctIDs(ids, refs)
      requires |p| == layer + 1 < NIBBLES && (forall x | x in refs :: Starts(ids[x], p))
      modifies this
      ensures Holds(next, prev, c, Spread(ids, refs, layer + 1, |refs|))
      ensures SameOff(old(next), next, SetOf(refs)) && SameOff(old(prev), prev, SetOf(refs))
      decreases NIBBLES - layer, 0
    {
      var kids, current, nextTx, started := NEW_KIDS, head, head, false;
      ghost var i, n0, p0 := 0, next, prev;
      NewTable(ids, next, prev, refs, layer + 1, p);
      assert Apart(refs) && Forward(next, refs);
      hide *;
      while !started || nextTx != head
        invariant started == (i > 0) && 0 <= i <= |refs| && nextTx == refs[if i < |refs| then i else 0]
        invariant Scaled(ids, refs, layer + 1, p, i, n0, p0, next, prev, kids)
        decreases |refs| - i
      {
        started := true;
        StillAhead(n0, next, refs, i) by { ScaledOff(ids, refs, layer + 1, p, i, n0, p0, next, prev, kids); }
        assert i < |refs|;
        current := nextTx;
        nextTx := next[current];
        kids := HandOver(kids, layer + 1, current, refs, p, i, n0, p0);
        i := i + 1;
        ApartAt(refs, i);
      }
      ScaledEnds(ids, refs, layer + 1, p, n0, p0, next, prev, kids);
      c := Table(kids);
    }

    /** One block of the ring goes to the new table. */
    method HandOver(kids: seq<Container>, layer: nat, current: Ref, ghost refs: seq<Ref>, ghost p: Prefix, ghost i: nat, ghost n0: Links, ghost p0: Links)
      returns (kids': seq<Container>)
      requires DistinctIDs(ids, refs) && |p| == layer < NIBBLES && (forall x | x in refs :: Starts(ids[x], p))
      requires i < |refs| && current == refs[i] && Scaled(ids, refs, layer, p, i, n0, p0, next, prev, kids)
      modifies this
      ensures Scaled(ids, refs, layer, p, i + 1, n0, p0, next, prev, kids')
      decreases NIBBLES - layer, 3
    {
      ghost var s, n1, p1 := Spread(ids, refs, layer, i), next, prev;
      SpreadProper(ids, refs, p, i);
      SpreadProper(ids, refs, p, i + 1);
      SpreadMore(ids, refs, layer, i);
      assert s == Inner(s.kids) && current in refs;
      hide Proper, DistinctIDs, Starts, Spread, SameOff, Holds, Refs, TxCBTrie.Add;
      var ok;
      kids', ok := Add(kids, layer, current, s.kids, p);
      SameOffMore(n0, n1, next, refs, i, Refs(s) + {current});
      SameOffMore(p0, p1, prev, refs, i, Refs(s) + {current});
    }

    /** find: down the nibbles to a bucket, then along its ring. */
    method Find(kids: seq<Container>, layer: nat, id: TxID, ghost s: seq<Shape>, ghost p: Prefix) returns (r: Option<Ref>)
      requires Holds(next, prev, Table(kids), Inner(s)) && Proper(ids, Inner(s), p) && Starts(id, p) && |p| == layer
      ensures r == TxCBTrie.Find(ids, Inner(s), layer, id)
      decreases NIBBLES - layer
    {
      var i := NibbleAt(id, layer);
      StartsMore(id, p);
      if kids[i].Bucket? {
        r := FindInBucket(kids[i].head, id, s[i].refs);
      } else {
        r := Find(kids[i].kids, layer + 1, id, s[i].kids, p + [i]);
      }
    }
  }

  /** The first i blocks of the ring have been handed over; the others are linked as before. */
  ghost predicate Scaled(b: Blocks, refs: seq<Ref>, layer: nat, p: Prefix, i: nat, n0: Links, p0: Links, n: Links, q: Links, kids: seq<Container>) {
    && i <= |refs| && Holds(n, q, Table(kids), Spread(b, refs, layer, i))
    && SameOff(n0, n, SetOf(refs[..i])) && SameOff(p0, q, SetOf(refs[..i]))
  }

  lemma ScaledOff(b: Blocks, refs: seq<Ref>, layer: nat, p: Prefix, i: nat, n0: Links, p0: Links, n: Links, q: Links, kids: seq<Container>)
    requires Scaled(b, refs, layer, p, i, n0, p0, n, q, kids)
    ensures i <= |refs| && SameOff(n0, n, SetOf(refs[..i]))
  {
  }

  lemma ScaledEnds(b: Blocks, refs: seq<Ref>, layer: nat, p: Prefix, n0: Links, p0: Links, n: Links, q: Links, kids: seq<Container>)
    requires Scaled(b, refs, layer, p, |refs|, n0, p0, n, q, kids)
    ensures Holds(n, q, Table(kids), Spread(b, refs, layer, |refs|)) && SameOff(n0, n, SetOf(refs)) && SameOff(p0, q, SetOf(refs))
  {
    assert refs[..|refs|] == refs;
  }

  /** Only behind the last block does the ring lead back to its head. */
  lemma ApartAt(refs: seq<Ref>, i: nat)
    requires Apart(refs) && refs != [] && i <= |refs|
    ensures 0 < i < |refs| ==> refs[i] != refs[0]
  {
  }

  lemma NewTable(b: Blocks, next: Links, prev: Links, refs: seq<Ref>, layer: nat, p: Prefix)
    ensures Scaled(b, refs, layer, p, 0, next, prev, next, prev, NEW_KIDS)
  {
    assert SetOf(refs[..0]) == {};
    NewKids(next, prev, NEW_KIDS, EMPTY_TABLE.kids);
  }

  lemma NewKids(next: Links, prev: Links, ks: seq<Container>, es: seq<Shape>)
    requires |ks| == |es| && (forall i | 0 <= i < |ks| :: ks[i] == NEW_BUCKET) && (forall i | 0 <= i < |es| :: es[i] == EMPTY_BUCKET)
    ensures Holds(next, prev, Table(ks), Inner(es))
  {
    forall i | 0 <= i < |ks| ensures Holds(next, prev, ks[i], es[i]) {
      assert es[i] == EMPTY_BUCKET;
    }
  }

  /** One kid of a table replaced, the links of the others untouched. */
  lemma KidReplaced(b: Blocks, n: Links, q: Links, n': Links, q': Links, kids: seq<Container>, s: seq<Shape>, p: Prefix, i: nat, r: Ref, c: Container, t: Shape)
    requires Holds(n, q, Table(kids), Inner(s)) && Proper(b, Inner(s), p) && i < 16 && r in b && Starts(b[r], p + [i])
    requires Holds(n', q', c, t) && SameOff(n, n', Refs(s[i]) + {r}) && SameOff(q, q', Refs(s[i]) + {r})
    ensures |kids| == |s| == 16 && Holds(n', q', Table(kids[i := c]), Inner(s[i := t])) && Refs(s[i]) <= Refs(Inner(s))
  {
    var ks, ss := kids[i := c], s[i := t];
    forall j | 0 <= j < |ss| ensures Holds(n', q', ks[j], ss[j]) {
      if j != i {
        KidsApart(b, s, p, i, j, r);
        HoldsFrame(n, q, n', q', kids[j], s[j], Refs(s[i]) + {r});
      }
    }
  }

  /** What an addition to a bucket comes to, case by case. */
  lemma BucketCases(b: Blocks, refs: seq<Ref>, layer: nat, r: Ref, p: Prefix)
    requires Proper(b, Leaf(refs), p) && r in b && Starts(b[r], p) && |p| == layer
    ensures FindRef(b, refs, b[r]).Some? ==> TxCBTrie.Add(b, Leaf(refs), layer, r) == Added(Leaf(refs), false)
    ensures FindRef(b, refs, b[r]).None? ==>
              && r !in refs && DistinctIDs(b, refs + [r]) && (forall x | x in refs + [r] :: Starts(b[x], p))
              && SetOf(refs + [r]) == SetOf(refs) + {r} && Refs(Leaf(refs)) == SetOf(refs)
    ensures FindRef(b, refs, b[r]).None? && |refs| + 1 < 3 ==> TxCBTrie.Add(b, Leaf(refs), layer, r) == Added(Leaf(refs + [r]), true)
    ensures FindRef(b, refs, b[r]).None? && |refs| + 1 >= 3 ==>
              TxCBTrie.Add(b, Leaf(refs), layer, r) == Added(Spread(b, refs + [r], layer, |refs + [r]|), true) && layer < NIBBLES
  {
    if FindRef(b, refs, b[r]).None? {
      assert DistinctIDs(b, refs + [r]);
      if |refs| + 1 >= 3 { ScaleDepth(b, refs + [r], p); }
    }
  }

  lemma BucketHolds(next: Links, prev: Links, refs: seq<Ref>)
    requires Ring(next, prev, refs) && refs != []
    ensures Holds(next, prev, Bucket(Some(refs[0]), |refs|), Leaf(refs))
  {
  }

  lemma SameOffThrough(m: Links, m1: Links, m2: Links, x: set<Ref>)
    requires SameOff(m, m1, x) && SameOff(m1, m2, x)
    ensures SameOff(m, m2, x)
  {
  }

  lemma SameOffMore(m: Links, m1: Links, m2: Links, refs: seq<Ref>, i: nat, x: set<Ref>)
    requires i < |refs| && SameOff(m, m1, SetOf(refs[..i])) && SameOff(m1, m2, x) && x == SetOf(refs[..i]) + {refs[i]}
    ensures SameOff(m, m2, SetOf(refs[..i + 1]))
  {
    assert refs[..i + 1] == refs[..i] + [refs[i]];
  }

  lemma SpreadMore(b: Blocks, refs: seq<Ref>, layer: nat, i: nat)
    requires i < |refs| && layer < NIBBLES && refs[i] in b && Spread(b, refs, layer, i).Inner?
    ensures TxCBTrie.Add(b, Spread(b, refs, layer, i), layer, refs[i]).shape == Spread(b, refs, layer, i + 1)
  {
  }

  /** The links ahead are still those of the old ring. */
  lemma StillAhead(m: Links, m': Links, refs: seq<Ref>, i: nat)
    requires i < |refs| && Apart(refs) && Forward(m, refs) && SameOff(m, m', SetOf(refs[..i]))
    ensures refs[i] in m' && m'[refs[i]] == refs[if i + 1 < |refs| then i + 1 else 0]
  {
  }

  lemma {:induction false} FindOnly(b: Blocks, refs: seq<Ref>, id: TxID, i: nat)
    requires DistinctIDs(b, refs) && i < |refs| && b[refs[i]] == id
    ensures FindRef(b, refs, id) == Some(refs[i])
  {
    if i > 0 {
      assert b[refs[0]] != b[refs[i]];
      FindOnly(b, refs[1..], id, i - 1);
    }
  }

  lemma {:induction false} FindNone(b: Blocks, refs: seq<Ref>, id: TxID)
    requires DistinctIDs(b, refs) && forall j | 0 <= j < |refs| :: b[refs[j]] != id
    ensures FindRef(b, refs, id) == None
  {
    if refs != [] { FindNone(b, refs[1..], id); }
  }
}
