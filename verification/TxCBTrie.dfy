/**
  The transaction table: sixteen-way tables over the nibbles of a transaction ID, whose leaves are
  buckets of at most two entries.  This module is the abstract side: what a bucket and a table hold.
*/
module TxCBTrie {
  import opened Bytes
  import opened Seqs

  type TxID = s: seq<Byte> | |s| == 20 witness [0, 0, 0, 0, 0, 0, 0, 0, 0, 0, 0, 0, 0, 0, 0, 0, 0, 0, 0, 0]

  /** A transaction control block, by name. */
  type Ref = nat
  type Blocks = map<Ref, TxID>

  const NIBBLES: nat := 40
  const SCALE_SIZE: nat := 3

  /** The symbol that a table of this layer dispatches on. */
  function NibbleAt(id: TxID, layer: nat): (n: nat)
    requires layer < NIBBLES
    ensures n < 16
  {
    if layer % 2 == 0 then id[layer / 2] / 16 else id[layer / 2] % 16
  }

  /** A bucket's blocks in ring order, or sixteen containers one layer down. */
  datatype Shape = Leaf(refs: seq<Ref>) | Inner(kids: seq<Shape>)

  ghost function SetOf(refs: seq<Ref>): set<Ref> { set r | r in refs }

  ghost function Refs(s: Shape): set<Ref> {
    match s
    case Leaf(refs) => SetOf(refs)
    case Inner(kids) => set i, r | 0 <= i < |kids| && r in Refs(kids[i]) :: r
  }

  type Prefix = seq<nat>

  /** The first nibbles of the ID. */
  ghost predicate Starts(id: TxID, p: Prefix) {
    |p| <= NIBBLES && forall j | 0 <= j < |p| :: NibbleAt(id, j) == p[j]
  }

  ghost predicate DistinctIDs(b: Blocks, refs: seq<Ref>) {
    && (forall r | r in refs :: r in b)
    && (forall i, j | 0 <= i < j < |refs| :: b[refs[i]] != b[refs[j]])
  }

  /** A container whose blocks all start with p: small buckets, IDs in their place, none twice. */
  ghost predicate Proper(b: Blocks, s: Shape, p: Prefix) {
    match s
    case Leaf(refs) => |refs| < SCALE_SIZE && DistinctIDs(b, refs) && forall r | r in refs :: Starts(b[r], p)
    case Inner(kids) => |kids| == 16 && |p| < NIBBLES && forall i | 0 <= i < 16 :: Proper(b, kids[i], p + [i])
  }

  const EMPTY_BUCKET: Shape := Leaf([])
  const EMPTY_TABLE: Shape := Inner([
    EMPTY_BUCKET, EMPTY_BUCKET, EMPTY_BUCKET, EMPTY_BUCKET, EMPTY_BUCKET, EMPTY_BUCKET, EMPTY_BUCKET, EMPTY_BUCKET,
    EMPTY_BUCKET, EMPTY_BUCKET, EMPTY_BUCKET, EMPTY_BUCKET, EMPTY_BUCKET, EMPTY_BUCKET, EMPTY_BUCKET, EMPTY_BUCKET])

  // ---------------------------------------------------------------- find

  function FindRef(b: Blocks, refs: seq<Ref>, id: TxID): (r: Option<Ref>)
    ensures r.Some? ==> r.value in refs && r.value in b && b[r.value] == id
    ensures r.None? ==> forall x | x in refs && x in b :: b[x] != id
  {
    if refs == [] then None
    else if refs[0] in b && b[refs[0]] == id then Some(refs[0])
    else FindRef(b, refs[1..], id)
  }

  function Find(b: Blocks, s: Shape, layer: nat, id: TxID): Option<Ref> {
    match s
    case Leaf(refs) => FindRef(b, refs, id)
    case Inner(kids) =>
      if layer < NIBBLES && NibbleAt(id, layer) < |kids| then Find(b, kids[NibbleAt(id, layer)], layer + 1, id) else None
  }

  // ---------------------------------------------------------------- add

  /** Whether the block was added, and the container afterwards. */
  datatype Added = Added(shape: Shape, ok: bool)

  /** Adds r to the container s, which holds what starts with some p: |p| is the layer of a table in its place. */
  function Add(b: Blocks, s: Shape, layer: nat, r: Ref): Added
    requires r in b
    decreases NIBBLES - layer, 2
  {
    match s
    case Leaf(refs) => AddToBucket(b, refs, layer, r)
    case Inner(kids) =>
      if layer >= NIBBLES || NibbleAt(b[r], layer) >= |kids| then Added(s, false)
      else
        var i := NibbleAt(b[r], layer);
        var a := Add(b, kids[i], layer + 1, r);
        Added(Inner(kids[i := a.shape]), a.ok)
  }

  /** A bucket that comes to three blocks becomes a table one layer down. */
  function AddToBucket(b: Blocks, refs: seq<Ref>, layer: nat, r: Ref): Added
    requires r in b
    decreases NIBBLES - layer, 1
  {
    if FindRef(b, refs, b[r]).Some? then Added(Leaf(refs), false)
    else if |refs| + 1 < SCALE_SIZE then Added(Leaf(refs + [r]), true)
    else Added(Spread(b, refs + [r], layer, |refs| + 1), true)
  }

  /** A new table with the first n blocks added one after another. */
  function Spread(b: Blocks, refs: seq<Ref>, layer: nat, n: nat): Shape
    decreases NIBBLES - layer, 0, n
  {
    if n == 0 || n > |refs| || layer >= NIBBLES || refs[n - 1] !in b then EMPTY_TABLE
    else
      var s := Spread(b, refs, layer, n - 1);
      match s
      case Leaf(_) => s
      case Inner(kids) =>
        var i := NibbleAt(b[refs[n - 1]], layer);
        if i < |kids| then Inner(kids[i := Add(b, kids[i], layer + 1, refs[n - 1]).shape]) else s
  }

  // ---------------------------------------------------------------- the trie is a set of IDs

  /** Forty nibbles determine an ID. */
  lemma NibblesDetermine(x: TxID, y: TxID, p: Prefix)
    requires |p| == NIBBLES && Starts(x, p) && Starts(y, p)
    ensures x == y
  {
    forall i | 0 <= i < 20 ensures x[i] == y[i] {
      assert NibbleAt(x, 2 * i) == p[2 * i] == NibbleAt(y, 2 * i);
      assert NibbleAt(x, 2 * i + 1) == p[2 * i + 1] == NibbleAt(y, 2 * i + 1);
    }
  }

  lemma StartsMore(id: TxID, p: Prefix)
    requires Starts(id, p) && |p| < NIBBLES
    ensures Starts(id, p + [NibbleAt(id, |p|)])
  {
  }

  /** No block of s has this ID. */
  ghost predicate Lacks(b: Blocks, s: Shape, id: TxID) { forall r | r in Refs(s) && r in b :: b[r] != id }

  lemma {:induction false} ProperRefs(b: Blocks, s: Shape, p: Prefix)
    requires Proper(b, s, p)
    ensures forall r | r in Refs(s) :: r in b && Starts(b[r], p)
  {
    if s.Inner? {
      forall r | r in Refs(s) ensures r in b && Starts(b[r], p) {
        var i :| 0 <= i < |s.kids| && r in Refs(s.kids[i]);
        ProperRefs(b, s.kids[i], p + [i]);
        assert forall j | 0 <= j < |p| :: (p + [i])[j] == p[j];
      }
    }
  }

  /** An ID can only be found below its own nibble. */
  lemma OtherKids(b: Blocks, s: Shape, p: Prefix, id: TxID)
    requires Proper(b, s, p) && s.Inner? && Starts(id, p)
    ensures Lacks(b, s, id) <==> Lacks(b, s.kids[NibbleAt(id, |p|)], id)
  {
    var i := NibbleAt(id, |p|);
    if Lacks(b, s.kids[i], id) {
      forall r | r in Refs(s) && r in b ensures b[r] != id {
        var j :| 0 <= j < |s.kids| && r in Refs(s.kids[j]);
        ProperRefs(b, s.kids[j], p + [j]);
        assert (p + [j])[|p|] == j;
      }
    }
  }

  /** find succeeds exactly on the IDs held. */
  lemma {:induction false} FindExactly(b: Blocks, s: Shape, p: Prefix, id: TxID)
    requires Proper(b, s, p) && Starts(id, p)
    ensures Find(b, s, |p|, id).None? <==> Lacks(b, s, id)
    ensures Find(b, s, |p|, id).Some? ==>
              Find(b, s, |p|, id).value in Refs(s) && Find(b, s, |p|, id).value in b && b[Find(b, s, |p|, id).value] == id
    decreases s
  {
    if s.Inner? {
      var i := NibbleAt(id, |p|);
      StartsMore(id, p);
      FindExactly(b, s.kids[i], p + [i], id);
      OtherKids(b, s, p, id);
    }
  }

  lemma KidRefs(kids: seq<Shape>, i: nat, k: Shape, x: set<Ref>)
    requires i < |kids| && Refs(k) == Refs(kids[i]) + x
    ensures Refs(Inner(kids[i := k])) == Refs(Inner(kids)) + x
  {
    var ks := kids[i := k];
    forall r | r in Refs(Inner(kids)) ensures r in Refs(Inner(ks)) {
      var j :| 0 <= j < |kids| && r in Refs(kids[j]);
      assert r in Refs(ks[j]);
    }
    forall r | r in x ensures r in Refs(Inner(ks)) { assert r in Refs(ks[i]); }
    forall r | r in Refs(Inner(ks)) ensures r in Refs(Inner(kids)) + x {
      var j :| 0 <= j < |ks| && r in Refs(ks[j]);
      assert r in Refs(kids[j]) || r in x;
    }
  }

  /** What an addition to the container s does: r is in, unless its ID was. */
  ghost predicate AddsTo(b: Blocks, s: Shape, p: Prefix, r: Ref, a: Added)
    requires r in b
  {
    && Proper(b, a.shape, p) && (a.ok <==> Lacks(b, s, b[r]))
    && Refs(a.shape) == Refs(s) + (if a.ok then {r} else {}) && (s.Inner? ==> a.shape.Inner?)
  }

  lemma {:induction false} AddProper(b: Blocks, s: Shape, p: Prefix, r: Ref)
    requires Proper(b, s, p) && r in b && Starts(b[r], p)
    ensures AddsTo(b, s, p, r, Add(b, s, |p|, r))
    decreases NIBBLES - |p|, 2
  {
    match s
    case Leaf(refs) => BucketProper(b, refs, p, r);
    case Inner(kids) =>
      var i := NibbleAt(b[r], |p|);
      StartsMore(b[r], p);
      AddProper(b, kids[i], p + [i], r);
      KidAdded(b, kids, p, i, Add(b, kids[i], |p| + 1, r), r);
  }

  lemma KidAdded(b: Blocks, kids: seq<Shape>, p: Prefix, i: nat, a: Added, r: Ref)
    requires Proper(b, Inner(kids), p) && r in b && Starts(b[r], p) && i == NibbleAt(b[r], |p|)
    requires AddsTo(b, kids[i], p + [i], r, a)
    ensures AddsTo(b, Inner(kids), p, r, Added(Inner(kids[i := a.shape]), a.ok))
  {
    OtherKids(b, Inner(kids), p, b[r]);
    KidRefs(kids, i, a.shape, if a.ok then {r} else {});
  }

  lemma {:induction false} BucketProper(b: Blocks, refs: seq<Ref>, p: Prefix, r: Ref)
    requires Proper(b, Leaf(refs), p) && r in b && Starts(b[r], p)
    ensures AddsTo(b, Leaf(refs), p, r, AddToBucket(b, refs, |p|, r))
    decreases NIBBLES - |p|, 1
  {
    if FindRef(b, refs, b[r]).None? {
      var all := refs + [r];
      assert DistinctIDs(b, all);
      assert forall x | x in all :: Starts(b[x], p);
      if |all| == SCALE_SIZE {
        ScaleDepth(b, all, p);
        SpreadProper(b, all, p, |all|);
        assert all[..|all|] == all;
      }
    }
  }

  /** Three blocks with different IDs and a common prefix: there is a nibble left to tell them apart. */
  lemma ScaleDepth(b: Blocks, refs: seq<Ref>, p: Prefix)
    requires DistinctIDs(b, refs) && |refs| >= 2 && forall x | x in refs :: Starts(b[x], p)
    ensures |p| < NIBBLES
  {
    if |p| == NIBBLES { NibblesDetermine(b[refs[0]], b[refs[1]], p); }
  }

  lemma EmptyTable(b: Blocks, p: Prefix)
    requires |p| < NIBBLES
    ensures Proper(b, EMPTY_TABLE, p) && Refs(EMPTY_TABLE) == {}
  {
    assert forall i | 0 <= i < 16 :: EMPTY_TABLE.kids[i] == EMPTY_BUCKET;
  }

  /** Scaling up keeps every block. */
  lemma {:induction false} SpreadProper(b: Blocks, refs: seq<Ref>, p: Prefix, n: nat)
    requires DistinctIDs(b, refs) && n <= |refs| && |p| < NIBBLES && forall x | x in refs :: Starts(b[x], p)
    ensures Spread(b, refs, |p|, n).Inner? && Proper(b, Spread(b, refs, |p|, n), p)
    ensures Refs(Spread(b, refs, |p|, n)) == SetOf(refs[..n])
    decreases NIBBLES - |p|, 0, n
  {
    if n == 0 {
      EmptyTable(b, p);
    } else {
      SpreadProper(b, refs, p, n - 1);
      var s, r := Spread(b, refs, |p|, n - 1), refs[n - 1];
      var i := NibbleAt(b[r], |p|);
      StartsMore(b[r], p);
      AddProper(b, s.kids[i], p + [i], r);
      KidAdded(b, s.kids, p, i, Add(b, s.kids[i], |p| + 1, r), r);
      assert Lacks(b, s, b[r]);
      assert refs[..n] == refs[..n - 1] + [r];
    }
  }

  // ---------------------------------------------------------------- runs

  /** The root table after a sequence of additions, and which of them were accepted. */
  function Run(b: Blocks, rs: seq<Ref>): (Shape, seq<bool>)
    requires forall r | r in rs :: r in b
    decreases |rs|
  {
    if rs == [] then (EMPTY_TABLE, [])
    else
      var (s, oks) := Run(b, rs[..|rs| - 1]);
      var a := Add(b, s, 0, rs[|rs| - 1]);
      (a.shape, oks + [a.ok])
  }

  /** No block of the sequence has this ID. */
  ghost predicate Unused(b: Blocks, rs: seq<Ref>, id: TxID) { forall j | 0 <= j < |rs| && rs[j] in b :: b[rs[j]] != id }

  /**
    After any additions the table holds exactly the IDs that were added, and an addition was refused
    exactly when its ID had been added before.
  */
  lemma {:induction false} RunIsSet(b: Blocks, rs: seq<Ref>)
    requires forall r | r in rs :: r in b
    ensures Proper(b, Run(b, rs).0, []) && |Run(b, rs).1| == |rs|
    ensures forall id :: Lacks(b, Run(b, rs).0, id) <==> Unused(b, rs, id)
    ensures forall k | 0 <= k < |rs| :: Run(b, rs).1[k] <==> Unused(b, rs[..k], b[rs[k]])
    decreases |rs|
  {
    if rs == [] {
      EmptyTable(b, []);
    } else {
      var n := |rs| - 1;
      var init, r := rs[..n], rs[n];
      RunIsSet(b, init);
      var s := Run(b, init).0;
      AddProper(b, s, [], r);
      var a := Add(b, s, 0, r);
      assert Run(b, rs) == (a.shape, Run(b, init).1 + [a.ok]);
      assert rs == init + [r];
      hide Proper, Add, Run;
      forall id ensures Lacks(b, a.shape, id) <==> Unused(b, rs, id) {
        AddLacks(b, s, r, a, id);
        UnusedMore(b, init, r, id);
      }
      forall k | 0 <= k < |rs| ensures (Run(b, init).1 + [a.ok])[k] <==> Unused(b, rs[..k], b[rs[k]]) {
        if k < n { assert rs[..k] == init[..k] && rs[k] == init[k]; }
      }
    }
  }

  lemma UnusedMore(b: Blocks, rs: seq<Ref>, r: Ref, id: TxID)
    requires r in b
    ensures Unused(b, rs + [r], id) <==> Unused(b, rs, id) && b[r] != id
  {
    assert (rs + [r])[|rs|] == r;
    assert forall j | 0 <= j < |rs| :: (rs + [r])[j] == rs[j];
  }

  /** After any additions find succeeds exactly on the IDs that were added. */
  lemma RunFinds(b: Blocks, rs: seq<Ref>, id: TxID)
    requires forall r | r in rs :: r in b
    ensures Find(b, Run(b, rs).0, 0, id).None? <==> Unused(b, rs, id)
    ensures Find(b, Run(b, rs).0, 0, id).Some? ==> b.Keys >= {Find(b, Run(b, rs).0, 0, id).value} && b[Find(b, Run(b, rs).0, 0, id).value] == id
  {
    RunIsSet(b, rs);
    FindExactly(b, Run(b, rs).0, [], id);
  }

  lemma AddLacks(b: Blocks, s: Shape, r: Ref, a: Added, id: TxID)
    requires r in b && AddsTo(b, s, [], r, a)
    ensures Lacks(b, a.shape, id) <==> Lacks(b, s, id) && b[r] != id
  {
    if !a.ok {
      assert !Lacks(b, s, b[r]);
    }
  }
}
