/** The pool of block headers under two indices, and the chain that grows and is walked through it. */
module HeaderChain {
  import opened Mining
  import opened Seqs

  function Zero(): (d: Digest) { EIGHT + EIGHT + EIGHT + EIGHT }

  function HashOf(hash: Hash, h: Header): Digest { hash(PrintHeader(h)) }

  type ByHash = map<Digest, Header>
  type ByPrev = map<Digest, seq<Header>>

  /** Headers whose predecessor has this hash, in the order they came. */
  function Followers(byPrev: ByPrev, d: Digest): seq<Header> { if d in byPrev then byPrev[d] else [] }

  /** Each header is under its own hash and behind its predecessor's; one index has what the other has. */
  ghost predicate Indexed(hash: Hash, byHash: ByHash, byPrev: ByPrev) {
    HashesKnown(hash, byHash, byPrev) && FollowersKnown(hash, byHash, byPrev)
  }

  ghost predicate HashesKnown(hash: Hash, byHash: ByHash, byPrev: ByPrev) {
    forall d | d in byHash :: HashOf(hash, byHash[d]) == d && byHash[d] in Followers(byPrev, byHash[d].prev)
  }

  ghost predicate FollowersKnown(hash: Hash, byHash: ByHash, byPrev: ByPrev) {
    forall d, h | h in Followers(byPrev, d) :: h.prev == d && d != Zero() && HashOf(hash, h) in byHash
  }

  lemma PushIndexed(hash: Hash, byHash: ByHash, byPrev: ByPrev, h: Header)
    requires Indexed(hash, byHash, byPrev) && h.prev != Zero()
    ensures var c := byPrev[h.prev := Followers(byPrev, h.prev) + [h]];
            Indexed(hash, if HashOf(hash, h) in byHash then byHash else byHash[HashOf(hash, h) := h], c)
  {
    var c := byPrev[h.prev := Followers(byPrev, h.prev) + [h]];
    var index := if HashOf(hash, h) in byHash then byHash else byHash[HashOf(hash, h) := h];
    forall d, x ensures x in Followers(c, d) <==> x in Followers(byPrev, d) || (d == h.prev && x == h) {
      FollowersPushed(byPrev, h, d, x);
    }
    hide *;
    IndexedParts(hash, byHash, byPrev);
    HashesStay(hash, byHash, byPrev, c);
    if HashOf(hash, h) !in byHash { HashesAdd(hash, byHash, c, h); }
    FollowersAdd(hash, byHash, index, byPrev, c, h);
    IndexedParts(hash, index, c);
  }

  lemma IndexedParts(hash: Hash, byHash: ByHash, byPrev: ByPrev)
    ensures Indexed(hash, byHash, byPrev) <==> HashesKnown(hash, byHash, byPrev) && FollowersKnown(hash, byHash, byPrev)
  {
  }

  lemma HashesStay(hash: Hash, byHash: ByHash, byPrev: ByPrev, c: ByPrev)
    requires HashesKnown(hash, byHash, byPrev) && forall d, x | x in Followers(byPrev, d) :: x in Followers(c, d)
    ensures HashesKnown(hash, byHash, c)
  {
    hide HashOf, Followers;
  }

  lemma HashesAdd(hash: Hash, byHash: ByHash, c: ByPrev, h: Header)
    requires HashesKnown(hash, byHash, c) && HashOf(hash, h) !in byHash && h in Followers(c, h.prev)
    ensures HashesKnown(hash, byHash[HashOf(hash, h) := h], c)
  {
    hide HashOf, Followers;
    var index := byHash[HashOf(hash, h) := h];
    forall d | d in index ensures HashOf(hash, index[d]) == d && index[d] in Followers(c, index[d].prev) {
      if d != HashOf(hash, h) { assert d in byHash && index[d] == byHash[d]; }
    }
  }

  lemma FollowersAdd(hash: Hash, byHash: ByHash, index: ByHash, byPrev: ByPrev, c: ByPrev, h: Header)
    requires FollowersKnown(hash, byHash, byPrev) && h.prev != Zero() && HashOf(hash, h) in index && (forall d | d in byHash :: d in index)
    requires forall d, x | x in Followers(c, d) :: x in Followers(byPrev, d) || (d == h.prev && x == h)
    ensures FollowersKnown(hash, index, c)
  {
    hide HashOf, Followers, Zero;
    forall d, x | x in Followers(c, d) ensures x.prev == d && d != Zero() && HashOf(hash, x) in index {
      if x in Followers(byPrev, d) { assert HashOf(hash, x) in byHash; }
    }
  }

  lemma FollowersPushed(byPrev: ByPrev, h: Header, d: Digest, x: Header)
    ensures var c := byPrev[h.prev := Followers(byPrev, h.prev) + [h]];
            x in Followers(c, d) <==> x in Followers(byPrev, d) || (d == h.prev && x == h)
  {
  }

  class BlockHeaderPool {
    const hash: Hash
    var byHash: ByHash
    var byPrev: ByPrev

    constructor (hash: Hash)
      ensures this.hash == hash && byHash == map[] && byPrev == map[] && Indexed(hash, byHash, byPrev)
    {
      this.hash, byHash, byPrev := hash, map[], map[];
    }

    /** Headers without a predecessor are refused; a second header of the same hash only enters one index. */
    method Push(target: Header) returns (ok: bool, count: nat)
      requires Indexed(hash, byHash, byPrev)
      modifies this
      ensures Indexed(hash, byHash, byPrev)
      ensures ok <==> target.prev != Zero()
      ensures !ok ==> byHash == old(byHash) && byPrev == old(byPrev) && count == 0
      ensures ok ==> byPrev == old(byPrev)[target.prev := Followers(old(byPrev), target.prev) + [target]]
      ensures ok ==> count == |Followers(byPrev, target.prev)|
      ensures ok ==> byHash == if HashOf(hash, target) in old(byHash) then old(byHash) else old(byHash)[HashOf(hash, target) := target]
    {
      if target.prev == Zero() { return false, 0; }
      var others := Followers(byPrev, target.prev);
      byPrev := byPrev[target.prev := others + [target]];
      if HashOf(hash, target) !in byHash { byHash := byHash[HashOf(hash, target) := target]; }
      ok, count := true, |others| + 1;
      PushIndexed(hash, old(byHash), old(byPrev), target);
    }

    method FindByBlockHash(d: Digest) returns (h: Option<Header>)
      ensures h == if d in byHash then Some(byHash[d]) else None
    {
      h := if d in byHash then Some(byHash[d]) else None;
    }

    method FindByPrevBlockHash(d: Digest) returns (hs: seq<Header>)
      ensures hs == Followers(byPrev, d)
    {
      hs := Followers(byPrev, d);
    }
  }

  // ---------------------------------------------------------------- the forced path

  /** From each header on there is exactly one way. */
  ghost predicate ForcedPath(hash: Hash, byPrev: ByPrev, p: seq<Header>) {
    p != [] && forall i | 0 <= i < |p| - 1 :: Followers(byPrev, HashOf(hash, p[i])) == [p[i + 1]]
  }

  /** From each header on to one of those behind it. */
  ghost predicate Follows(hash: Hash, byPrev: ByPrev, p: seq<Header>) {
    p != [] && forall i | 0 <= i < |p| - 1 :: p[i + 1] in Followers(byPrev, HashOf(hash, p[i]))
  }

  ghost predicate IsStop(hash: Hash, stop: Option<Digest>, h: Header) { stop.Some? && HashOf(hash, h) == stop.value }

  /** The path ends at the stop hash, or where there is no way or more than one; not before. */
  ghost predicate Ends(hash: Hash, byPrev: ByPrev, stop: Option<Digest>, p: seq<Header>) {
    && p != [] && (IsStop(hash, stop, p[|p| - 1]) || |Followers(byPrev, HashOf(hash, p[|p| - 1]))| != 1)
    && forall i | 0 <= i < |p| - 1 :: !IsStop(hash, stop, p[i])
  }

  /** There is one such path from each header. */
  lemma {:induction false} PathIsUnique(hash: Hash, byPrev: ByPrev, stop: Option<Digest>, p: seq<Header>, q: seq<Header>)
    requires ForcedPath(hash, byPrev, p) && ForcedPath(hash, byPrev, q) && p[0] == q[0]
    requires Ends(hash, byPrev, stop, p) && Ends(hash, byPrev, stop, q)
    ensures p == q
  {
    GoesOn(hash, byPrev, stop, p);
    GoesOn(hash, byPrev, stop, q);
    if |p| > 1 {
      assert [p[1]] == [q[1]];
      PathIsUnique(hash, byPrev, stop, p[1..], q[1..]);
      assert p == [p[0]] + p[1..] && q == [q[0]] + q[1..];
    }
  }

  /** Whether the path goes on behind its first header is for that header to say. */
  lemma GoesOn(hash: Hash, byPrev: ByPrev, stop: Option<Digest>, p: seq<Header>)
    requires ForcedPath(hash, byPrev, p) && Ends(hash, byPrev, stop, p)
    ensures |p| > 1 <==> !IsStop(hash, stop, p[0]) && |Followers(byPrev, HashOf(hash, p[0]))| == 1
    ensures |p| > 1 ==> ForcedPath(hash, byPrev, p[1..]) && Ends(hash, byPrev, stop, p[1..])
    ensures |p| > 1 ==> Followers(byPrev, HashOf(hash, p[0])) == [p[1]]
  {
    hide HashOf, Followers, IsStop;
    if |p| > 1 {
      var q := p[1..];
      assert q[|q| - 1] == p[|p| - 1];
      assert Followers(byPrev, HashOf(hash, p[0])) == [p[1]] && !IsStop(hash, stop, p[0]);
      forall i | 0 <= i < |q| - 1 ensures Followers(byPrev, HashOf(hash, q[i])) == [q[i + 1]] && !IsStop(hash, stop, q[i]) {
        assert q[i] == p[i + 1] && q[i + 1] == p[i + 2];
      }
    }
  }

  /** Heights grow from a header to those behind it, and are bounded: the pool has no cycle. */
  ghost predicate Acyclic(hash: Hash, byHash: ByHash, byPrev: ByPrev, height: Header -> nat, top: nat) {
    && (forall d, h | h in Followers(byPrev, d) :: height(h) <= top)
    && (forall g, h | h in Followers(byPrev, HashOf(hash, g)) :: height(g) < height(h))
    && (forall g: Header, h: Header | h.prev in byHash && byHash[h.prev] == g :: height(g) < height(h))
  }

  lemma PathOne(hash: Hash, byPrev: ByPrev, h: Header)
    ensures Follows(hash, byPrev, [h]) && ForcedPath(hash, byPrev, [h])
  {
  }

  /** One more header on the path. */
  lemma PathMore(hash: Hash, byPrev: ByPrev, stop: Option<Digest>, p: seq<Header>, h: Header)
    requires Follows(hash, byPrev, p) && h in Followers(byPrev, HashOf(hash, p[|p| - 1])) && !IsStop(hash, stop, p[|p| - 1])
    requires forall i | 0 <= i < |p| - 1 :: !IsStop(hash, stop, p[i])
    ensures Follows(hash, byPrev, p + [h]) && forall i | 0 <= i < |p| :: !IsStop(hash, stop, (p + [h])[i])
    ensures ForcedPath(hash, byPrev, p) && Followers(byPrev, HashOf(hash, p[|p| - 1])) == [h] ==> ForcedPath(hash, byPrev, p + [h])
  {
    hide HashOf, Followers, IsStop;
    var q := p + [h];
    assert forall i | 0 <= i < |p| :: q[i] == p[i];
  }

  /** Why a path ends where it does. */
  lemma EndsIs(hash: Hash, byPrev: ByPrev, stop: Option<Digest>, p: seq<Header>)
    requires p != [] && forall i | 0 <= i < |p| - 1 :: !IsStop(hash, stop, p[i])
    ensures IsStop(hash, stop, p[|p| - 1]) <==> stop.Some? && HashOf(hash, p[|p| - 1]) == stop.value
    ensures Ends(hash, byPrev, stop, p) <==> IsStop(hash, stop, p[|p| - 1]) || |Followers(byPrev, HashOf(hash, p[|p| - 1]))| != 1
  {
  }

  lemma HigherUp(hash: Hash, byHash: ByHash, byPrev: ByPrev, height: Header -> nat, top: nat, g: Header, h: Header)
    requires Acyclic(hash, byHash, byPrev, height, top) && h in Followers(byPrev, HashOf(hash, g))
    ensures height(g) < height(h) <= top
  {
  }

  /** Seconds, in 32 bits. */
  type Time = t: nat | t < 0x1_0000_0000

  const SUBCHAIN_LIFETIME: nat := 7

  /** The readings of the clock, one after another: two for each header moved to, one in front of it and one behind. */
  type Clock = nat -> Time

  /** When the chain was last extended, after it moved i times. */
  function UpdatedAt(clock: Clock, before: Time, i: nat): Time { if i == 0 then before else clock(2 * i - 1) }

  /** The chain's lifetime had not run out when it was to move once more; the difference wraps round. */
  predicate Alive(clock: Clock, before: Time, i: nat) {
    (clock(2 * i) - UpdatedAt(clock, before, i)) % 0x1_0000_0000 < SUBCHAIN_LIFETIME
  }

  class VirtualHeaderSubChain {
    const pool: BlockHeaderPool
    const stopHash: Option<Digest>
    var latest: Header
    var isStoped: bool
    var updatedAt: Time

    constructor (pool: BlockHeaderPool, start: Header, stopHash: Option<Digest>, now: Time)
      ensures this.pool == pool && this.stopHash == stopHash && latest == start && !isStoped && updatedAt == now
    {
      this.pool, this.stopHash, latest, isStoped, updatedAt := pool, stopHash, start, false, now;
    }

    /**
      Goes on along the headers of the pool; true at the stop hash. At a fork it stops (action 0) or picks
      any way (action 1). It expires exactly when the clock finds its lifetime run out, and moves before that.
    */
    method Extend(action: nat, clock: Clock, ghost height: Header -> nat, ghost top: nat)
      returns (stopped: bool, ghost p: seq<Header>, ghost expired: bool)
      requires action <= 1 && Acyclic(pool.hash, pool.byHash, pool.byPrev, height, top)
      modifies this
      ensures Follows(pool.hash, pool.byPrev, p) && p[0] == old(latest) && p[|p| - 1] == latest
      ensures forall i | 0 <= i < |p| - 1 :: !IsStop(pool.hash, stopHash, p[i]) && Alive(clock, old(updatedAt), i)
      ensures expired <==> !Alive(clock, old(updatedAt), |p| - 1)
      ensures action == 0 ==> ForcedPath(pool.hash, pool.byPrev, p)
      ensures stopped <==> !expired && IsStop(pool.hash, stopHash, latest)
      ensures !expired && action == 0 ==> Ends(pool.hash, pool.byPrev, stopHash, p)
      ensures !expired && action == 1 ==> stopped || Followers(pool.byPrev, HashOf(pool.hash, latest)) == []
      ensures isStoped == (stopped || old(isStoped)) && updatedAt == UpdatedAt(clock, old(updatedAt), |p| - 1)
    {
      p, expired := [latest], false;
      var reading := 0;
      hide Acyclic, HashOf, IsStop, Followers, Ends, ForcedPath, Follows;
      PathOne(pool.hash, pool.byPrev, latest);
      while true
        invariant p != [] && Follows(pool.hash, pool.byPrev, p) && p[0] == old(latest) && p[|p| - 1] == latest
        invariant action == 0 ==> ForcedPath(pool.hash, pool.byPrev, p)
        invariant forall i | 0 <= i < |p| - 1 :: !IsStop(pool.hash, stopHash, p[i]) && Alive(clock, old(updatedAt), i)
        invariant |p| > 1 ==> height(latest) <= top
        invariant isStoped == old(isStoped) && !expired
        invariant reading == 2 * (|p| - 1) && updatedAt == UpdatedAt(clock, old(updatedAt), |p| - 1)
        decreases |p| == 1, top - height(latest)
      {
        if (clock(reading) - updatedAt) % 0x1_0000_0000 >= SUBCHAIN_LIFETIME { return false, p, true; }
        assert Alive(clock, old(updatedAt), |p| - 1);
        EndsIs(pool.hash, pool.byPrev, stopHash, p);
        if stopHash.Some? && HashOf(pool.hash, latest) == stopHash.value {
          isStoped := true;
          return true, p, false;
        }
        var found := pool.FindByPrevBlockHash(HashOf(pool.hash, latest));
        if found == [] { return false, p, false; }
        if |found| > 1 {
          if action == 0 { return false, p, false; }
          var pick: nat :| pick < |found|;
          latest := found[pick];
        } else {
          assert found == [found[0]];
          latest := found[0];
        }
        updatedAt := clock(reading + 1);
        reading := reading + 2;
        PathMore(pool.hash, pool.byPrev, stopHash, p, latest);
        HigherUp(pool.hash, pool.byHash, pool.byPrev, height, top, p[|p| - 1], latest);
        p := p + [latest];
      }
    }

    /** From the latest header back through the predecessors that the pool knows. */
    method ExportChainVector(ghost height: Header -> nat, ghost top: nat) returns (v: seq<Header>)
      requires Acyclic(pool.hash, pool.byHash, pool.byPrev, height, top)
      ensures BackPath(pool.byHash, v) && v[0] == latest && EndsBack(pool.byHash, v)
    {
      v := [latest];
      while v[|v| - 1].prev != Zero() && v[|v| - 1].prev in pool.byHash
        invariant BackPath(pool.byHash, v) && v[0] == latest
        decreases height(v[|v| - 1])
      {
        var h := pool.FindByBlockHash(v[|v| - 1].prev);
        v := v + [h.value];
      }
    }
  }

  ghost predicate BackPath(byHash: ByHash, v: seq<Header>) {
    v != [] && forall i | 0 <= i < |v| - 1 :: v[i].prev != Zero() && v[i].prev in byHash && v[i + 1] == byHash[v[i].prev]
  }

  ghost predicate EndsBack(byHash: ByHash, v: seq<Header>) {
    v != [] && (v[|v| - 1].prev == Zero() || v[|v| - 1].prev !in byHash)
  }

  /** Equal hashes in the pool mean equal headers. */
  ghost predicate NoCollisions(hash: Hash, byHash: ByHash, byPrev: ByPrev) {
    forall d, h | h in Followers(byPrev, d) && HashOf(hash, h) in byHash :: byHash[HashOf(hash, h)] == h
  }

  lemma Known(hash: Hash, byHash: ByHash, byPrev: ByPrev, h: Header, d: Digest)
    requires Indexed(hash, byHash, byPrev) && NoCollisions(hash, byHash, byPrev) && h in Followers(byPrev, d)
    ensures HashOf(hash, h) in byHash && byHash[HashOf(hash, h)] == h
  {
  }

  /** Two neighbours on a path: the later one leads back to the hash of the earlier one. */
  lemma StepBack(hash: Hash, byHash: ByHash, byPrev: ByPrev, p: seq<Header>, k: nat)
    requires Indexed(hash, byHash, byPrev) && NoCollisions(hash, byHash, byPrev) && Follows(hash, byPrev, p) && 0 < k < |p|
    ensures p[k].prev == HashOf(hash, p[k - 1]) != Zero()
    ensures k > 1 ==> p[k].prev in byHash && byHash[p[k].prev] == p[k - 1]
  {
    assert p[k - 1 + 1] in Followers(byPrev, HashOf(hash, p[k - 1]));
    if k > 1 {
      assert p[k - 2 + 1] in Followers(byPrev, HashOf(hash, p[k - 2]));
      Known(hash, byHash, byPrev, p[k - 1], HashOf(hash, p[k - 2]));
    }
  }

  /**
    The walk back from the end of a path is that path, last header first, as far as it is in the pool:
    header j of the path comes as many places later as it lies before the end.
  */
  lemma {:induction false} WalkIsPathBackwards(hash: Hash, byHash: ByHash, byPrev: ByPrev, p: seq<Header>, v: seq<Header>, j: nat)
    requires Indexed(hash, byHash, byPrev) && NoCollisions(hash, byHash, byPrev) && Follows(hash, byPrev, p)
    requires BackPath(byHash, v) && EndsBack(byHash, v) && v[0] == p[|p| - 1] && 1 <= j < |p|
    ensures |p| - 1 - j < |v| && v[|p| - 1 - j] == p[j]
    ensures j == 1 ==> (|p| - 1 < |v| <==> HashOf(hash, p[0]) in byHash)
    decreases |p| - j
  {
    var i := |p| - 1 - j;
    if i == 0 {
      assert v != [];
    } else {
      WalkIsPathBackwards(hash, byHash, byPrev, p, v, j + 1);
      WalkBack(hash, byHash, byPrev, p, v, i - 1, j + 1);
    }
    hide *;
    if j == 1 { WalkBack(hash, byHash, byPrev, p, v, i, 1); }
  }

  lemma WalkBack(hash: Hash, byHash: ByHash, byPrev: ByPrev, p: seq<Header>, v: seq<Header>, i: nat, j: nat)
    requires Indexed(hash, byHash, byPrev) && NoCollisions(hash, byHash, byPrev) && Follows(hash, byPrev, p)
    requires BackPath(byHash, v) && EndsBack(byHash, v) && i < |v| && 0 < j < |p| && v[i] == p[j]
    ensures j > 1 ==> i + 1 < |v| && v[i + 1] == p[j - 1]
    ensures j == 1 ==> (i + 1 < |v| <==> HashOf(hash, p[0]) in byHash)
  {
    hide *;
    StepBack(hash, byHash, byPrev, p, j);
    WalkStep(byHash, v, i);
  }

  /** The walk goes on behind a header exactly when the pool knows its predecessor. */
  lemma WalkStep(byHash: ByHash, v: seq<Header>, i: nat)
    requires BackPath(byHash, v) && EndsBack(byHash, v) && i < |v|
    ensures i + 1 < |v| <==> v[i].prev != Zero() && v[i].prev in byHash
    ensures i + 1 < |v| ==> v[i].prev in byHash && v[i + 1] == byHash[v[i].prev]
  {
    hide Zero;
  }

  // ---------------------------------------------------------------- what pushing makes of the ways

  /** The index after the headers were pushed one after another. */
  ghost function PushAll(hs: seq<Header>): ByPrev {
    if hs == [] then map[]
    else
      var m, h := PushAll(hs[..|hs| - 1]), hs[|hs| - 1];
      if h.prev == Zero() then m else m[h.prev := Followers(m, h.prev) + [h]]
  }

  /** The pushes that put a header behind the hash d. */
  function PushedBehind(hs: seq<Header>, d: Digest): set<nat> { set i: nat | i < |hs| && hs[i].prev == d && d != Zero() }

  /** One more push. */
  lemma PushedMore(hs: seq<Header>, d: Digest)
    requires hs != []
    ensures var init, n := hs[..|hs| - 1], |hs| - 1;
            |PushedBehind(hs, d)| == |PushedBehind(init, d)| + (if hs[n].prev == d && d != Zero() then 1 else 0)
  {
    hide Zero;
    var init, n := hs[..|hs| - 1], |hs| - 1;
    var more := if hs[n].prev == d && d != Zero() then {n} else {};
    assert PushedBehind(hs, d) == PushedBehind(init, d) + more;
    assert n !in PushedBehind(init, d);
  }

  lemma PushAllMore(hs: seq<Header>, d: Digest)
    requires hs != []
    ensures var init, h := hs[..|hs| - 1], hs[|hs| - 1];
            |Followers(PushAll(hs), d)| == |Followers(PushAll(init), d)| + (if h.prev == d && d != Zero() then 1 else 0)
  {
    hide Zero;
  }

  /**
    Behind a hash there are as many ways on as pushes were made behind it, of whatever headers: a chain
    goes on through it if and only if there was exactly one.
  */
  lemma {:induction false} WaysArePushes(hs: seq<Header>, d: Digest)
    ensures |Followers(PushAll(hs), d)| == |PushedBehind(hs, d)|
    decreases |hs|
  {
    if hs != [] {
      WaysArePushes(hs[..|hs| - 1], d);
      PushedMore(hs, d);
      PushAllMore(hs, d);
      hide *;
    }
  }
}
